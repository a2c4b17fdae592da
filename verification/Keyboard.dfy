/** The keyboard driver: the buffer in place, the interrupt handler, and the blocking line reader. */
module Keyboard {
  import opened Echo
  import opened Editing
  import opened Formats
  import opened Framebuffer
  import opened KeyBuffers
  import opened Options
  import opened Printing
  import opened Screens

  class Driver {
    const buf: array<char>
    var pos: nat
    var shiftHeld: bool

    ghost function State(): Keys
      reads this, buf
    {
      Keys(buf[..], pos, shiftHeld)
    }

    ghost predicate Valid()
      reads this, buf
    {
      State().Valid()
    }

    ghost function Whole(t: Terminal): System
      reads this, buf, t
    {
      System(State(), t.screen)
    }

    constructor ()
      ensures Valid() && pos == 0 && !shiftHeld && fresh(buf) && forall i :: 0 <= i < SIZE ==> buf[i] == '\0'
    {
      buf := new char[SIZE](_ => '\0');
      pos, shiftHeld := 0, false;
    }

    /** `kbd_buf_pop`. */
    method Pop() returns (c: char)
      requires Valid()
      modifies this`pos, buf
      ensures Valid() && State() == KeyBuffers.Pop(old(State()))
      ensures c == if old(pos) == 0 then '\0' else old(buf[pos - 1])
    {
      if pos == 0 {
        return '\0';
      }
      pos := pos - 1;
      c := buf[pos];
      buf[pos] := '\0';
    }

    /** `kbd_buffer_push`. */
    method Push(c: char)
      requires Valid()
      modifies this`pos, buf
      ensures Valid() && State() == KeyBuffers.Push(old(State()), c)
    {
      if c == BACKSPACE {
        var _ := Pop();
        return;
      }
      if pos == SIZE - 1 {
        pos := 0;
      }
      buf[pos] := c;
      pos := pos + 1;
    }

    /** `kbd_handle_scancode`: store the typed character and echo it through the format printer. */
    method HandleScancode(sc: nat, t: Terminal)
      requires Valid() && t.Valid() && EchoOk(Whole(t), sc)
      modifies this, buf, t, t.fb, t.lineLen
      ensures Valid() && t.Valid() && t.textColor == old(t.textColor)
      ensures Whole(t) == Scan(old(Whole(t)), sc, t.textColor)
    {
      var released, code := sc >= 128, sc % 128;
      if code == 0x2A || code == 0x36 {
        shiftHeld := !released;
        return;
      }
      if released {
        return;
      }
      var c := KeyChar(code, shiftHeld);
      if c != '\0' {
        assert Typed(shiftHeld, sc) == Some(c);
        EchoFormat(shiftHeld, sc, c, t.screen, t.textColor);
        hide KeyChar, Format, Step, KeyBuffers.Push, WellBehaved, Run;
        Push(c);
        var _ := Kvprintf(t, "%c", [Int(c as int)]);
      }
    }

    /** The handlers that run while the reader is halted. */
    method HandleAll(scs: seq<nat>, t: Terminal)
      requires Valid() && t.Valid() && AllEchoOk(Whole(t), scs, t.textColor)
      modifies this, buf, t, t.fb, t.lineLen
      ensures Valid() && t.Valid() && t.textColor == old(t.textColor)
      ensures Whole(t) == ScanAll(old(Whole(t)), scs, t.textColor)
    {
      ghost var s, color := Whole(t), t.textColor;
      var i := 0;
      assert scs[0..] == scs;
      while i < |scs|
        invariant i <= |scs| && Valid() && t.Valid() && t.textColor == color
        invariant AllEchoOk(Whole(t), scs[i..], color)
        invariant ScanAll(Whole(t), scs[i..], color) == ScanAll(s, scs, color)
      {
        hide Scan, EchoOk;
        assert scs[i..][1..] == scs[i + 1..];
        HandleScancode(scs[i], t);
        i := i + 1;
      }
    }

    /** `kmemcpy` out of the buffer; `beyond` is whatever memory follows it. */
    method CopyOut(dest: array<char>, start: nat, n: nat, beyond: string)
      requires Valid() && start + n <= SIZE + |beyond| && n <= dest.Length && dest != buf
      modifies dest
      ensures dest[..n] == (buf[..] + beyond)[start..start + n]
      ensures dest[n..] == old(dest[n..])
    {
      var i := 0;
      while i < n
        invariant i <= n
        invariant forall k :: 0 <= k < i ==> dest[k] == (buf[..] + beyond)[start + k]
        invariant dest[n..] == old(dest[n..])
      {
        dest[i] := if start + i < SIZE then buf[start + i] else beyond[start + i - SIZE];
        i := i + 1;
      }
    }

    /** The `hlt` loop of `kbd_readline`. */
    method AwaitNewline(start: nat, t: Terminal, batches: seq<seq<nat>>) returns (stopped: bool)
      requires Valid() && t.Valid() && ReadEchoOk(Whole(t), start, batches, t.textColor)
      modifies this, buf, t, t.fb, t.lineLen
      ensures Valid() && t.Valid() && t.textColor == old(t.textColor)
      ensures Whole(t) == ReadSystem(old(Whole(t)), start, batches, t.textColor)
      ensures stopped <==> Read(old(State()), start, batches).Stopped?
    {
      hide Read, ReadSystem, ReadEchoOk, ScanAll, AllEchoOk;
      ghost var s, k, color := Whole(t), State(), t.textColor;
      var i := 0;
      assert batches[0..] == batches;
      while i < |batches|
        invariant i <= |batches| && Valid() && t.Valid() && t.textColor == color
        invariant ReadEchoOk(Whole(t), start, batches[i..], color)
        invariant ReadSystem(Whole(t), start, batches[i..], color) == ReadSystem(s, start, batches, color)
        invariant Read(State(), start, batches[i..]) == Read(k, start, batches)
      {
        assert batches[i..][1..] == batches[i + 1..];
        ReadTurn(Whole(t), start, batches[i..], color);
        HandleAll(batches[i], t);
        if pos != start && pos != 0 && buf[pos - 1] == '\n' {
          return true;
        }
        i := i + 1;
      }
      assert batches[i..] == [];
      ReadNone(Whole(t), start, color);
      stopped := false;
    }

    /** The rest of `kbd_readline`: the length, the copy and the terminator. */
    method CopyLine(dest: array<char>, start: nat, max: nat, beyond: string) returns (n: nat)
      requires Valid() && start < SIZE && 1 <= max <= dest.Length && dest != buf && |beyond| >= max
      modifies dest
      ensures n == LineLength(pos, start, max)
      ensures dest[..n] == (buf[..] + beyond)[start..start + n] && dest[n] == '\0'
      ensures dest[n + 1..] == old(dest[n + 1..])
    {
      n := (pos - start) % SIZE_T_LIMIT;
      if n >= max {
        n := max - 1;
      }
      CopyOut(dest, start, n, beyond);
      dest[n] := '\0';
    }

    /**
     `kbd_readline`: wait until the check succeeds, then copy and terminate the line.  `batches` are
     the bytes handled before each check; when they run out the reader is still halted.
     */
    method ReadLine(dest: array<char>, max: nat, t: Terminal, batches: seq<seq<nat>>, beyond: string)
      returns (r: Option<nat>)
      requires Valid() && t.Valid() && 1 <= max <= dest.Length && dest != buf && |beyond| >= max
      requires ReadEchoOk(Whole(t), pos, batches, t.textColor)
      modifies this, buf, dest, t, t.fb, t.lineLen
      ensures Valid() && t.Valid() && t.textColor == old(t.textColor)
      ensures Whole(t) == ReadSystem(old(Whole(t)), old(pos), batches, t.textColor)
      ensures r.Some? <==> Read(old(State()), old(pos), batches).Stopped?
      ensures r.None? ==> dest[..] == old(dest[..])
      ensures r.Some? ==>
        && r.value == LineLength(pos, old(pos), max)
        && dest[..r.value] == (buf[..] + beyond)[old(pos)..old(pos) + r.value]
        && dest[r.value] == '\0'
        && dest[r.value + 1..] == old(dest[r.value + 1..])
    {
      var start := pos;
      var stopped := AwaitNewline(start, t, batches);
      if !stopped {
        return None;
      }
      var n := CopyLine(dest, start, max, beyond);
      r := Some(n);
    }
  }

  /** Echoing with "%c" is putting the character. */
  lemma EchoFormat(shift: bool, sc: nat, c: char, s: Screen, color: nat)
    requires Typed(shift, sc) == Some(c) && s.Sized() && !OverfullBack(s, c)
    ensures AreArgs([Int(c as int)])
    ensures Format("%c", [Int(c as int)], color) == Some(Output(Puts([c], color), color, []))
    ensures WellBehaved(s, Puts([c], color))
    ensures Run(s, Puts([c], color)) == Step(s, c, color)
  {
    assert c as int < 128 by { KeyBytes(sc % 128, shift); }
    hide KeyChar, Step;
    var args := [Int(c as int)];
    assert First("%c", args, color) == Some(Piece(Puts([c], color), color, args[1..], 2));
    assert "%c"[2..] == "" && args[1..] == [];
    assert Format("%c"[2..], args[1..], color) == Some(Output([], color, []));
    assert Puts([c], color) + [] == Puts([c], color);
    assert "%c" != "";
    var p := Piece(Puts([c], color), color, args[1..], 2);
    assert Format("%c", args, color) == Then(p, Format("%c"[2..], args[1..], color));
    assert Puts([c], color) == [Put(c, color)];
    RunOne(s, Put(c, color));
  }

  lemma KeyBytes(code: nat, shift: bool)
    ensures KeyChar(code, shift) as int < 128
  {
  }
}
