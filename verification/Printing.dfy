/** Text, numbers and formats printed on the terminal: the printing half of kernel/vga.c. */
module Printing {
  import opened Arith
  import opened Editing
  import opened Formats
  import opened Framebuffer
  import opened Numbers
  import opened Options
  import opened Screens

  /** Output without backspaces is always well behaved. */
  lemma {:induction false} PlainBehaves(s: Screen, text: string, color: nat)
    requires s.Sized() && BACKSPACE !in text
    ensures WellBehaved(s, Puts(text, color))
    decreases |text|
  {
    if text != "" {
      var front := text[..|text| - 1];
      assert Puts(text, color)[..|text| - 1] == Puts(front, color);
      PlainBehaves(s, front, color);
    }
  }

  /** The next character of a well-behaved text. */
  lemma PutsNext(s: Screen, text: string, color: nat, i: nat)
    requires s.Sized() && i < |text| && WellBehaved(s, Puts(text, color))
    ensures !OverfullBack(Run(s, Puts(text[..i], color)), text[i])
    ensures Run(s, Puts(text[..i + 1], color)) == Step(Run(s, Puts(text[..i], color)), text[i], color)
  {
    hide Step, OverfullBack;
    var es, n := Puts(text, color), i + 1;
    assert es == Puts(text[..n], color) + Puts(text[n..], color);
    RunAppend(s, Puts(text[..n], color), Puts(text[n..], color));
    assert Puts(text[..n], color)[..i] == Puts(text[..i], color);
  }

  /** `vga_print`. */
  method VgaPrint(t: Terminal, text: string, color: nat)
    requires t.Valid() && WellBehaved(t.screen, Puts(text, color))
    modifies t`cursorRow, t`cursorColumn, t`screen, t.fb, t.lineLen
    ensures t.Valid() && t.screen == Run(old(t.screen), Puts(text, color))
  {
    for i := 0 to |text|
      invariant t.Valid() && t.screen == Run(old(t.screen), Puts(text[..i], color))
    {
      hide Run, WellBehaved, Step, OverfullBack;
      PutsNext(old(t.screen), text, color, i);
      t.PutC(text[i], color);
    }
    assert text[..|text|] == text;
  }

  /**
   Printing a text that neither fills a row nor scrolls, then as many backspaces: every pixel of the
   text area, the cursor and every row length are back where they were.
   */
  method PrintAndErase(t: Terminal, text: string, color: nat)
    requires t.Valid() && AtEnd(t.screen) && CalmText(t.screen, text, color)
    modifies t`cursorRow, t`cursorColumn, t`screen, t.fb, t.lineLen
    ensures t.Valid()
    ensures t.cursorRow == old(t.cursorRow) && t.cursorColumn == old(t.cursorColumn)
    ensures forall r :: 0 <= r < t.rows ==> t.lineLen[r] == old(t.lineLen[r])
    ensures forall y: nat, x: nat {:trigger t.Px(y, x)} :: t.InText(y, x) ==> t.Px(y, x) == old(t.Px(y, x))
  {
    ghost var s := t.screen;
    UndoText(s, text, color);
    VgaPrint(t, Undone(text), color);
    hide Run, WellBehaved, Puts, CalmText, Framebuffer.CellPixel;
    assert Alike(t.screen, s);
    assert forall r :: 0 <= r < t.rows ==> RowsAlike(t.screen.rows[r], s.rows[r]);
    t.AlikeShows(t.screen, s);
  }

  function Reversed(s: string): (r: string)
    ensures |r| == |s|
  {
    seq(|s|, k requires 0 <= k < |s| => s[|s| - 1 - k])
  }

  /**
   `kprint_uint`: the digits go through a buffer of twenty characters, least significant first, and
   come out in order.  The buffer is large enough exactly for the numbers below `base` to the 20.
   */
  method KprintUint(t: Terminal, n: nat, color: nat, base: nat)
    requires t.Valid() && 2 <= base <= 16 && n < Pow(base, 20)
    modifies t`cursorRow, t`cursorColumn, t`screen, t.fb, t.lineLen
    ensures t.Valid() && t.screen == Run(old(t.screen), Puts(UintText(n, base), color))
  {
    ghost var s, text := t.screen, UintText(n, base);
    UintPlain(n, base);
    PlainBehaves(s, text, color);
    if n == 0 {
      PutsNext(s, text, color, 0);
      t.PutC('0', color);
      assert text[..0] == "" && text[..1] == text;
      return;
    }
    DigitCount(n, base, 20);
    var buf, i := FillDigits(n, base);
    PutReversed(t, buf, i, color);
  }

  /** The printing loop of `kprint_uint`: from the last character of the buffer to the first. */
  method PutReversed(t: Terminal, buf: array<char>, i: nat, color: nat)
    requires t.Valid() && i <= buf.Length
    requires WellBehaved(t.screen, Puts(Reversed(buf[..i]), color))
    modifies t`cursorRow, t`cursorColumn, t`screen, t.fb, t.lineLen
    ensures t.Valid() && t.screen == Run(old(t.screen), Puts(old(Reversed(buf[..i])), color))
  {
    hide Run, WellBehaved, Step, OverfullBack;
    ghost var s, text := t.screen, Reversed(buf[..i]);
    var j := i;
    assert text[..0] == "";
    RunNone(s, color);
    while j > 0
      invariant j <= i && t.Valid() && t.screen == Run(s, Puts(text[..i - j], color))
    {
      j := j - 1;
      PutsNext(s, text, color, i - 1 - j);
      t.PutC(buf[j], color);
    }
    assert text[..i] == text;
  }

  lemma RunNone(s: Screen, color: nat)
    requires s.Sized()
    ensures Run(s, Puts("", color)) == s
  {
  }

  /** The division loop of `kprint_uint`. */
  method FillDigits(n: nat, base: nat) returns (buf: array<char>, i: nat)
    requires 2 <= base <= 16 && 0 < n && |Digits(n, base)| <= 20
    ensures fresh(buf) && buf.Length == 20 && i <= 20
    ensures Reversed(buf[..i]) == Digits(n, base)
  {
    hide Dtoa, Reversed, Digits;
    NoDigits(base);
    buf := new char[20];
    i := 0;
    var m: nat := n;
    ReversedSnoc("", '0');
    while m != 0
      invariant i <= 20
      invariant Digits(n, base) == Digits(m, base) + Reversed(buf[..i])
    {
      DigitsStep(m, base, buf[..i]);
      var digit := m % base;
      ghost var before := buf[..i];
      m := m / base;
      buf[i] := Dtoa(digit);
      i := i + 1;
      assert buf[..i] == before + [Dtoa(digit)];
    }
  }

  lemma ReversedSnoc(s: string, c: char)
    ensures Reversed("") == "" && |Reversed(s)| == |s|
    ensures Reversed(s + [c]) == [c] + Reversed(s)
  {
  }

  lemma NoDigits(base: nat)
    requires 2 <= base <= 16
    ensures Digits(0, base) == ""
  {
  }

  lemma DigitsStep(m: nat, base: nat, before: string)
    requires 2 <= base <= 16 && m > 0
    ensures 0 <= m / base < m && |Reversed(before)| == |before| && |Digits(m, base)| > 0
    ensures Digits(m, base) + Reversed(before) == Digits(m / base, base) + Reversed(before + [Dtoa(m % base)])
  {
    DivLess(m, base);
    ReversedSnoc(before, Dtoa(m % base));
    assert Digits(m, base) == Digits(m / base, base) + [Dtoa(m % base)];
    hide Digits, Dtoa, Reversed;
  }

  lemma UintPlain(n: nat, base: nat)
    requires 2 <= base <= 16
    ensures BACKSPACE !in UintText(n, base)
  {
    UintTextReads(n, base);
  }

  lemma Small64(n: nat, base: nat)
    requires 10 <= base <= 16 && n < UINT64_LIMIT
    ensures n < Pow(base, 20)
  {
    TwentyDigits(n, base);
    DigitCount(n, base, 20);
  }

  /** `kprint_int`: the sign, then the magnitude by modular negation, which is right for the minimum too. */
  method KprintInt(t: Terminal, num: int, color: nat, base: nat)
    requires t.Valid() && 10 <= base <= 16 && -INT64_LIMIT <= num < INT64_LIMIT
    modifies t`cursorRow, t`cursorColumn, t`screen, t.fb, t.lineLen
    ensures t.Valid() && t.screen == Run(old(t.screen), Puts(IntText(num, base), color))
  {
    hide Run, WellBehaved, Step, Pow;
    if num < 0 {
      ghost var s := t.screen;
      var magnitude := (0 - num % UINT64_LIMIT) % UINT64_LIMIT;
      Negation(num);
      RunOne(s, Put('-', color));
      t.PutC('-', color);
      Small64(magnitude, base);
      KprintUint(t, magnitude, color, base);
      SignSplit(s, num, color, base);
    } else {
      Small64(num, base);
      KprintUint(t, num, color, base);
    }
  }

  lemma Negation(num: int)
    requires -INT64_LIMIT <= num < 0
    ensures (0 - num % UINT64_LIMIT) % UINT64_LIMIT == -num
  {
  }

  lemma SignSplit(s: Screen, num: int, color: nat, base: nat)
    requires s.Sized() && num < 0 && 2 <= base <= 16
    ensures Run(s, Puts(IntText(num, base), color)) ==
            Run(Run(s, [Put('-', color)]), Puts(UintText(-num, base), color))
  {
    hide Run, UintText, WellBehaved;
    assert Puts(IntText(num, base), color) == [Put('-', color)] + Puts(UintText(-num, base), color);
    RunAppend(s, [Put('-', color)], Puts(UintText(-num, base), color));
  }

  // ---- Formats --------------------------------------------------------------------------------------

  ghost predicate AreArgs(args: seq<Arg>) {
    forall k :: 0 <= k < |args| ==> IsArg(args[k])
  }

  /** The terminal after a piece of a format has been printed on it. */
  twostate predicate Printed(t: Terminal, p: Piece, args': seq<Arg>)
    requires old(t.screen).Sized()
    reads t, t.fb, t.lineLen
  {
    t.Valid() && t.screen == Run(old(t.screen), p.events) && t.textColor == p.color && args' == p.args
  }

  /** The switch of `kvprintf` on the character after the percent sign, except for 'l'. */
  method PutDirective(t: Terminal, c: char, args: seq<Arg>) returns (args': seq<Arg>)
    requires t.Valid() && AreArgs(args) && Directive(c, args, t.textColor).Some?
    requires WellBehaved(t.screen, Directive(c, args, t.textColor).value.events)
    modifies t, t.fb, t.lineLen
    ensures Printed(t, Directive(c, args, old(t.textColor)).value, args')
  {
    hide WellBehaved, Run, Puts, IntText, UintText, Pow;
    args' := args;
    if c == 'd' {
      KprintInt(t, args[0].i, t.textColor, 10);
      args' := args[1..];
    } else if c == 'u' {
      Small64(args[0].u, 10);
      KprintUint(t, args[0].u, t.textColor, 10);
      args' := args[1..];
    } else if c == 'c' {
      VgaPrint(t, [(args[0].i % 256) as char], t.textColor);
      args' := args[1..];
    } else if c == 's' {
      VgaPrint(t, args[0].s, t.textColor);
      args' := args[1..];
    } else if c == 'X' {
      Small64(args[0].n, 16);
      KprintUint(t, args[0].n, t.textColor, 16);
      args' := args[1..];
    } else if c == 'k' {
      RunEmpty(t.screen);
      t.textColor := args[0].i % 256;
      args' := args[1..];
    } else {
      VgaPrint(t, ['%', c], t.textColor);
    }
  }

  lemma RunEmpty(s: Screen)
    requires s.Sized()
    ensures Run(s, []) == s
  {
  }

  /** The inner switch, after "%l". */
  method PutLong(t: Terminal, c: char, args: seq<Arg>) returns (args': seq<Arg>)
    requires t.Valid() && AreArgs(args) && LongPiece(c, args, t.textColor).Some?
    requires WellBehaved(t.screen, LongPiece(c, args, t.textColor).value.events)
    modifies t, t.fb, t.lineLen
    ensures Printed(t, LongPiece(c, args, old(t.textColor)).value, args')
  {
    hide WellBehaved, Run, Puts, IntText, UintText, Pow;
    args' := args;
    if c == 'd' {
      KprintInt(t, args[0].l, t.textColor, 10);
      args' := args[1..];
    } else if c == 'u' {
      Small64(args[0].n, 10);
      KprintUint(t, args[0].n, t.textColor, 10);
      args' := args[1..];
    } else {
      VgaPrint(t, ['%', 'l', c], t.textColor);
    }
  }

  /** One turn of the loop of `kvprintf`, at position `i`. */
  method PutFirst(t: Terminal, msg: string, i: nat, args: seq<Arg>) returns (i': nat, args': seq<Arg>)
    requires t.Valid() && AreArgs(args) && i < |msg| && First(msg[i..], args, t.textColor).Some?
    requires WellBehaved(t.screen, First(msg[i..], args, t.textColor).value.events)
    modifies t, t.fb, t.lineLen
    ensures Printed(t, First(msg[i..], args, old(t.textColor)).value, args')
    ensures i' == i + First(msg[i..], args, old(t.textColor)).value.used
  {
    hide WellBehaved, Run, Puts, Directive, LongPiece;
    i', args' := i, args;
    if msg[i] != '%' {
      assert msg[i..][..1] == [msg[i]];
      VgaPrint(t, [msg[i]], t.textColor);
    } else {
      i' := i' + 1;
      if i' == |msg| {
        PutsNothing(t.screen, t.textColor);
        return;
      }
      if msg[i'] == 'l' {
        i' := i' + 1;
        args' := PutLong(t, msg[i'], args);
      } else {
        args' := PutDirective(t, msg[i'], args);
      }
    }
    i' := i' + 1;
  }

  lemma PutsNothing(s: Screen, color: nat)
    requires s.Sized()
    ensures Run(s, Puts("", color)) == s
  {
  }

  /** The first piece of a format and the rest of it. */
  lemma FormatUnfold(s: Screen, msg: string, args: seq<Arg>, color: nat)
    requires s.Sized() && msg != "" && AreArgs(args) && Format(msg, args, color).Some?
    requires WellBehaved(s, Format(msg, args, color).value.events)
    ensures First(msg, args, color).Some?
    ensures var p := First(msg, args, color).value;
            var s' := Run(s, p.events);
            var o, o' := Format(msg, args, color).value, Format(msg[p.used..], p.args, p.color);
            && WellBehaved(s, p.events) && AreArgs(p.args)
            && o'.Some? && WellBehaved(s', o'.value.events)
            && Run(s, o.events) == Run(s', o'.value.events)
            && o.color == o'.value.color && o.args == o'.value.args
  {
    hide First, Run, WellBehaved, IsArg;
    var p := First(msg, args, color).value;
    FirstKeepsArgs(msg, args, color);
    RunAppend(s, p.events, Format(msg[p.used..], p.args, p.color).value.events);
  }

  lemma FirstKeepsArgs(msg: string, args: seq<Arg>, color: nat)
    requires msg != "" && AreArgs(args) && First(msg, args, color).Some?
    ensures AreArgs(First(msg, args, color).value.args)
  {
    hide Puts, IntText, UintText, IsArg;
  }

  /** `kvprintf` prints what `Format` says, leaves the colour it says, and fetches those arguments. */
  method Kvprintf(t: Terminal, msg: string, args: seq<Arg>) returns (rest: seq<Arg>)
    requires t.Valid() && AreArgs(args) && Format(msg, args, t.textColor).Some?
    requires WellBehaved(t.screen, Format(msg, args, t.textColor).value.events)
    modifies t, t.fb, t.lineLen
    ensures t.Valid()
    ensures var o := Format(msg, args, old(t.textColor)).value;
            t.screen == Run(old(t.screen), o.events) && t.textColor == o.color && rest == o.args
  {
    hide First, Run, WellBehaved, IsArg;
    ghost var o := Format(msg, args, t.textColor).value;
    ghost var final := Run(t.screen, o.events);
    var i := 0;
    rest := args;
    assert msg[0..] == msg;
    while i < |msg|
      invariant i <= |msg| && t.Valid() && AreArgs(rest)
      invariant Format(msg[i..], rest, t.textColor).Some?
      invariant var q := Format(msg[i..], rest, t.textColor).value;
                && WellBehaved(t.screen, q.events) && Run(t.screen, q.events) == final
                && q.color == o.color && q.args == o.args
    {
      ghost var p := First(msg[i..], rest, t.textColor);
      FormatUnfold(t.screen, msg[i..], rest, t.textColor);
      assert msg[i..][p.value.used..] == msg[i + p.value.used..];
      i, rest := PutFirst(t, msg, i, rest);
    }
    assert msg[i..] == "";
    RunEmpty(t.screen);
  }
}
