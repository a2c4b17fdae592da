/**
 The line being typed is the line on the screen: `kbd_handle_scancode` stores a character and echoes
 it, and on one row the two never disagree.
 */
module Echo {
  import opened Display
  import opened Editing
  import opened KeyBuffers
  import opened Options
  import opened Screens

  datatype System = System(keys: Keys, screen: Screen) {
    predicate Valid() {
      keys.Valid() && screen.Sized()
    }
  }

  /** Store a typed character and print it. */
  function TypeChar(s: System, c: char, color: nat): (r: System)
    requires s.Valid()
    ensures r.Valid()
  {
    System(Push(s.keys, c), Step(s.screen, c, color))
  }

  /** `kbd_handle_scancode`. */
  function Scan(s: System, sc: nat, color: nat): (r: System)
    requires s.Valid()
    ensures r.Valid() && r.keys == Handle(s.keys, sc)
  {
    match Typed(s.keys.shift, sc)
    case None => s.(keys := Handle(s.keys, sc))
    case Some(c) => System(Handle(s.keys, sc), Step(s.screen, c, color))
  }

  function ScanAll(s: System, scs: seq<nat>, color: nat): (r: System)
    requires s.Valid()
    ensures r.Valid()
    decreases |scs|
  {
    if scs == [] then s else ScanAll(Scan(s, scs[0], color), scs[1..], color)
  }

  /**
   The row from the end of the prompt (column `p` of row `row`) to the cursor shows exactly the text in
   the buffer from `start` on, and the cursor is right after it.
   */
  ghost predicate Echoes(s: System, start: nat, row: nat, p: nat, text: string, color: nat) {
    s.Valid() && Agrees(s.keys, start, text) && Displays(s.screen, row, p, text, color)
  }

  /** A key that stays on the row: a printable character that does not fill it, or a backspace with text left. */
  predicate StaysOnRow(width: nat, start: nat, p: nat, text: string, c: char) {
    if c == BACKSPACE then text != ""
    else Printable(c) && p + |text| + 1 < width && start + |text| < SIZE - 1
  }

  predicate AllStay(width: nat, start: nat, p: nat, text: string, typed: string)
    decreases |typed|
  {
    typed == "" ||
    (StaysOnRow(width, start, p, text, typed[0]) && AllStay(width, start, p, Edit(text, typed[0]), typed[1..]))
  }

  lemma EchoPrintable(s: System, start: nat, row: nat, p: nat, text: string, c: char, color: nat)
    requires Echoes(s, start, row, p, text, color) && Printable(c)
    requires StaysOnRow(s.screen.width, start, p, text, c)
    ensures Echoes(TypeChar(s, c, color), start, row, p, text + [c], color)
  {
    hide Displays, Agrees, Push, Step;
    PushAgrees(s.keys, start, text, c);
    DisplayPrintable(s.screen, row, p, text, c, color);
  }

  lemma EchoBackspace(s: System, start: nat, row: nat, p: nat, text: string, color: nat)
    requires Echoes(s, start, row, p, text, color) && text != ""
    ensures Echoes(TypeChar(s, BACKSPACE, color), start, row, p, text[..|text| - 1], color)
  {
    hide Displays, Agrees, Push, Step;
    PushAgrees(s.keys, start, text, BACKSPACE);
    DisplayBackspace(s.screen, row, p, text, color);
  }

  /** A key that stays on the row, whatever the prompt. */
  lemma EchoStays(s: System, start: nat, row: nat, p: nat, text: string, c: char, color: nat)
    requires Echoes(s, start, row, p, text, color) && StaysOnRow(s.screen.width, start, p, text, c)
    ensures Echoes(TypeChar(s, c, color), start, row, p, Edit(text, c), color)
  {
    hide Displays, Agrees, Push, Step;
    if c == BACKSPACE {
      EchoBackspace(s, start, row, p, text, color);
    } else {
      EchoPrintable(s, start, row, p, text, c, color);
    }
  }

  /** One key keeps screen and buffer together exactly when it stays on the row after the prompt. */
  lemma EchoKey(s: System, start: nat, row: nat, p: nat, text: string, c: char, color: nat)
    requires Echoes(s, start, row, p, text, color) && p > 0
    ensures Echoes(TypeChar(s, c, color), start, row, p, Edit(text, c), color) <==>
            StaysOnRow(s.screen.width, start, p, text, c)
  {
    PushAgrees(s.keys, start, text, c);
    if StaysOnRow(s.screen.width, start, p, text, c) {
      EchoStays(s, start, row, p, text, c, color);
    } else if c != BACKSPACE {
      assert Edit(text, c)[|text|] == c;
    }
  }

  /** The edited text after one byte from the controller. */
  function EditScan(shift: bool, text: string, sc: nat): string {
    match Typed(shift, sc)
    case None => text
    case Some(c) => Edit(text, c)
  }

  /** Screen and buffer are together after every byte. */
  ghost predicate EchoesThroughout(s: System, start: nat, row: nat, p: nat, text: string, scs: seq<nat>, color: nat)
    decreases |scs|
  {
    && Echoes(s, start, row, p, text, color)
    && (scs == [] ||
        var text' := EditScan(s.keys.shift, text, scs[0]);
        EchoesThroughout(Scan(s, scs[0], color), start, row, p, text', scs[1..], color))
  }

  /** The rest of a run after one byte. */
  lemma StayScan(s: System, start: nat, p: nat, text: string, scs: seq<nat>, color: nat)
    requires s.Valid() && scs != []
    ensures var s', text' := Scan(s, scs[0], color), EditScan(s.keys.shift, text, scs[0]);
            var typed, typed' := TypedBy(s.keys.shift, scs), TypedBy(s'.keys.shift, scs[1..]);
            && s'.screen.width == s.screen.width
            && EditAll(text, typed) == EditAll(text', typed')
            && match Typed(s.keys.shift, scs[0])
               case None => s' == s.(keys := s.keys.(shift := s'.keys.shift)) && typed == typed'
               case Some(c) =>
                 && s' == TypeChar(s, c, color) && typed == [c] + typed'
                 && (AllStay(s.screen.width, start, p, text, typed) <==>
                     StaysOnRow(s.screen.width, start, p, text, c) && AllStay(s.screen.width, start, p, text', typed'))
  {
    hide Typed, Step, Push, StaysOnRow, Edit;
    match Typed(s.keys.shift, scs[0])
    case None =>
    case Some(c) =>
      var typed' := TypedBy(ShiftAfter(s.keys.shift, scs[0]), scs[1..]);
      assert ([c] + typed')[1..] == typed';
      StepShape(s.screen, c, color);
  }

  lemma EchoShift(s: System, start: nat, row: nat, p: nat, text: string, shift: bool, color: nat)
    requires Echoes(s, start, row, p, text, color)
    ensures Echoes(s.(keys := s.keys.(shift := shift)), start, row, p, text, color)
  {
    hide Displays;
    AgreesShift(s.keys, start, text, shift);
  }

  /**
   Through a run of bytes, with shift pressed and released at will, the cells from the prompt to the
   cursor are the edited text in the buffer after every byte, exactly when the run stays on the
   prompt's row.
   */
  lemma {:induction false} EchoExact(s: System, start: nat, row: nat, p: nat, text: string, scs: seq<nat>, color: nat)
    requires Echoes(s, start, row, p, text, color) && p > 0
    ensures EchoesThroughout(s, start, row, p, text, scs, color) <==>
            AllStay(s.screen.width, start, p, text, TypedBy(s.keys.shift, scs))
    decreases |scs|
  {
    hide Echoes, AllStay, Scan, Typed, TypedBy, Edit;
    if scs == [] {
      StayNone(s, start, p, text);
    } else {
      EchoesValid(s, start, row, p, text, color);
      var s', text' := Scan(s, scs[0], color), EditScan(s.keys.shift, text, scs[0]);
      StayScan(s, start, p, text, scs, color);
      match Typed(s.keys.shift, scs[0])
      case None =>
        EchoShift(s, start, row, p, text, s'.keys.shift, color);
        EchoExact(s', start, row, p, text', scs[1..], color);
      case Some(c) =>
        EchoKey(s, start, row, p, text, c, color);
        if StaysOnRow(s.screen.width, start, p, text, c) {
          EchoExact(s', start, row, p, text', scs[1..], color);
        } else {
          NotThroughout(s', start, row, p, text', scs[1..], color);
        }
    }
  }

  lemma StayNone(s: System, start: nat, p: nat, text: string)
    ensures TypedBy(s.keys.shift, []) == "" && AllStay(s.screen.width, start, p, text, "")
  {
  }

  lemma EchoesValid(s: System, start: nat, row: nat, p: nat, text: string, color: nat)
    requires Echoes(s, start, row, p, text, color)
    ensures s.Valid()
  {
  }

  lemma NotThroughout(s: System, start: nat, row: nat, p: nat, text: string, scs: seq<nat>, color: nat)
    requires !Echoes(s, start, row, p, text, color)
    ensures !EchoesThroughout(s, start, row, p, text, scs, color)
  {
  }

  /**
   Through any run of bytes that stays on the prompt's row, with shift pressed and released at will, the
   cells from the prompt to the cursor are exactly the edited text in the buffer.
   */
  lemma {:induction false} EchoRun(s: System, start: nat, row: nat, p: nat, text: string, scs: seq<nat>, color: nat)
    requires Echoes(s, start, row, p, text, color)
    requires AllStay(s.screen.width, start, p, text, TypedBy(s.keys.shift, scs))
    ensures Echoes(ScanAll(s, scs, color), start, row, p, EditAll(text, TypedBy(s.keys.shift, scs)), color)
    decreases |scs|
  {
    hide Echoes, AllStay, StaysOnRow, Scan, Typed, Edit;
    EchoesValid(s, start, row, p, text, color);
    if scs != [] {
      var s', text' := Scan(s, scs[0], color), EditScan(s.keys.shift, text, scs[0]);
      StayScan(s, start, p, text, scs, color);
      match Typed(s.keys.shift, scs[0]) {
        case None => EchoShift(s, start, row, p, text, s'.keys.shift, color);
        case Some(c) => EchoStays(s, start, row, p, text, c, color);
      }
      EchoRun(s', start, row, p, text', scs[1..], color);
    }
  }

  // ---- The reader, with its echo ------------------------------------------------------------------------

  /** The typed character, if any, can be echoed: it is not an overfull backspace. */
  predicate EchoOk(s: System, sc: nat)
    requires s.Valid()
  {
    match Typed(s.keys.shift, sc)
    case None => true
    case Some(c) => !OverfullBack(s.screen, c)
  }

  predicate AllEchoOk(s: System, scs: seq<nat>, color: nat)
    requires s.Valid()
    decreases |scs|
  {
    scs == [] || (EchoOk(s, scs[0]) && AllEchoOk(Scan(s, scs[0], color), scs[1..], color))
  }

  lemma ScanAllKeys(s: System, scs: seq<nat>, color: nat)
    requires s.Valid()
    ensures ScanAll(s, scs, color).keys == HandleAll(s.keys, scs)
    decreases |scs|
  {
  }

  /** `Read`, with the screen: the bytes of each batch are handled and echoed, then the reader checks. */
  function ReadSystem(s: System, start: nat, batches: seq<seq<nat>>, color: nat): (r: System)
    requires s.Valid()
    ensures r.Valid() && r.keys == Read(s.keys, start, batches).k
    decreases |batches|
  {
    if batches == [] then s else
    var s' := ScanAll(s, batches[0], color);
    ScanAllKeys(s, batches[0], color);
    if Done(s'.keys, start) then s' else ReadSystem(s', start, batches[1..], color)
  }

  predicate ReadEchoOk(s: System, start: nat, batches: seq<seq<nat>>, color: nat)
    requires s.Valid()
    decreases |batches|
  {
    batches == [] ||
    var s' := ScanAll(s, batches[0], color);
    && AllEchoOk(s, batches[0], color)
    && (Done(s'.keys, start) || ReadEchoOk(s', start, batches[1..], color))
  }

  /** One turn of the reader: the bytes of a batch, then the check. */
  lemma ReadTurn(s: System, start: nat, batches: seq<seq<nat>>, color: nat)
    requires s.Valid() && batches != []
    ensures var s' := ScanAll(s, batches[0], color);
            var done := Done(s'.keys, start);
            && ReadSystem(s, start, batches, color) == (if done then s' else ReadSystem(s', start, batches[1..], color))
            && Read(s.keys, start, batches) ==
               (if done then Stopped(s'.keys) else Read(s'.keys, start, batches[1..]))
            && (ReadEchoOk(s, start, batches, color) <==>
                AllEchoOk(s, batches[0], color) && (done || ReadEchoOk(s', start, batches[1..], color)))
  {
    ScanAllKeys(s, batches[0], color);
  }

  lemma ReadNone(s: System, start: nat, color: nat)
    requires s.Valid()
    ensures ReadSystem(s, start, [], color) == s && Read(s.keys, start, []) == Waiting(s.keys)
  {
  }

  lemma {:induction false} ScanAllInv(s: System, scs: seq<nat>, color: nat)
    requires s.Valid() && Inv(s.screen) && AllEchoOk(s, scs, color)
    ensures Inv(ScanAll(s, scs, color).screen)
    decreases |scs|
  {
    hide Inv, Typed, Step;
    if scs != [] {
      match Typed(s.keys.shift, scs[0]) {
        case None =>
        case Some(c) => InvStep(s.screen, c, color);
      }
      ScanAllInv(Scan(s, scs[0], color), scs[1..], color);
    }
  }

  /** What can be echoed while a line is read keeps the invariant of the screen. */
  lemma {:induction false} ReadInv(s: System, start: nat, batches: seq<seq<nat>>, color: nat)
    requires s.Valid() && Inv(s.screen) && ReadEchoOk(s, start, batches, color)
    ensures Inv(ReadSystem(s, start, batches, color).screen)
    decreases |batches|
  {
    hide Inv, ScanAll, AllEchoOk, ReadSystem, ReadEchoOk, Read;
    if batches == [] {
      ReadNone(s, start, color);
    } else {
      ReadTurn(s, start, batches, color);
      ScanAllInv(s, batches[0], color);
      var s' := ScanAll(s, batches[0], color);
      if !Done(s'.keys, start) {
        ReadInv(s', start, batches[1..], color);
      }
    }
  }

  // ---- A line after a prompt ------------------------------------------------------------------------------

  /** While the line stays on its row the reader waits, and everything typed can be echoed. */
  lemma {:induction false} EchoWaits(s: System, start: nat, row: nat, p: nat, text: string, scs: seq<nat>,
                                     more: seq<nat>, color: nat)
    requires Echoes(s, start, row, p, text, color)
    requires AllStay(s.screen.width, start, p, text, TypedBy(s.keys.shift, scs))
    ensures var s' := ScanAll(s, scs, color);
            && ReadSystem(s, start, Singles(scs + more), color) == ReadSystem(s', start, Singles(more), color)
            && Read(s.keys, start, Singles(scs + more)) == Read(s'.keys, start, Singles(more))
            && (ReadEchoOk(s', start, Singles(more), color) ==> ReadEchoOk(s, start, Singles(scs + more), color))
    decreases |scs|
  {
    hide Echoes, AllStay, StaysOnRow, Scan, Typed, Edit, EchoOk, Done, ReadSystem, Read, ReadEchoOk, AllEchoOk;
    EchoesValid(s, start, row, p, text, color);
    if scs == [] {
      assert scs + more == more;
    } else {
      var sc, rest := scs[0], scs[1..];
      var s', text' := Scan(s, sc, color), EditScan(s.keys.shift, text, sc);
      StayScan(s, start, p, text, scs, color);
      match Typed(s.keys.shift, sc) {
        case None => EchoShift(s, start, row, p, text, s'.keys.shift, color);
        case Some(c) => EchoStays(s, start, row, p, text, c, color);
      }
      EchoGoesOn(s, start, row, p, text, scs, color);
      EchoWaits(s', start, row, p, text', rest, more, color);
      assert scs + more == [sc] + (rest + more);
      SinglesCons(sc, rest + more);
      OneByte(s, sc, color);
      ReadTurn(s, start, Singles(scs + more), color);
    }
  }

  lemma OneByte(s: System, sc: nat, color: nat)
    requires s.Valid()
    ensures ScanAll(s, [sc], color) == Scan(s, sc, color) && HandleAll(s.keys, [sc]) == Handle(s.keys, sc)
    ensures AllEchoOk(s, [sc], color) <==> EchoOk(s, sc)
  {
  }

  /** The byte can be echoed, and the reader goes on waiting after it. */
  lemma EchoGoesOn(s: System, start: nat, row: nat, p: nat, text: string, scs: seq<nat>, color: nat)
    requires Echoes(s, start, row, p, text, color) && scs != []
    requires AllStay(s.screen.width, start, p, text, TypedBy(s.keys.shift, scs))
    requires Echoes(Scan(s, scs[0], color), start, row, p, EditScan(s.keys.shift, text, scs[0]), color)
    ensures EchoOk(s, scs[0]) && !Done(Scan(s, scs[0], color).keys, start)
  {
    hide Scan, Typed, Inv, Agrees, Done;
    var text' := EditScan(s.keys.shift, text, scs[0]);
    DoneAgrees(Scan(s, scs[0], color).keys, start, text');
    StayScan(s, start, p, text, scs, color);
  }

  /**
   At a prompt that leaves room on its row, as long as what is typed stays on that row: the reader is
   still waiting, and the screen shows exactly the text in the buffer between prompt and cursor.  The
   enter key can be echoed too.
   */
  lemma PromptEchoes(k: Keys, s: Screen, prompt: string, scs: seq<nat>, color: nat)
    requires k.Valid() && Inv(s) && prompt != "" && s.col + |prompt| < s.width
    requires forall i :: 0 <= i < |prompt| ==> Printable(prompt[i])
    requires AllStay(s.width, k.pos, s.col + |prompt|, "", TypedBy(k.shift, scs))
    ensures var s0 := System(k, Run(s, Puts(prompt, color)));
            var r := ReadSystem(s0, k.pos, Singles(scs), color);
            && Read(k, k.pos, Singles(scs)).Waiting?
            && Echoes(r, k.pos, s.row, s.col + |prompt|, EditAll("", TypedBy(k.shift, scs)), color)
            && ReadEchoOk(s0, k.pos, Singles(scs), color)
            && ReadEchoOk(s0, k.pos, Singles(scs + [ENTER]), color)
  {
    hide Inv, Run, Puts, AllStay, Typed, Printable, ReadSystem, Read, ReadEchoOk, Displays, ScanAll;
    InvSized(s);
    var s0, p := System(k, Run(s, Puts(prompt, color))), s.col + |prompt|;
    PromptShown(s, prompt, color);
    assert k.buf[k.pos..k.pos] == "";
    EchoRun(s0, k.pos, s.row, p, "", scs, color);
    var s' := ScanAll(s0, scs, color);
    assert scs + [] == scs;
    EchoWaits(s0, k.pos, s.row, p, "", scs, [], color);
    EchoWaits(s0, k.pos, s.row, p, "", scs, [ENTER], color);
    ReadNone(s', k.pos, color);
    EnterEchoes(s', k.pos, color);
  }

  lemma EnterEchoes(s: System, start: nat, color: nat)
    requires s.Valid()
    ensures ReadEchoOk(s, start, [], color) && ReadEchoOk(s, start, Singles([ENTER]), color)
  {
    hide Typed, Scan;
    OnlyEnter(s.keys.shift, ENTER);
    OneByte(s, ENTER, color);
    assert Singles([ENTER]) == [[ENTER]];
  }

  // ---- Echoing is printing --------------------------------------------------------------------------------

  /** Whatever is typed: the screen is the one on which the typed text has been printed. */
  lemma {:induction false} ScanAllPrints(s: System, scs: seq<nat>, color: nat)
    requires s.Valid()
    ensures ScanAll(s, scs, color).screen == Run(s.screen, Puts(TypedBy(s.keys.shift, scs), color))
    decreases |scs|
  {
    hide Typed, Step, Run, Push;
    if scs == [] {
      RunNothing(s.screen, color);
    } else {
      ScanAllPrints(Scan(s, scs[0], color), scs[1..], color);
      match Typed(s.keys.shift, scs[0])
      case None =>
      case Some(c) =>
        var rest := TypedBy(ShiftAfter(s.keys.shift, scs[0]), scs[1..]);
        PutsCons([c] + rest, color);
        assert ([c] + rest)[1..] == rest;
        RunCons(s.screen, Put(c, color), Puts(rest, color));
    }
  }

  lemma RunNothing(s: Screen, color: nat)
    requires s.Sized()
    ensures Run(s, Puts("", color)) == s
  {
  }

  /** A regular read prints the line up to the first newline, and that newline. */
  lemma {:induction false} ReadPrints(s: System, start: nat, text: string, scs: seq<nat>, color: nat)
    requires Agrees(s.keys, start, text) && s.screen.Sized() && '\n' !in text
    requires Regular(start, text, Lived(TypedBy(s.keys.shift, scs)))
    requires BeforeNewline(TypedBy(s.keys.shift, scs)).Some?
    ensures var body := BeforeNewline(TypedBy(s.keys.shift, scs)).value;
            ReadSystem(s, start, Singles(scs), color).screen == Run(s.screen, Puts(body + "\n", color))
    decreases |scs|
  {
    hide Typed, Agrees, Done, Push, ReadSystem, Read, ReadEchoOk, AllEchoOk, Step, Run, Puts, Regular, Lived;
    AgreesValid(s.keys, start, text);
    var sc, rest := scs[0], scs[1..];
    var s' := Scan(s, sc, color);
    OneByte(s, sc, color);
    SinglesCons(sc, rest);
    assert scs == [sc] + rest;
    ReadTurn(s, start, Singles(scs), color);
    match Typed(s.keys.shift, sc)
    case None =>
      AgreesShift(s.keys, start, text, ShiftAfter(s.keys.shift, sc));
      DoneAgrees(s'.keys, start, text);
      ReadPrints(s', start, text, rest, color);
    case Some(c) =>
      var typed := TypedBy(s'.keys.shift, rest);
      ReadChar(s.keys, start, text, sc, rest, c);
      if c == '\n' {
        PutsCons("\n", color);
        RunCons(s.screen, Put(c, color), Puts("", color));
        RunNothing(Step(s.screen, c, color), color);
        assert "\n"[1..] == "" && "" + "\n" == "\n";
      } else {
        LivedCons(start, text, c, typed);
        ReadPrints(s', start, Edit(text, c), rest, color);
        var body := BeforeNewline(typed).value;
        assert [c] + body + "\n" == [c] + (body + "\n");
        PutsCons([c] + (body + "\n"), color);
        assert ([c] + (body + "\n"))[1..] == body + "\n";
        RunCons(s.screen, Put(c, color), Puts(body + "\n", color));
      }
  }

  // ---- The enter key ---------------------------------------------------------------------------------------

  lemma DisplayShape(s: Screen, row: nat, p: nat, text: string, color: nat)
    requires Displays(s, row, p, text, color)
    ensures s.Sized() && s.row == row
  {
  }

  /** One byte in a batch of its own, with nothing after it. */
  lemma ReadOne(s: System, start: nat, sc: nat, color: nat)
    requires s.Valid()
    ensures ReadSystem(s, start, Singles([sc]), color) == Scan(s, sc, color)
  {
    hide Scan, ScanAll;
    assert Singles([sc]) == [[sc]];
    OneByte(s, sc, color);
  }

  lemma EnterScan(s: System, color: nat)
    requires s.Valid()
    ensures Scan(s, 28, color).screen == Step(s.screen, '\n', color)
  {
    hide Typed, Step;
    OnlyEnter(s.keys.shift, 28);
  }

  lemma {:induction false} RunShape(s: Screen, es: seq<Event>)
    requires s.Sized()
    ensures Run(s, es).width == s.width && Run(s, es).endless == s.endless
    decreases |es|
  {
    hide Step;
    if es != [] {
      var t, last := Run(s, es[..|es| - 1]), es[|es| - 1];
      RunShape(s, es[..|es| - 1]);
      match last
      case Put(c, color) => StepShape(t, c, color);
      case Clear(_) =>
    }
  }

  lemma ScanAllShape(s: System, scs: seq<nat>, color: nat)
    requires s.Valid()
    ensures ScanAll(s, scs, color).screen.width == s.screen.width
    ensures ScanAll(s, scs, color).screen.endless == s.screen.endless
  {
    ScanAllPrints(s, scs, color);
    RunShape(s.screen, Puts(TypedBy(s.keys.shift, scs), color));
  }

  /**
   The enter key after a line that stays on the row of its prompt: the cursor is at the start of the next
   row, and the typed row is as it was.
   */
  lemma EnterMoves(k: Keys, s: Screen, prompt: string, scs: seq<nat>, color: nat)
    requires k.Valid() && Inv(s) && prompt != "" && s.col + |prompt| < s.width
    requires forall i :: 0 <= i < |prompt| ==> Printable(prompt[i])
    requires AllStay(s.width, k.pos, s.col + |prompt|, "", TypedBy(k.shift, scs))
    ensures var s0 := System(k, Run(s, Puts(prompt, color)));
            var before := ReadSystem(s0, k.pos, Singles(scs), color).screen;
            var after := ReadSystem(s0, k.pos, Singles(scs + [28]), color).screen;
            && after.col == 0 && before.row == s.row && s.row < |before.rows|
            && if s.row + 1 < |before.rows| then
                 after.row == s.row + 1 && after.rows == before.rows
               else if s.endless then
                 after.row == s.row + 1 && after.rows[..s.row + 1] == before.rows
               else
                 after.row == s.row && after.rows[..s.row] == before.rows[1..]
  {
    hide Inv, Run, Puts, AllStay, Typed, Printable, ReadSystem, Read, ReadEchoOk, Displays, ScanAll, Scan, Step;
    InvSized(s);
    var s0, p := System(k, Run(s, Puts(prompt, color))), s.col + |prompt|;
    PromptShown(s, prompt, color);
    RunShape(s, Puts(prompt, color));
    assert k.buf[k.pos..k.pos] == "";
    EchoRun(s0, k.pos, s.row, p, "", scs, color);
    var s' := ScanAll(s0, scs, color);
    ScanAllShape(s0, scs, color);
    assert scs + [] == scs;
    EchoWaits(s0, k.pos, s.row, p, "", scs, [], color);
    EchoWaits(s0, k.pos, s.row, p, "", scs, [28], color);
    ReadNone(s', k.pos, color);
    ReadOne(s', k.pos, 28, color);
    EnterScan(s', color);
    DisplayShape(s'.screen, s.row, p, EditAll("", TypedBy(k.shift, scs)), color);
    Newline(s'.screen, color);
  }
}
