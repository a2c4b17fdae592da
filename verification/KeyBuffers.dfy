/**
 The keyboard buffer and the line reader of kernel/keyboard.c as a transition system on values: key
 handlers run between the reader's checks, one scancode at a time.
 */
module KeyBuffers {
  import opened Editing
  import opened Options
  import opened Screens

  const SIZE: nat := 2048
  const SIZE_T_LIMIT: int := 0x1_0000_0000_0000_0000

  /** The wrapping buffer `kbd_buf` and the state of the shift keys. */
  datatype Keys = Keys(buf: string, pos: nat, shift: bool) {
    predicate Valid() {
      |buf| == SIZE && pos <= SIZE - 1
    }
  }

  // ---- Scancodes --------------------------------------------------------------------------------

  /** The number row: the entries of the two tables, plain and shifted, that are not zero. */
  function NumberKeys(code: nat): (char, char) {
    match code
    case 1 => (27 as char, 27 as char)
    case 2 => ('1', '!')
    case 3 => ('2', '@')
    case 4 => ('3', '#')
    case 5 => ('4', '$')
    case 6 => ('5', '%')
    case 7 => ('6', '^')
    case 8 => ('7', '&')
    case 9 => ('8', '*')
    case 10 => ('9', '(')
    case 11 => ('0', ')')
    case 12 => ('-', '_')
    case 13 => ('=', '+')
    case _ => ('\0', '\0')
  }

  /** The top letter row, from backspace to enter. */
  function TopKeys(code: nat): (char, char) {
    match code
    case 14 => (BACKSPACE, BACKSPACE)
    case 15 => ('\t', '\t')
    case 16 => ('q', 'Q')
    case 17 => ('w', 'W')
    case 18 => ('e', 'E')
    case 19 => ('r', 'R')
    case 20 => ('t', 'T')
    case 21 => ('y', 'Y')
    case 22 => ('u', 'U')
    case 23 => ('i', 'I')
    case 24 => ('o', 'O')
    case 25 => ('p', 'P')
    case 26 => ('[', '{')
    case 27 => (']', '}')
    case 28 => ('\n', '\n')
    case _ => ('\0', '\0')
  }

  /** The home row. */
  function HomeKeys(code: nat): (char, char) {
    match code
    case 30 => ('a', 'A')
    case 31 => ('s', 'S')
    case 32 => ('d', 'D')
    case 33 => ('f', 'F')
    case 34 => ('g', 'G')
    case 35 => ('h', 'H')
    case 36 => ('j', 'J')
    case 37 => ('k', 'K')
    case 38 => ('l', 'L')
    case 39 => (';', ':')
    case 40 => ('\'', '\"')
    case 41 => ('`', '~')
    case _ => ('\0', '\0')
  }

  /** The bottom row, the keypad star and the space bar. */
  function BottomKeys(code: nat): (char, char) {
    match code
    case 43 => ('\\', '|')
    case 44 => ('z', 'Z')
    case 45 => ('x', 'X')
    case 46 => ('c', 'C')
    case 47 => ('v', 'V')
    case 48 => ('b', 'B')
    case 49 => ('n', 'N')
    case 50 => ('m', 'M')
    case 51 => (',', '<')
    case 52 => ('.', '>')
    case 53 => ('/', '?')
    case 55 => ('*', '*')
    case 57 => (' ', ' ')
    case _ => ('\0', '\0')
  }

  /** The two 128-entry tables. */
  function KeyChars(code: nat): (char, char) {
    if code <= 13 then NumberKeys(code)
    else if code <= 28 then TopKeys(code)
    else if code <= 41 then HomeKeys(code)
    else BottomKeys(code)
  }

  function KeyChar(code: nat, shift: bool): char {
    if shift then KeyChars(code).1 else KeyChars(code).0
  }

  predicate IsShift(code: nat) { code == 0x2A || code == 0x36 }

  /** A byte from the controller: the shift state it leaves. */
  function ShiftAfter(shift: bool, sc: nat): bool {
    if IsShift(sc % 128) then sc < 128 else shift
  }

  /** The character it types, if any; bit 7 marks a release. */
  function Typed(shift: bool, sc: nat): Option<char> {
    if IsShift(sc % 128) || sc >= 128 || KeyChar(sc % 128, shift) == '\0' then None
    else Some(KeyChar(sc % 128, shift))
  }

  function ShiftAll(shift: bool, scs: seq<nat>): bool
    decreases |scs|
  {
    if scs == [] then shift else ShiftAll(ShiftAfter(shift, scs[0]), scs[1..])
  }

  /** The characters typed by a run of bytes. */
  function TypedBy(shift: bool, scs: seq<nat>): string
    decreases |scs|
  {
    if scs == [] then "" else
    var rest := TypedBy(ShiftAfter(shift, scs[0]), scs[1..]);
    match Typed(shift, scs[0])
    case None => rest
    case Some(c) => [c] + rest
  }

  lemma {:induction false} TypedAppend(shift: bool, a: seq<nat>, b: seq<nat>)
    ensures TypedBy(shift, a + b) == TypedBy(shift, a) + TypedBy(ShiftAll(shift, a), b)
    decreases |a|
  {
    hide Typed, ShiftAfter;
    if a == [] {
      assert a + b == b;
    } else {
      assert (a + b)[1..] == a[1..] + b;
      TypedAppend(ShiftAfter(shift, a[0]), a[1..], b);
    }
  }

  // ---- The buffer -------------------------------------------------------------------------------

  function Pop(k: Keys): (r: Keys)
    requires k.Valid()
    ensures r.Valid()
  {
    if k.pos == 0 then k else k.(pos := k.pos - 1, buf := k.buf[k.pos - 1 := '\0'])
  }

  /** Where the next character is stored: the start of the buffer once it is full. */
  function Slot(k: Keys): (i: nat)
    requires k.Valid()
    ensures i <= SIZE - 2
  {
    if k.pos == SIZE - 1 then 0 else k.pos
  }

  function Push(k: Keys, c: char): (r: Keys)
    requires k.Valid()
    ensures r.Valid() && r.shift == k.shift
  {
    if c == BACKSPACE then Pop(k) else k.(buf := k.buf[Slot(k) := c], pos := Slot(k) + 1)
  }

  /** A character is stored at the position, or at the start when only the last slot is left, and moves past it. */
  lemma PushStores(k: Keys, c: char)
    requires k.Valid() && c != BACKSPACE
    ensures k.pos < 2047 ==> Push(k, c) == Keys(k.buf[k.pos := c], k.pos + 1, k.shift)
    ensures k.pos == 2047 ==> Push(k, c) == Keys(k.buf[0 := c], 1, k.shift)
  {
  }

  /** A backspace clears the character before the position, and does nothing at the start of the buffer. */
  lemma PushErases(k: Keys)
    requires k.Valid()
    ensures k.pos > 0 ==> Push(k, BACKSPACE) == Keys(k.buf[k.pos - 1 := '\0'], k.pos - 1, k.shift)
    ensures k.pos == 0 ==> Push(k, BACKSPACE) == k
  {
  }

  function Handle(k: Keys, sc: nat): (r: Keys)
    requires k.Valid()
    ensures r.Valid() && r.shift == ShiftAfter(k.shift, sc)
  {
    match Typed(k.shift, sc)
    case None => k.(shift := ShiftAfter(k.shift, sc))
    case Some(c) => Push(k, c)
  }

  function HandleAll(k: Keys, scs: seq<nat>): (r: Keys)
    requires k.Valid()
    ensures r.Valid()
    decreases |scs|
  {
    if scs == [] then k else HandleAll(Handle(k, scs[0]), scs[1..])
  }

  // ---- The reader -------------------------------------------------------------------------------

  /** The reader's check after each `hlt`: a newline was just stored, and something has moved. */
  predicate Done(k: Keys, start: nat)
    requires k.Valid()
  {
    k.pos != start && k.pos != 0 && k.buf[k.pos - 1] == '\n'
  }

  datatype Await = Waiting(k: Keys) | Stopped(k: Keys)

  /** The reader's loop; `batches` lists the bytes handled before each of its checks. */
  function Read(k: Keys, start: nat, batches: seq<seq<nat>>): (r: Await)
    requires k.Valid()
    ensures r.k.Valid()
    ensures r.Stopped? ==> Done(r.k, start)
    decreases |batches|
  {
    if batches == [] then Waiting(k) else
    var k' := HandleAll(k, batches[0]);
    if Done(k', start) then Stopped(k') else Read(k', start, batches[1..])
  }

  /** The length `kbd_readline` returns: an unsigned difference, cut to the caller's buffer. */
  function LineLength(pos: nat, start: nat, max: nat): nat
    requires max > 0
  {
    var n := (pos - start) % SIZE_T_LIMIT;
    if n >= max then max - 1 else n
  }

  /**
   Whatever was typed, however it wrapped or went below the start of the line: a read that returns
   leaves the buffer valid and has a length from 1 to `max - 1`, so the caller's last character exists.
   */
  lemma ReadLength(k: Keys, start: nat, batches: seq<seq<nat>>, max: nat)
    requires k.Valid() && start < SIZE && 2 <= max && Read(k, start, batches).Stopped?
    ensures var r := Read(k, start, batches).k;
            r.pos <= SIZE - 1 && 1 <= LineLength(r.pos, start, max) <= max - 1
  {
    var r := Read(k, start, batches).k;
    if r.pos > start {
      assert (r.pos - start) % SIZE_T_LIMIT == r.pos - start;
    } else {
      assert (r.pos - start) % SIZE_T_LIMIT == r.pos - start + SIZE_T_LIMIT;
    }
  }

  /** The length is that of the text typed exactly when the position has not fallen below the start. */
  lemma LengthWraps(pos: nat, start: nat, max: nat)
    requires pos < SIZE && start < SIZE && pos != start && 2 <= max <= SIZE
    ensures pos > start ==> LineLength(pos, start, max) == if pos - start >= max then max - 1 else pos - start
    ensures pos < start ==> LineLength(pos, start, max) == max - 1
  {
    if pos > start {
      assert (pos - start) % SIZE_T_LIMIT == pos - start;
    } else {
      assert (pos - start) % SIZE_T_LIMIT == pos - start + SIZE_T_LIMIT;
    }
  }

  // ---- The edited text ----------------------------------------------------------------------------

  /** The buffer holds `text` from `start` on, and nothing after it has been typed. */
  predicate Agrees(k: Keys, start: nat, text: string) {
    k.Valid() && k.pos == start + |text| && k.buf[start..k.pos] == text
  }

  /** No backspace past the start of the line (unless it is the start of the buffer), no push into a full buffer. */
  predicate RegularKey(start: nat, text: string, c: char) {
    if c == BACKSPACE then text != "" || start == 0 else start + |text| < SIZE - 1
  }

  predicate Regular(start: nat, text: string, typed: string)
    decreases |typed|
  {
    typed == "" || (RegularKey(start, text, typed[0]) && Regular(start, Edit(text, typed[0]), typed[1..]))
  }

  lemma AgreesValid(k: Keys, start: nat, text: string)
    requires Agrees(k, start, text)
    ensures k.Valid()
  {
  }

  lemma PushAgrees(k: Keys, start: nat, text: string, c: char)
    requires Agrees(k, start, text)
    ensures Agrees(Push(k, c), start, Edit(text, c)) <==> RegularKey(start, text, c)
  {
    var k' := Push(k, c);
    if RegularKey(start, text, c) && !(c == BACKSPACE && text == "") {
      var t := Edit(text, c);
      assert |k'.buf[start..k'.pos]| == |t|;
      forall i | 0 <= i < |t|
        ensures k'.buf[start..k'.pos][i] == t[i]
      {
        assert i < |text| ==> k.buf[start..k.pos][i] == text[i];
      }
      assert k'.buf[start..k'.pos] == t;
    }
  }

  /** At every point of the run the buffer agrees with the edited text. */
  predicate AgreesThroughout(k: Keys, start: nat, text: string, typed: string)
    decreases |typed|
  {
    Agrees(k, start, text) &&
    (typed == "" || AgreesThroughout(Push(k, typed[0]), start, Edit(text, typed[0]), typed[1..]))
  }

  /** The buffer is the edited text at every point exactly in regular runs. */
  lemma {:induction false} RegularExact(k: Keys, start: nat, text: string, typed: string)
    requires Agrees(k, start, text)
    ensures AgreesThroughout(k, start, text, typed) <==> Regular(start, text, typed)
    decreases |typed|
  {
    if typed != "" {
      PushAgrees(k, start, text, typed[0]);
      if RegularKey(start, text, typed[0]) {
        RegularExact(Push(k, typed[0]), start, Edit(text, typed[0]), typed[1..]);
      }
    }
  }

  // ---- Reading a line -------------------------------------------------------------------------------

  /** The reader checks after every byte. */
  function Singles(scs: seq<nat>): seq<seq<nat>> {
    if scs == [] then [] else [[scs[0]]] + Singles(scs[1..])
  }

  /** The text before the first newline, if there is one. */
  function BeforeNewline(typed: string): Option<string> {
    if typed == "" then None
    else if typed[0] == '\n' then Some("")
    else
      match BeforeNewline(typed[1..])
      case None => None
      case Some(body) => Some([typed[0]] + body)
  }

  /** The part of a run the reader lives through: up to the first newline. */
  function Lived(typed: string): string {
    match BeforeNewline(typed)
    case None => typed
    case Some(body) => body + "\n"
  }

  lemma SingleStep(k: Keys, sc: nat)
    requires k.Valid()
    ensures HandleAll(k, [sc]) == Handle(k, sc)
  {
  }

  /** Typing one character other than a newline moves on in the run, the edited text and the reader's view of both. */
  lemma LivedCons(start: nat, text: string, c: char, typed: string)
    requires c != '\n'
    ensures Regular(start, text, Lived([c] + typed)) ==>
              RegularKey(start, text, c) && Regular(start, Edit(text, c), Lived(typed))
    ensures BeforeNewline([c] + typed) ==
            match BeforeNewline(typed) case None => None case Some(body) => Some([c] + body)
    ensures EditAll(text, [c] + typed) == EditAll(Edit(text, c), typed)
  {
    assert ([c] + typed)[1..] == typed;
    assert Lived([c] + typed) == [c] + Lived(typed);
    assert ([c] + Lived(typed))[1..] == Lived(typed);
  }

  /** The reader's check after a key that kept the buffer in agreement with the edited text. */
  lemma DoneAgrees(k: Keys, start: nat, text: string)
    requires Agrees(k, start, text)
    ensures Done(k, start) <==> text != "" && text[|text| - 1] == '\n'
  {
    if text != "" {
      assert k.buf[start..k.pos][|text| - 1] == k.buf[k.pos - 1];
    }
  }

  ghost predicate ReadOutcome(r: Await, start: nat, text: string, typed: string) {
    match BeforeNewline(typed)
    case None => r.Waiting? && Agrees(r.k, start, EditAll(text, typed))
    case Some(body) => r.Stopped? && Agrees(r.k, start, EditAll(text, body) + "\n")
  }

  lemma EditNewline(text: string, c: char, body: Option<string>)
    ensures body.Some? ==> EditAll(text, [c] + body.value) == EditAll(Edit(text, c), body.value)
  {
    if body.Some? {
      assert ([c] + body.value)[1..] == body.value;
    }
  }

  lemma ReadNothing(k: Keys, start: nat, text: string)
    requires Agrees(k, start, text)
    ensures ReadOutcome(Read(k, start, Singles([])), start, text, "")
  {
  }

  lemma AgreesShift(k: Keys, start: nat, text: string, shift: bool)
    requires Agrees(k, start, text)
    ensures Agrees(k.(shift := shift), start, text)
  {
  }

  lemma LivedNewline(start: nat, text: string, typed: string)
    requires Regular(start, text, Lived(['\n'] + typed))
    ensures BeforeNewline(['\n'] + typed) == Some("") && RegularKey(start, text, '\n')
  {
    assert Lived(['\n'] + typed) == "\n";
  }

  lemma TypedCons(shift: bool, sc: nat, rest: seq<nat>, c: char)
    requires Typed(shift, sc) == Some(c)
    ensures TypedBy(shift, [sc] + rest) == [c] + TypedBy(ShiftAfter(shift, sc), rest)
  {
    hide Typed, ShiftAfter;
    assert ([sc] + rest)[1..] == rest;
  }

  /** One typed character of a regular read: a newline ends it, anything else is edited in. */
  lemma ReadChar(k: Keys, start: nat, text: string, sc: nat, rest: seq<nat>, c: char)
    requires Agrees(k, start, text) && '\n' !in text && Typed(k.shift, sc) == Some(c)
    requires Regular(start, text, Lived(TypedBy(k.shift, [sc] + rest)))
    ensures var k' := Handle(k, sc);
            var typed := TypedBy(k'.shift, rest);
            && TypedBy(k.shift, [sc] + rest) == [c] + typed
            && Agrees(k', start, Edit(text, c))
            && Done(k', start) == (c == '\n')
            && (c == '\n' ==> BeforeNewline([c] + typed) == Some(""))
            && (c != '\n' ==>
                && '\n' !in Edit(text, c)
                && Regular(start, Edit(text, c), Lived(typed)))
  {
    hide Typed, TypedBy, Agrees, Done, Push, Regular, RegularKey, Lived, BeforeNewline;
    AgreesValid(k, start, text);
    TypedCons(k.shift, sc, rest, c);
    var k' := Handle(k, sc);
    var typed := TypedBy(k'.shift, rest);
    if c == '\n' {
      LivedNewline(start, text, typed);
    } else {
      LivedCons(start, text, c, typed);
    }
    PushAgrees(k, start, text, c);
    DoneAgrees(k', start, Edit(text, c));
  }

  /**
   In a regular read the reader stops at the first newline, with the backspace-edited text and that
   newline in the buffer; with no newline typed it is still waiting, with the text so far.
   */
  lemma {:induction false} ReadRegular(k: Keys, start: nat, text: string, scs: seq<nat>)
    requires Agrees(k, start, text) && '\n' !in text
    requires Regular(start, text, Lived(TypedBy(k.shift, scs)))
    ensures ReadOutcome(Read(k, start, Singles(scs)), start, text, TypedBy(k.shift, scs))
    decreases |scs|
  {
    hide Typed, ShiftAfter, Agrees, Done, Push;
    AgreesValid(k, start, text);
    if scs == [] {
      ReadNothing(k, start, text);
    } else {
      var sc, rest := scs[0], scs[1..];
      var k' := Handle(k, sc);
      SingleStep(k, sc);
      assert Singles(scs)[1..] == Singles(rest);
      match Typed(k.shift, sc)
      case None =>
        AgreesShift(k, start, text, ShiftAfter(k.shift, sc));
        DoneAgrees(k', start, text);
        ReadRegular(k', start, text, rest);
      case Some(c) =>
        ReadChar(k, start, text, sc, rest, c);
        if c != '\n' {
          LivedCons(start, text, c, TypedBy(k'.shift, rest));
          ReadRegular(k', start, Edit(text, c), rest);
          EditNewline(text, c, BeforeNewline(TypedBy(k'.shift, rest)));
        }
    }
  }

  /** The enter key is the one that types a newline, shifted or not. */
  const ENTER: nat := 28

  lemma NewlineKey(code: nat)
    ensures KeyChars(code).0 == '\n' <==> code == ENTER
    ensures KeyChars(code).1 == '\n' <==> code == ENTER
  {
  }

  lemma OnlyEnter(shift: bool, sc: nat)
    ensures Typed(shift, sc) == Some('\n') <==> sc == ENTER
  {
    hide KeyChars;
    NewlineKey(sc % 128);
  }

  /** A line and the enter key, typed into a regular read: everything is handled, and the reader stops at the end. */
  lemma {:induction false} ReadEntered(k: Keys, start: nat, text: string, scs: seq<nat>)
    requires Agrees(k, start, text) && '\n' !in text && '\n' !in TypedBy(k.shift, scs)
    requires Regular(start, text, TypedBy(k.shift, scs) + "\n")
    ensures Read(k, start, Singles(scs + [ENTER])) == Stopped(HandleAll(k, scs + [ENTER]))
    ensures Agrees(HandleAll(k, scs + [ENTER]), start, EditAll(text, TypedBy(k.shift, scs)) + "\n")
    decreases |scs|
  {
    hide Typed, ShiftAfter, Agrees, Done, Push, Regular;
    AgreesValid(k, start, text);
    if scs == [] {
      assert TypedBy(k.shift, scs) + "\n" == "\n" && scs + [ENTER] == [ENTER];
      EnterStops(k, start, text);
    } else {
      var sc, rest := scs[0], scs[1..];
      var k' := Handle(k, sc);
      SingleStep(k, sc);
      assert scs + [ENTER] == [sc] + (rest + [ENTER]);
      SinglesCons(sc, rest + [ENTER]);
      match Typed(k.shift, sc)
      case None =>
        AgreesShift(k, start, text, ShiftAfter(k.shift, sc));
        DoneAgrees(k', start, text);
        ReadEntered(k', start, text, rest);
      case Some(c) =>
        EnterChar(k, start, text, sc, rest, c);
        ReadEntered(k', start, Edit(text, c), rest);
    }
  }

  lemma SinglesCons(sc: nat, rest: seq<nat>)
    ensures Singles([sc] + rest) == [[sc]] + Singles(rest)
  {
    assert ([sc] + rest)[1..] == rest;
  }

  lemma EnterStops(k: Keys, start: nat, text: string)
    requires Agrees(k, start, text) && '\n' !in text && Regular(start, text, "\n")
    ensures Read(k, start, Singles([ENTER])) == Stopped(HandleAll(k, [ENTER]))
    ensures Agrees(HandleAll(k, [ENTER]), start, text + "\n")
  {
    hide Agrees, Done, Push, Typed;
    AgreesValid(k, start, text);
    OnlyEnter(k.shift, ENTER);
    SingleStep(k, ENTER);
    PushAgrees(k, start, text, '\n');
    DoneAgrees(Push(k, '\n'), start, text + "\n");
    assert Singles([ENTER]) == [[ENTER]];
  }

  /** A character typed before the enter key. */
  lemma EnterChar(k: Keys, start: nat, text: string, sc: nat, rest: seq<nat>, c: char)
    requires Agrees(k, start, text) && '\n' !in text && Typed(k.shift, sc) == Some(c)
    requires '\n' !in TypedBy(k.shift, [sc] + rest)
    requires Regular(start, text, TypedBy(k.shift, [sc] + rest) + "\n")
    ensures var k' := Handle(k, sc);
            var typed := TypedBy(k'.shift, rest);
            && TypedBy(k.shift, [sc] + rest) == [c] + typed
            && Agrees(k', start, Edit(text, c)) && !Done(k', start)
            && '\n' !in Edit(text, c) && '\n' !in typed
            && Regular(start, Edit(text, c), typed + "\n")
            && EditAll(text, [c] + typed) == EditAll(Edit(text, c), typed)
  {
    hide Typed, TypedBy, Agrees, Done, Push;
    AgreesValid(k, start, text);
    TypedCons(k.shift, sc, rest, c);
    var k' := Handle(k, sc);
    var typed := TypedBy(k'.shift, rest);
    assert ([c] + typed)[0] == c && ([c] + typed)[1..] == typed;
    assert ([c] + typed + "\n")[1..] == typed + "\n";
    PushAgrees(k, start, text, c);
    DoneAgrees(k', start, Edit(text, c));
  }

  lemma {:induction false} HandleAllShift(k: Keys, scs: seq<nat>)
    requires k.Valid()
    ensures HandleAll(k, scs).shift == ShiftAll(k.shift, scs)
    decreases |scs|
  {
    hide Handle;
    if scs != [] {
      HandleAllShift(Handle(k, scs[0]), scs[1..]);
    }
  }

  // ---- The line handed to the caller -------------------------------------------------------------------

  /** What `kbd_readline` copies out of the buffer, cut to `max - 1` characters. */
  function Line(k: Keys, start: nat, max: nat): string
    requires k.Valid() && start <= k.pos && 1 <= max
  {
    k.buf[start..start + (if k.pos - start >= max then max - 1 else k.pos - start)]
  }

  function Cut(text: string, n: nat): string {
    if |text| <= n then text else text[..n]
  }

  /** A regular read returns the edited text and its newline, cut to `max - 1` characters. */
  lemma LineIsText(k: Keys, start: nat, text: string, max: nat)
    requires Agrees(k, start, text) && text != "" && 2 <= max
    ensures Line(k, start, max) == Cut(text, max - 1)
    ensures LineLength(k.pos, start, max) == |Cut(text, max - 1)|
  {
    assert (k.pos - start) % SIZE_T_LIMIT == k.pos - start;
    forall i | 0 <= i < |Cut(text, max - 1)|
      ensures k.buf[start + i] == text[i]
    {
      assert k.buf[start..k.pos][i] == text[i];
    }
  }

  // ---- Irregular reads ------------------------------------------------------------------------------------

  /**
   After two empty lines, a backspace alone ends the next read: the reader sees the newline of an
   earlier line, and the returned length is the largest the caller allows although nothing was typed.
   */
  lemma IrregularRead(k: Keys, max: nat)
    requires k.Valid() && k.pos == 2 && k.buf[0] == '\n' && 2 <= max <= SIZE
    ensures Typed(k.shift, 14) == Some(BACKSPACE) && !RegularKey(2, "", BACKSPACE)
    ensures var r := Read(k, 2, Singles([14]));
            r.Stopped? && r.k.pos == 1 && LineLength(r.k.pos, 2, max) == max - 1
  {
    SingleStep(k, 14);
    assert KeyChars(14) == (BACKSPACE, BACKSPACE);
    LengthWraps(1, 2, max);
  }

  /** Such a state is reached from an empty buffer by pressing the enter key in two reads. */
  lemma IrregularReached(shift: bool, max: nat)
    requires 2 <= max <= SIZE
    ensures var empty := Keys(seq(SIZE, _ => '\0'), 0, shift);
            var first := Read(empty, 0, Singles([ENTER]));
            var second := Read(first.k, first.k.pos, Singles([ENTER]));
            var third := Read(second.k, second.k.pos, Singles([14]));
            && first.Stopped? && second.Stopped? && third.Stopped?
            && second.k.pos == 2 && third.k.pos == 1
            && LineLength(third.k.pos, second.k.pos, max) == max - 1
  {
    hide Read, HandleAll, Handle, Typed, KeyChars, LineLength, Agrees, Regular;
    var empty := Keys(seq(SIZE, _ => '\0'), 0, shift);
    var one := EmptyLine(empty);
    var two := EmptyLine(one);
    IrregularRead(two, max);
  }

  /** The enter key alone, at a position where the next character is not the last. */
  lemma EmptyLine(k: Keys) returns (r: Keys)
    requires k.Valid() && k.pos < SIZE - 1
    ensures Read(k, k.pos, Singles([ENTER])) == Stopped(r)
    ensures r.Valid() && r.shift == k.shift && r.pos == k.pos + 1 && r.buf == k.buf[k.pos := '\n']
  {
    hide Read, HandleAll, Typed, KeyChars;
    OnlyEnter(k.shift, ENTER);
    SingleStep(k, ENTER);
    EnterStops(k, k.pos, "");
    r := Handle(k, ENTER);
  }

  // ---- What typed text can contain ------------------------------------------------------------------------

  lemma {:induction false} TypedNoZero(shift: bool, scs: seq<nat>)
    ensures '\0' !in TypedBy(shift, scs)
    decreases |scs|
  {
    hide KeyChar;
    if scs != [] {
      TypedNoZero(ShiftAfter(shift, scs[0]), scs[1..]);
    }
  }

  /** Editing invents no characters, and no backspace survives it. */
  lemma {:induction false} EditAllFrom(text: string, typed: string, c: char)
    requires c !in text && (c == BACKSPACE || c !in typed)
    ensures c !in EditAll(text, typed)
    decreases |typed|
  {
    if typed != "" {
      EditAllFrom(Edit(text, typed[0]), typed[1..], c);
    }
  }

  lemma {:induction false} BeforeNewlineFrom(typed: string, c: char)
    requires BeforeNewline(typed).Some? && (c == '\n' || c !in typed)
    ensures c !in BeforeNewline(typed).value
    decreases |typed|
  {
    if typed[0] != '\n' {
      BeforeNewlineFrom(typed[1..], c);
    }
  }

  /** The line of a regular read has no terminator, no newline and no backspace in it. */
  lemma LineClean(shift: bool, scs: seq<nat>)
    requires BeforeNewline(TypedBy(shift, scs)).Some?
    ensures var line := EditAll("", BeforeNewline(TypedBy(shift, scs)).value);
            '\0' !in line && '\n' !in line && BACKSPACE !in line
  {
    var typed := TypedBy(shift, scs);
    var body := BeforeNewline(typed).value;
    TypedNoZero(shift, scs);
    BeforeNewlineFrom(typed, '\0');
    BeforeNewlineFrom(typed, '\n');
    EditAllFrom("", body, '\0');
    EditAllFrom("", body, '\n');
    EditAllFrom("", body, BACKSPACE);
  }
}
