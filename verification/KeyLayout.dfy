/** The keyboard as its user sees it: which key types which character, and what the shift keys do. */
module KeyLayout {
  import opened Editing
  import opened KeyBuffers
  import opened Options

  /** A code with an entry in the tables types it. */
  lemma Types(code: nat)
    requires code < 58 && code != 0x2A && code != 0x36
    ensures KeyChars(code).0 != '\0' ==> Typed(false, code) == Some(KeyChars(code).0)
    ensures KeyChars(code).1 != '\0' ==> Typed(true, code) == Some(KeyChars(code).1)
  {
    hide KeyChars;
    assert code % 128 == code;
  }

  lemma DigitFacts()
    ensures KeyChars(1) == (27 as char, 27 as char)
    ensures KeyChars(2) == ('1', '!')
    ensures KeyChars(3) == ('2', '@')
    ensures KeyChars(4) == ('3', '#')
    ensures KeyChars(5) == ('4', '$')
    ensures KeyChars(6) == ('5', '%')
    ensures KeyChars(7) == ('6', '^')
    ensures KeyChars(8) == ('7', '&')
    ensures KeyChars(9) == ('8', '*')
    ensures KeyChars(10) == ('9', '(')
    ensures KeyChars(11) == ('0', ')')
    ensures KeyChars(12) == ('-', '_')
    ensures KeyChars(13) == ('=', '+')
  {
  }

  /** The digits, after escape. */
  lemma DigitRow(i: nat)
    requires i < 13
    ensures Typed(false, 1 + i) == Some(([27 as char] + "1234567890-=")[i])
    ensures Typed(true, 1 + i) == Some(([27 as char] + "!@#$%^&*()_+")[i])
  {
    hide KeyChars, Typed;
    DigitFacts();
    Types(1 + i);
    match i
    case 0 =>
    case 1 =>
    case 2 =>
    case 3 =>
    case 4 =>
    case 5 =>
    case 6 =>
    case 7 =>
    case 8 =>
    case 9 =>
    case 10 =>
    case 11 =>
    case _ =>
  }

  lemma TopFacts()
    ensures KeyChars(16) == ('q', 'Q')
    ensures KeyChars(17) == ('w', 'W')
    ensures KeyChars(18) == ('e', 'E')
    ensures KeyChars(19) == ('r', 'R')
    ensures KeyChars(20) == ('t', 'T')
    ensures KeyChars(21) == ('y', 'Y')
    ensures KeyChars(22) == ('u', 'U')
    ensures KeyChars(23) == ('i', 'I')
    ensures KeyChars(24) == ('o', 'O')
    ensures KeyChars(25) == ('p', 'P')
    ensures KeyChars(26) == ('[', '{')
    ensures KeyChars(27) == (']', '}')
    ensures KeyChars(28) == ('\n', '\n')
  {
  }

  /** The top letter row, with enter at its end. */
  lemma TopRow(i: nat)
    requires i < 13
    ensures Typed(false, 16 + i) == Some(("qwertyuiop[]\n")[i])
    ensures Typed(true, 16 + i) == Some(("QWERTYUIOP{}\n")[i])
  {
    hide KeyChars, Typed;
    TopFacts();
    Types(16 + i);
    match i
    case 0 =>
    case 1 =>
    case 2 =>
    case 3 =>
    case 4 =>
    case 5 =>
    case 6 =>
    case 7 =>
    case 8 =>
    case 9 =>
    case 10 =>
    case 11 =>
    case _ =>
  }

  lemma HomeFacts()
    ensures KeyChars(30) == ('a', 'A')
    ensures KeyChars(31) == ('s', 'S')
    ensures KeyChars(32) == ('d', 'D')
    ensures KeyChars(33) == ('f', 'F')
    ensures KeyChars(34) == ('g', 'G')
    ensures KeyChars(35) == ('h', 'H')
    ensures KeyChars(36) == ('j', 'J')
    ensures KeyChars(37) == ('k', 'K')
    ensures KeyChars(38) == ('l', 'L')
    ensures KeyChars(39) == (';', ':')
    ensures KeyChars(40) == ('\'', '\"')
    ensures KeyChars(41) == ('`', '~')
  {
  }

  /** The home row. */
  lemma HomeRow(i: nat)
    requires i < 12
    ensures Typed(false, 30 + i) == Some(("asdfghjkl;'`")[i])
    ensures Typed(true, 30 + i) == Some(("ASDFGHJKL:\"~")[i])
  {
    hide KeyChars, Typed;
    HomeFacts();
    Types(30 + i);
    match i
    case 0 =>
    case 1 =>
    case 2 =>
    case 3 =>
    case 4 =>
    case 5 =>
    case 6 =>
    case 7 =>
    case 8 =>
    case 9 =>
    case 10 =>
    case _ =>
  }

  lemma BottomFacts()
    ensures KeyChars(43) == ('\\', '|')
    ensures KeyChars(44) == ('z', 'Z')
    ensures KeyChars(45) == ('x', 'X')
    ensures KeyChars(46) == ('c', 'C')
    ensures KeyChars(47) == ('v', 'V')
    ensures KeyChars(48) == ('b', 'B')
    ensures KeyChars(49) == ('n', 'N')
    ensures KeyChars(50) == ('m', 'M')
    ensures KeyChars(51) == (',', '<')
    ensures KeyChars(52) == ('.', '>')
    ensures KeyChars(53) == ('/', '?')
  {
  }

  /** The bottom row, after the backslash. */
  lemma BottomRow(i: nat)
    requires i < 11
    ensures Typed(false, 43 + i) == Some(("\\zxcvbnm,./")[i])
    ensures Typed(true, 43 + i) == Some(("|ZXCVBNM<>?")[i])
  {
    hide KeyChars, Typed;
    BottomFacts();
    Types(43 + i);
    match i
    case 0 =>
    case 1 =>
    case 2 =>
    case 3 =>
    case 4 =>
    case 5 =>
    case 6 =>
    case 7 =>
    case 8 =>
    case 9 =>
    case _ =>
  }

  /** Backspace and tab, the keypad star and the space bar type the same with and without shift. */
  lemma SingleKeys(shift: bool)
    ensures Typed(shift, 14) == Some(8 as char) && Typed(shift, 15) == Some('\t')
    ensures Typed(shift, 55) == Some('*') && Typed(shift, 57) == Some(' ')
  {
  }

  /** Every other byte types nothing: the two shift keys, control, alt, the keys from 58 on, and all releases. */
  lemma SilentKeys(shift: bool, sc: nat)
    requires sc in [0, 29, 42, 54, 56] || 58 <= sc
    ensures Typed(shift, sc) == None
  {
  }

  /** A key that types a letter types the same letter in both cases, the capital with shift. */
  lemma LetterCase(sc: nat, c: char)
    requires Typed(false, sc) == Some(c) && 'a' <= c <= 'z'
    ensures Typed(true, sc) == Some((c as int - 32) as char)
  {
  }

  // ---- The shift keys ---------------------------------------------------------------------------------

  /** The characters of keys pressed while the shift state does not change. */
  function EachKey(shift: bool, scs: seq<nat>): string {
    if scs == [] then "" else
    (match Typed(shift, scs[0]) case None => "" case Some(c) => [c]) + EachKey(shift, scs[1..])
  }

  /** No byte of either shift key, pressed or released. */
  predicate NoShiftKeys(scs: seq<nat>) {
    forall i :: 0 <= i < |scs| ==> scs[i] % 128 != 0x2A && scs[i] % 128 != 0x36
  }

  lemma {:induction false} ShiftStays(shift: bool, scs: seq<nat>)
    requires NoShiftKeys(scs)
    ensures TypedBy(shift, scs) == EachKey(shift, scs) && ShiftAll(shift, scs) == shift
    decreases |scs|
  {
    hide Typed;
    if scs != [] {
      ShiftStays(shift, scs[1..]);
    }
  }

  lemma ShiftKey(shift: bool, sc: nat)
    requires sc in [0x2A, 0x36, 0xAA, 0xB6]
    ensures TypedBy(shift, [sc]) == "" && ShiftAll(shift, [sc]) == (sc < 128)
  {
    hide KeyChar;
    assert [sc][1..] == [];
  }

  /** From the press of a shift key to its release every key types its shifted character, and none after it. */
  lemma ShiftHeld(shift: bool, press: nat, scs: seq<nat>, release: nat, after: seq<nat>)
    requires press in [0x2A, 0x36] && release in [0xAA, 0xB6] && NoShiftKeys(scs) && NoShiftKeys(after)
    ensures TypedBy(shift, [press] + scs + [release] + after) == EachKey(true, scs) + EachKey(false, after)
  {
    hide TypedBy, EachKey, ShiftAll, NoShiftKeys;
    ShiftKey(shift, press);
    ShiftStays(true, scs);
    ShiftKey(true, release);
    ShiftStays(false, after);
    TypedAppend(true, scs, [release] + after);
    TypedAppend(true, [release], after);
    TypedAppend(shift, [press], scs + ([release] + after));
    assert [press] + scs + [release] + after == [press] + (scs + ([release] + after));
  }

  lemma EachCons(sc: nat, rest: seq<nat>, c: char)
    requires Typed(false, sc) == Some(c)
    ensures EachKey(false, [sc] + rest) == [c] + EachKey(false, rest)
  {
    hide Typed;
    assert ([sc] + rest)[1..] == rest;
  }

  lemma FourKeys()
    ensures Typed(false, 18) == Some('e') && Typed(false, 46) == Some('c')
    ensures Typed(false, 35) == Some('h') && Typed(false, 24) == Some('o')
  {
    hide Typed;
    TopRow(2);
    BottomRow(3);
    HomeRow(5);
    TopRow(8);
  }

  /** The keys e, c, h and o. */
  lemma EchoKeys()
    ensures TypedBy(false, [18, 46, 35, 24]) == "echo"
  {
    hide Typed, EachKey, TypedBy;
    FourKeys();
    ShiftStays(false, [18, 46, 35, 24]);
    EachNone();
    EachCons(24, [], 'o');
    EachCons(35, [24], 'h');
    EachCons(46, [35, 24], 'c');
    EachCons(18, [46, 35, 24], 'e');
    assert [18] + [46, 35, 24] == [18, 46, 35, 24] && [46] + [35, 24] == [46, 35, 24];
    assert [35] + [24] == [35, 24] && [24] + [] == [24];
  }

  lemma EachNone()
    ensures EachKey(false, []) == ""
  {
  }
}
