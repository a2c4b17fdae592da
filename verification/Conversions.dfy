/** What each conversion of `kvprintf` prints, read back from the text: the numbers, strings and colours themselves. */
module Conversions {
  import opened Formats
  import opened Numbers
  import opened Options
  import opened Screens

  /** A format without percent signs is printed as it stands. */
  lemma {:induction false} PlainFormat(msg: string, args: seq<Arg>, color: nat)
    requires '%' !in msg
    ensures Format(msg, args, color) == Some(Output(Puts(msg, color), color, args))
    ensures Complete(msg)
    decreases |msg|
  {
    if msg != "" {
      PlainFormat(msg[1..], args, color);
      assert Puts(msg[..1], color) + Puts(msg[1..], color) == Puts(msg, color);
    }
  }

  // ---- One conversion ------------------------------------------------------------------------------

  /** A format that is a single piece. */
  lemma OnePiece(msg: string, args: seq<Arg>, color: nat, p: Piece)
    requires msg != "" && First(msg, args, color) == Some(p) && p.used == |msg|
    ensures Format(msg, args, color) == Some(Output(p.events, p.color, p.args))
  {
    hide First;
    assert msg[|msg|..] == "";
    assert Format("", p.args, p.color) == Some(Output([], p.color, p.args));
    assert p.events + [] == p.events;
  }

  /** "%u" and "%lu" print the decimal numeral of their argument. */
  lemma UnsignedReads(n: nat, args: seq<Arg>, color: nat) returns (t: string)
    ensures Format("%u", [UInt(n)] + args, color) == Some(Output(Puts(t, color), color, args))
    ensures Format("%lu", [ULong(n)] + args, color) == Some(Output(Puts(t, color), color, args))
    ensures IsNumeral(t, n, 10)
  {
    hide Puts, UintText, IsNumeral, Format;
    t := UintText(n, 10);
    UintTextReads(n, 10);
    OnePiece("%u", [UInt(n)] + args, color, Piece(Puts(t, color), color, args, 2));
    OnePiece("%lu", [ULong(n)] + args, color, Piece(Puts(t, color), color, args, 3));
  }

  /** "%X" prints the hexadecimal numeral of its argument. */
  lemma HexReads(n: nat, args: seq<Arg>, color: nat) returns (t: string)
    ensures Format("%X", [ULong(n)] + args, color) == Some(Output(Puts(t, color), color, args))
    ensures IsNumeral(t, n, 16)
  {
    hide Puts, UintText, IsNumeral, Format;
    t := UintText(n, 16);
    UintTextReads(n, 16);
    OnePiece("%X", [ULong(n)] + args, color, Piece(Puts(t, color), color, args, 2));
  }

  /** "%d" and "%ld" print their argument: its numeral, or a minus sign and the numeral of the magnitude. */
  lemma SignedReads(i: int, args: seq<Arg>, color: nat) returns (t: string)
    ensures Format("%d", [Int(i)] + args, color) == Some(Output(Puts(t, color), color, args))
    ensures Format("%ld", [Long(i)] + args, color) == Some(Output(Puts(t, color), color, args))
    ensures Parse(t) == i
    ensures if i >= 0 then IsNumeral(t, i, 10) else t != "" && t[0] == '-' && IsNumeral(t[1..], -i, 10)
  {
    hide Puts, IntText, IsNumeral, Format, Parse;
    t := IntText(i, 10);
    ParseIntText(i);
    IntTextReads(i);
    OnePiece("%d", [Int(i)] + args, color, Piece(Puts(t, color), color, args, 2));
    OnePiece("%ld", [Long(i)] + args, color, Piece(Puts(t, color), color, args, 3));
  }

  /** "%s" prints its string, "%c" its character, and "%k" nothing: it sets the colour. */
  lemma TextReads(s: string, i: int, args: seq<Arg>, color: nat)
    ensures Format("%s", [Str(s)] + args, color) == Some(Output(Puts(s, color), color, args))
    ensures Format("%c", [Int(i)] + args, color) == Some(Output(Puts([(i % 256) as char], color), color, args))
    ensures Format("%k", [Int(i)] + args, color) == Some(Output([], i % 256, args))
  {
    hide Puts, Format;
    OnePiece("%s", [Str(s)] + args, color, Piece(Puts(s, color), color, args, 2));
    OnePiece("%c", [Int(i)] + args, color, Piece(Puts([(i % 256) as char], color), color, args, 2));
    OnePiece("%k", [Int(i)] + args, color, Piece([], i % 256, args, 2));
  }

  /** Any other character is printed after its percent sign, and a percent sign at the end prints nothing. */
  lemma OtherReads(c: char, args: seq<Arg>, color: nat)
    ensures c !in "ducsXkl" ==> Format(['%', c], args, color) == Some(Output(Puts(['%', c], color), color, args))
    ensures c !in "du" ==> Format(['%', 'l', c], args, color) == Some(Output(Puts(['%', 'l', c], color), color, args))
    ensures Format("%", args, color) == Some(Output([], color, args))
  {
    hide Puts, Format;
    if c !in "ducsXkl" {
      OnePiece(['%', c], args, color, Piece(Puts(['%', c], color), color, args, 2));
    }
    if c !in "du" {
      OnePiece(['%', 'l', c], args, color, Piece(Puts(['%', 'l', c], color), color, args, 3));
    }
    PutsEmpty(color);
    OnePiece("%", args, color, Piece([], color, args, 1));
  }

  lemma PutsEmpty(color: nat)
    ensures Puts("", color) == []
  {
  }

  // ---- Whole formats ---------------------------------------------------------------------------------

  lemma PutsAppend(a: string, b: string, color: nat)
    ensures Puts(a + b, color) == Puts(a, color) + Puts(b, color)
  {
  }

  /** Plain text in front of a format. */
  lemma TextThen(head: string, msg: string, args: seq<Arg>, color: nat, out: string)
    requires '%' !in head && Format(msg, args, color) == Some(Output(Puts(out, color), color, []))
    ensures Format(head + msg, args, color) == Some(Output(Puts(head + out, color), color, []))
  {
    hide Puts, Format, Complete;
    PlainFormat(head, args, color);
    FormatAppend(head, msg, args, color);
    PutsAppend(head, out, color);
  }

  /** A "%lu" in front of a format. */
  lemma NumberThen(n: nat, msg: string, args: seq<Arg>, color: nat, out: string) returns (t: string)
    requires Format(msg, args, color) == Some(Output(Puts(out, color), color, []))
    ensures Format("%lu" + msg, [ULong(n)] + args, color) == Some(Output(Puts(t + out, color), color, []))
    ensures IsNumeral(t, n, 10)
  {
    hide Puts, Format, IsNumeral;
    t := UnsignedReads(n, args, color);
    LongComplete();
    FormatAppend("%lu", msg, [ULong(n)] + args, color);
    PutsAppend(t, out, color);
  }

  lemma LongComplete()
    ensures Complete("%lu")
  {
    assert "%lu"[3..] == "";
  }

  /** The line of the uptime command: hours, minutes and seconds, which make up the time that was counted. */
  lemma UptimeLine(seconds: nat, color: nat) returns (h: string, m: string, s: string)
    ensures Format("up %lu:%lu:%lu\n",
                   [ULong(seconds / 3600), ULong(seconds / 60 % 60), ULong(seconds % 60)], color) ==
            Some(Output(Puts("up " + h + ":" + m + ":" + s + "\n", color), color, []))
    ensures IsNumeral(h, seconds / 3600, 10) && IsNumeral(m, seconds / 60 % 60, 10) && IsNumeral(s, seconds % 60, 10)
    ensures Eval(m, 10) < 60 && Eval(s, 10) < 60
    ensures 3600 * Eval(h, 10) + 60 * Eval(m, 10) + Eval(s, 10) == seconds
  {
    hide Puts, Format, Eval, IsDigit, Complete;
    var hs, ms, ss := ULong(seconds / 3600), ULong(seconds / 60 % 60), ULong(seconds % 60);
    assert "%lu" + "\n" == "%lu\n" && ":" + "%lu\n" == ":%lu\n";
    assert "%lu" + ":%lu\n" == "%lu:%lu\n" && ":" + "%lu:%lu\n" == ":%lu:%lu\n";
    assert "%lu" + ":%lu:%lu\n" == "%lu:%lu:%lu\n" && "up " + "%lu:%lu:%lu\n" == "up %lu:%lu:%lu\n";
    assert [ss] + [] == [ss] && [ms] + [ss] == [ms, ss] && [hs] + [ms, ss] == [hs, ms, ss];
    PlainFormat("\n", [], color);
    s := NumberThen(seconds % 60, "\n", [], color, "\n");
    TextThen(":", "%lu\n", [ss], color, s + "\n");
    m := NumberThen(seconds / 60 % 60, ":%lu\n", [ss], color, ":" + (s + "\n"));
    TextThen(":", "%lu:%lu\n", [ms, ss], color, m + (":" + (s + "\n")));
    h := NumberThen(seconds / 3600, ":%lu:%lu\n", [ms, ss], color, ":" + (m + (":" + (s + "\n"))));
    TextThen("up ", "%lu:%lu:%lu\n", [hs, ms, ss], color, h + (":" + (m + (":" + (s + "\n")))));
    assert "up " + (h + (":" + (m + (":" + (s + "\n"))))) == "up " + h + ":" + m + ":" + s + "\n";
  }

  /** The heading of a kernel panic: the text is printed in the colour of the argument, which stays. */
  lemma PanicHeading(panic: nat, color: nat)
    requires panic < 256
    ensures Format("%kKernel panic!\n\t", [Int(panic)], color) ==
            Some(Output(Puts("Kernel panic!\n\t", panic), panic, []))
  {
    hide Puts, Format, Complete;
    var text := "Kernel panic!\n\t";
    TextReads("", panic, [], color);
    ColorComplete();
    FormatAppend("%k", text, [Int(panic)], color);
    PlainFormat(text, [], panic);
    assert [Int(panic)] + [] == [Int(panic)] && "%k" + text == "%kKernel panic!\n\t";
    assert [] + Puts(text, panic) == Puts(text, panic);
  }

  lemma ColorComplete()
    ensures Complete("%k")
  {
    assert "%k"[2..] == "";
  }

  lemma FirstString(name: string, tail: string, color: nat)
    requires '%' !in tail
    ensures Format("%s" + tail, [Str(name)], color) ==
            Some(Output(Puts(name, color) + Puts(tail, color), color, []))
  {
    var mid := "%s" + tail;
    PlainFormat(tail, [], color);
    assert mid[2..] == tail && [Str(name)][1..] == [];
    var p := Piece(Puts(name, color), color, [], 2);
    assert First(mid, [Str(name)], color) == Some(p);
    hide First, Puts, Complete;
    assert mid != "";
    assert Format(mid, [Str(name)], color) == Then(p, Format(tail, [], color));
  }

  /** A format with one "%s" and no other specifier. */
  lemma StringFormat(head: string, name: string, tail: string, color: nat)
    requires '%' !in head && '%' !in tail
    ensures Format(head + ("%s" + tail), [Str(name)], color) ==
            Some(Output(Puts(head + name + tail, color), color, []))
  {
    assert Puts(head, color) + (Puts(name, color) + Puts(tail, color)) == Puts(head + name + tail, color);
    hide First, Puts, Complete, Format;
    PlainFormat(head, [Str(name)], color);
    FirstString(name, tail, color);
    FormatAppend(head, "%s" + tail, [Str(name)], color);
  }
}
