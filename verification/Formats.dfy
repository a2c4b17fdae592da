/** What `kvprintf` prints: a format interpreted piece by piece, with the text colour carried along. */
module Formats {
  import opened Numbers
  import opened Options
  import opened Screens

  /** The arguments `va_arg` can fetch, by their C type. */
  datatype Arg =
    | Int(i: int)
    | UInt(u: nat)
    | Long(l: int)
    | ULong(n: nat)
    | Str(s: string)

  predicate IsArg(a: Arg) {
    match a
    case Int(i) => -0x8000_0000 <= i < 0x8000_0000
    case UInt(u) => u < 0x1_0000_0000
    case Long(l) => -INT64_LIMIT <= l < INT64_LIMIT
    case ULong(n) => n < UINT64_LIMIT
    case Str(s) => '\0' !in s
  }

  /** One piece of a format: what it prints, the colour and arguments it leaves, the characters it uses. */
  datatype Piece = Piece(events: seq<Event>, color: nat, args: seq<Arg>, used: nat)

  datatype Output = Output(events: seq<Event>, color: nat, args: seq<Arg>)

  function Text(s: string, color: nat, args: seq<Arg>, used: nat): Option<Piece> {
    Some(Piece(Puts(s, color), color, args, used))
  }

  /**
   The first piece of a format.  `None` is undefined behaviour in C: a missing argument or one of
   another type, and a format that ends in "%l".
   */
  function First(msg: string, args: seq<Arg>, color: nat): (p: Option<Piece>)
    requires msg != ""
    ensures p.Some? ==> 1 <= p.value.used <= |msg|
  {
    if msg[0] != '%' then Text(msg[..1], color, args, 1)
    else if |msg| == 1 then Text("", color, args, 1)
    else if msg[1] == 'l' then
      if |msg| == 2 then None else LongPiece(msg[2], args, color)
    else Directive(msg[1], args, color)
  }

  function Directive(c: char, args: seq<Arg>, color: nat): (p: Option<Piece>)
    ensures p.Some? ==> p.value.used == 2
  {
    if c == 'd' then
      if args != [] && args[0].Int? then Text(IntText(args[0].i, 10), color, args[1..], 2) else None
    else if c == 'u' then
      if args != [] && args[0].UInt? then Text(UintText(args[0].u, 10), color, args[1..], 2) else None
    else if c == 'c' then
      if args != [] && args[0].Int? then Text([(args[0].i % 256) as char], color, args[1..], 2) else None
    else if c == 's' then
      if args != [] && args[0].Str? then Text(args[0].s, color, args[1..], 2) else None
    else if c == 'X' then
      if args != [] && args[0].ULong? then Text(UintText(args[0].n, 16), color, args[1..], 2) else None
    else if c == 'k' then
      if args != [] && args[0].Int? then Some(Piece([], args[0].i % 256, args[1..], 2)) else None
    else
      Text(['%', c], color, args, 2)
  }

  function LongPiece(c: char, args: seq<Arg>, color: nat): (p: Option<Piece>)
    ensures p.Some? ==> p.value.used == 3
  {
    if c == 'd' then
      if args != [] && args[0].Long? then Text(IntText(args[0].l, 10), color, args[1..], 3) else None
    else if c == 'u' then
      if args != [] && args[0].ULong? then Text(UintText(args[0].n, 10), color, args[1..], 3) else None
    else
      Text(['%', 'l', c], color, args, 3)
  }

  function Format(msg: string, args: seq<Arg>, color: nat): Option<Output>
    decreases |msg|
  {
    if msg == "" then Some(Output([], color, args)) else
    match First(msg, args, color)
    case None => None
    case Some(p) => Then(p, Format(msg[p.used..], p.args, p.color))
  }

  function Then(p: Piece, rest: Option<Output>): Option<Output> {
    match rest
    case None => None
    case Some(o) => Some(Output(p.events + o.events, o.color, o.args))
  }

  // ---- Composition -------------------------------------------------------------------------------

  /** The number of characters the first piece uses, or none if the format ends inside it. */
  function Width(msg: string): (w: Option<nat>)
    requires msg != ""
    ensures w.Some? ==> 1 <= w.value <= |msg|
  {
    if msg[0] != '%' then Some(1)
    else if |msg| == 1 then None
    else if msg[1] != 'l' then Some(2)
    else if |msg| == 2 then None
    else Some(3)
  }

  /** The format ends outside a specifier. */
  predicate Complete(msg: string)
    decreases |msg|
  {
    msg == "" || (Width(msg).Some? && Complete(msg[Width(msg).value..]))
  }

  lemma FirstAppend(a: string, b: string, args: seq<Arg>, color: nat)
    requires a != "" && Width(a).Some?
    ensures First(a + b, args, color) == First(a, args, color)
    ensures First(a, args, color).Some? ==> First(a, args, color).value.used == Width(a).value
  {
    assert (a + b)[..1] == a[..1];
  }

  /** Formatting `a` and then `b` with what `a` leaves over. */
  function Compose(first: Option<Output>, b: string): Option<Output> {
    match first
    case None => None
    case Some(o) =>
      match Format(b, o.args, o.color)
      case None => None
      case Some(q) => Some(Output(o.events + q.events, q.color, q.args))
  }

  /** A format that ends outside a specifier composes with any other: colour and arguments carry over. */
  lemma {:induction false} FormatAppend(a: string, b: string, args: seq<Arg>, color: nat)
    requires Complete(a)
    ensures Format(a + b, args, color) == Compose(Format(a, args, color), b)
    decreases |a|
  {
    if a == "" {
      assert a + b == b;
      if Format(b, args, color).Some? {
        assert [] + Format(b, args, color).value.events == Format(b, args, color).value.events;
      }
    } else {
      hide First, Width, Puts;
      FirstAppend(a, b, args, color);
      match First(a, args, color)
      case None =>
        assert a + b != "";
      case Some(p) =>
        assert (a + b)[p.used..] == a[p.used..] + b;
        FormatAppend(a[p.used..], b, p.args, p.color);
        ThenCompose(p, Format(a[p.used..], p.args, p.color), b);
        assert a + b != "";
    }
  }

  lemma ThenCompose(p: Piece, o: Option<Output>, b: string)
    ensures Then(p, Compose(o, b)) == Compose(Then(p, o), b)
  {
    if o.Some? {
      var q := Format(b, o.value.args, o.value.color);
      if q.Some? {
        assert p.events + (o.value.events + q.value.events) == p.events + o.value.events + q.value.events;
      }
    }
  }

  /** The number of specifiers that take an argument. */
  function Specifiers(msg: string): nat
    decreases |msg|
  {
    if msg == "" || Width(msg).None? then 0 else
    var w := Width(msg).value;
    var here := if (w == 2 && msg[1] in "ducsXk") || (w == 3 && msg[2] in "du") then 1 else 0;
    here + Specifiers(msg[w..])
  }

  /** Each recognised specifier takes exactly one argument, in order; nothing else takes any. */
  lemma {:induction false} FormatArgs(msg: string, args: seq<Arg>, color: nat)
    requires Format(msg, args, color).Some?
    ensures Specifiers(msg) <= |args|
    ensures Format(msg, args, color).value.args == args[Specifiers(msg)..]
    decreases |msg|
  {
    if msg != "" {
      var p := First(msg, args, color).value;
      if Width(msg).Some? {
        FirstArgs(msg, args, color);
        FormatArgs(msg[p.used..], p.args, p.color);
      } else {
        assert msg[p.used..] == "";
      }
    }
  }

  lemma FirstArgs(msg: string, args: seq<Arg>, color: nat)
    requires msg != "" && Width(msg).Some? && First(msg, args, color).Some?
    ensures var p := First(msg, args, color).value;
            var w := Width(msg).value;
            var here := if (w == 2 && msg[1] in "ducsXk") || (w == 3 && msg[2] in "du") then 1 else 0;
            p.used == w && here <= |args| && p.args == args[here..]
  {
    hide Puts, IntText, UintText;
  }

  /** A format that ends inside a specifier does not compose: what follows is read as part of it. */
  lemma {:induction false} FormatCut(a: string, args: seq<Arg>, color: nat)
    requires !Complete(a) && Format(a + "%", args, color).Some?
    ensures Format(a + "%", args, color) != Compose(Format(a, args, color), "%")
    decreases |a|
  {
    if Width(a).Some? {
      hide First, Width, Puts;
      FirstAppend(a, "%", args, color);
      assert a + "%" != "";
      var p := First(a, args, color).value;
      assert (a + "%")[p.used..] == a[p.used..] + "%";
      FormatCut(a[p.used..], p.args, p.color);
      ThenCompose(p, Format(a[p.used..], p.args, p.color), "%");
      ThenInjective(p, Format(a[p.used..] + "%", p.args, p.color), Compose(Format(a[p.used..], p.args, p.color), "%"));
    } else if |a| == 1 {
      CutEvents(a, args, color);
    } else {
      assert Format(a, args, color) == None;
    }
  }

  lemma ThenInjective(p: Piece, x: Option<Output>, y: Option<Output>)
    ensures Then(p, x) == Then(p, y) ==> x == y
  {
    if x.Some? && y.Some? {
      assert (p.events + x.value.events)[|p.events|..] == x.value.events;
      assert (p.events + y.value.events)[|p.events|..] == y.value.events;
    }
  }

  lemma CutEvents(a: string, args: seq<Arg>, color: nat)
    requires a == "%"
    ensures Format(a, args, color) == Some(Output([], color, args))
    ensures Format(a + "%", args, color).Some? && |Format(a + "%", args, color).value.events| == 2
  {
    assert a[1..] == "" && Puts("", color) == [];
    var p := Piece([], color, args, 1);
    assert First(a, args, color) == Some(p);
    assert Format("", args, color) == Some(Output([], color, args));
    assert p.events + [] == [];
    assert Format(a, args, color) == Then(p, Format("", args, color));
    assert (a + "%")[2..] == "" && (a + "%")[1] == '%';
  }
}
