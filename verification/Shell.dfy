/** The shell of kernel/ksh/ksh.c: reading a command line and dispatching it. */
module Shell {
  import opened CStrings
  import opened Conversions
  import opened Display
  import opened Echo
  import opened Editing
  import opened Formats
  import opened Framebuffer
  import opened KeyBuffers
  import opened KeyLayout
  import opened Keyboard
  import opened Numbers
  import opened Options
  import opened Printing
  import opened Screens

  /** The names `ksh_populate_base_cmds` registers, in table order. */
  const BASE_COMMANDS: seq<string> := ["uptime", "cpuid", "clear", "uname", "panic", "echo", "help"]

  /** `ksh_populate_base_cmds`, as far as dispatch sees it: the names, written into the table in place. */
  method PopulateBaseCommands(table: array<string>)
    requires table.Length == 7
    modifies table
    ensures table[..] == ["uptime", "cpuid", "clear", "uname", "panic", "echo", "help"] == BASE_COMMANDS
  {
    table[0] := "uptime";
    table[1] := "cpuid";
    table[2] := "clear";
    table[3] := "uname";
    table[4] := "panic";
    table[5] := "echo";
    table[6] := "help";
  }

  // ---- What a command line means --------------------------------------------------------------------

  /** The command name: the first word, or a lone space if the line starts with one. */
  function CommandName(text: string): string {
    if text != "" && text[0] == ' ' then " " else Lexeme(text, ' ')
  }

  /** The terminator written after the name lands on the first word of a line that starts with one space. */
  predicate ClobbersArgs(text: string) {
    |text| >= 2 && text[0] == ' ' && text[1] != ' '
  }

  /** The string the handler would receive. */
  function CommandArgs(text: string): string {
    if ClobbersArgs(text) then "" else Next(text, ' ')
  }

  function Spaces(n: nat): string {
    seq(n, _ => ' ')
  }

  /**
   A line that does not start with a space is its longest space-free prefix, a run of spaces that is
   empty only at the end of the line, and an argument that does not start with a space.
   */
  lemma SplitLine(text: string)
    requires text == "" || text[0] != ' '
    ensures var name, args := CommandName(text), CommandArgs(text);
            var n := |text| - |name| - |args|;
            && n >= 0 && text == name + Spaces(n) + args
            && ' ' !in name
            && (|name| < |text| ==> n > 0)
            && (args != "" ==> args[0] != ' ')
  {
    var name, args := CommandName(text), CommandArgs(text);
    var rest := text[|name|..];
    var n := |rest| - |args|;
    assert rest == Spaces(n) + args;
    assert text == name + rest;
  }

  /** The handler's argument is what follows the first word exactly when the terminator does not land on it. */
  lemma ArgsIntact(text: string)
    ensures CommandArgs(text) == Next(text, ' ') <==> !ClobbersArgs(text)
  {
    if ClobbersArgs(text) {
      NextIs(text, ' ', 1);
    }
  }

  // ---- Dispatch ------------------------------------------------------------------------------------

  datatype Outcome = Ran(command: nat, args: string) | Unknown(name: string)

  /** The position of a name in the table, the first if it occurs twice. */
  function Lookup(names: seq<string>, name: string): Option<nat> {
    if names == [] then None
    else if names[0] == name then Some(0)
    else
      match Lookup(names[1..], name)
      case None => None
      case Some(i) => Some(i + 1)
  }

  lemma {:induction false} LookupFinds(names: seq<string>, name: string)
    ensures Lookup(names, name).Some? <==> name in names
    ensures Lookup(names, name).Some? ==>
      var i := Lookup(names, name).value;
      i < |names| && names[i] == name && name !in names[..i]
    decreases |names|
  {
    if names != [] {
      LookupFinds(names[1..], name);
      if names[0] != name && Lookup(names[1..], name).Some? {
        var i := Lookup(names[1..], name).value;
        assert names[..i + 1] == [names[0]] + names[1..][..i];
      }
    }
  }

  function Execute(names: seq<string>, text: string): Outcome {
    match Lookup(names, CommandName(text))
    case Some(i) => Ran(i, CommandArgs(text))
    case None => Unknown(CommandName(text))
  }

  /**
   What runs on a line that does not start with a space: its longest space-free prefix is looked up, and
   the handler receives what follows the spaces after it.
   */
  lemma ExecuteSplits(names: seq<string>, text: string) returns (name: string, n: nat, args: string)
    requires text == "" || text[0] != ' '
    ensures text == name + Spaces(n) + args
    ensures ' ' !in name && (n == 0 ==> args == "") && (args != "" ==> args[0] != ' ')
    ensures name !in names ==> Execute(names, text) == Unknown(name)
    ensures name in names ==>
      match Execute(names, text)
      case Ran(i, a) => i < |names| && names[i] == name && name !in names[..i] && a == args
      case Unknown(_) => false
  {
    hide Lookup, CommandName, CommandArgs;
    SplitLine(text);
    name, args := CommandName(text), CommandArgs(text);
    n := |text| - |name| - |args|;
    LookupFinds(names, name);
  }

  /** No registered name contains a space, so a line that starts with one never runs anything. */
  lemma LeadingSpace(names: seq<string>, text: string)
    requires text != "" && text[0] == ' ' && forall i :: 0 <= i < |names| ==> ' ' !in names[i]
    ensures Execute(names, text) == Unknown(" ")
  {
    LookupFinds(names, " ");
    forall i | 0 <= i < |names| ensures names[i] != " " {
      assert ' ' in " ";
    }
  }

  /** With the registered names, a line that starts with a space is always an unknown command. */
  lemma BaseLeadingSpace(text: string)
    requires text != "" && text[0] == ' '
    ensures Execute(BASE_COMMANDS, text) == Unknown(" ")
  {
    forall i | 0 <= i < |BASE_COMMANDS| ensures ' ' !in BASE_COMMANDS[i] {
    }
    LeadingSpace(BASE_COMMANDS, text);
  }

  // ---- In place --------------------------------------------------------------------------------------

  /** Unless it clobbers the argument, the terminator is written before it. */
  lemma NameBeforeArgs(text: string)
    requires Next(text, ' ') != "" && !ClobbersArgs(text)
    ensures |CommandName(text)| < |text| - |Next(text, ' ')|
  {
    hide Lexeme, Trim;
    var lexeme, next := Lexeme(text, ' '), Next(text, ' ');
    var i := |text| - |next|;
    assert text[i] == next[0] != ' ';
    assert text[|lexeme|] == ' ';
    if text[0] == ' ' {
      assert text[0] == text[1] == ' ';
    }
  }

  /** The line after the terminator has been written behind the name. */
  lemma SplitInPlace(line: string, w: nat)
    requires Terminated(line)
    requires w == |CommandName(CStr(line))|
    ensures w < |line|
    ensures var text, after := CStr(line), line[w := '\0'];
            && Terminated(after) && CStr(after) == CommandName(text)
            && (Next(text, ' ') != "" ==>
                  var i := |text| - |Next(text, ' ')|;
                  Terminated(after[i..]) && CStr(after[i..]) == CommandArgs(text))
  {
    hide StrLen, Lexeme, Trim;
    var text, after := CStr(line), line[w := '\0'];
    var name := CommandName(text);
    StrLenZero(line);
    StrLenIs(after, w);
    assert after[..w] == text[..w];
    if Next(text, ' ') != "" {
      var i := |text| - |Next(text, ' ')|;
      if ClobbersArgs(text) {
        NextIs(text, ' ', 1);
        StrLenIs(after[i..], 0);
      } else {
        NameBeforeArgs(text);
        assert after[i..] == line[i..];
        CStrAt(line, i);
      }
    }
  }

  // ---- Printing the unknown command --------------------------------------------------------------------

  function UnknownText(name: string): string {
    "Unknown command: " + name + "\n"
  }

  lemma UnknownFormat(name: string, color: nat)
    ensures Format("Unknown command: %s\n", [Str(name)], color) ==
            Some(Output(Puts(UnknownText(name), color), color, []))
  {
    hide Format;
    StringFormat("Unknown command: ", name, "\n", color);
    assert "Unknown command: " + ("%s" + "\n") == "Unknown command: %s\n";
  }

  // ---- ksh_exec ----------------------------------------------------------------------------------------

  /** What the handlers print, by position in the table and argument; clearing the screen counts as printing. */
  type Handlers = (nat, string) -> seq<Event>

  /** What `ksh_exec` prints: the handler's output or the complaint. */
  function Shown(o: Outcome, does: Handlers, color: nat): seq<Event> {
    match o
    case Ran(i, args) => does(i, args)
    case Unknown(name) => Puts(UnknownText(name), color)
  }

  /**
   `ksh_exec`: the outcome is that of `Execute` on the string in `cmd`, whose name is cut off in place.
   A handler runs exactly when the name is registered.
   */
  method Exec(cmd: array<char>, names: seq<string>, does: Handlers, t: Terminal) returns (ran: bool, o: Outcome)
    requires Terminated(cmd[..]) && t.Valid()
    requires forall i :: 0 <= i < |names| ==> '\0' !in names[i]
    requires WellBehaved(t.screen, Shown(Execute(names, CStr(cmd[..])), does, t.textColor))
    modifies cmd, t, t.fb, t.lineLen
    ensures t.Valid() && t.textColor == old(t.textColor)
    ensures o == Execute(names, CStr(old(cmd[..])))
    ensures (ran <==> o.Ran?) && (ran <==> CommandName(CStr(old(cmd[..]))) in names)
    ensures Terminated(cmd[..]) && CStr(cmd[..]) == CommandName(CStr(old(cmd[..])))
    ensures |CStr(cmd[..])| < cmd.Length && cmd[..] == old(cmd[..])[|CStr(cmd[..])| := '\0']
    ensures o.Ran? ==> t.screen == Run(old(t.screen), does(o.command, o.args))
    ensures o.Unknown? ==> t.screen == Run(old(t.screen), Puts("Unknown command: " + o.name + "\n", t.textColor))
  {
    hide WellBehaved, Run, Puts, StrLen, CStr, Lookup, CommandName, CommandArgs;
    LookupFinds(names, CommandName(CStr(cmd[..])));
    var args := SplitCommand(cmd);
    NoZero(cmd[..]);
    var i := Find(cmd, names);
    if i.Some? {
      o := Ran(i.value, args);
      ran := true;
      t.Play(does(i.value, args));
      return;
    }
    o := Unknown(CStr(cmd[..]));
    ran := false;
    SayUnknown(t, o.name);
  }

  lemma NoZero(s: string)
    ensures '\0' !in CStr(s)
  {
    StrLenZero(s);
  }

  /** The first half of `ksh_exec`: find the argument, find the end of the name, terminate the name. */
  method SplitCommand(cmd: array<char>) returns (args: string)
    requires Terminated(cmd[..])
    modifies cmd
    ensures args == CommandArgs(CStr(old(cmd[..])))
    ensures Terminated(cmd[..]) && CStr(cmd[..]) == CommandName(CStr(old(cmd[..])))
    ensures |CStr(cmd[..])| < cmd.Length && cmd[..] == old(cmd[..])[|CStr(cmd[..])| := '\0']
  {
    hide StrLen, Lexeme, Next;
    var argsStart := Strfnl(cmd, ' ');
    var nameEnd := Strfle(cmd, ' ');
    ghost var line := cmd[..];
    SplitInPlace(line, nameEnd + 1);
    cmd[nameEnd + 1] := '\0';
    assert cmd[..] == line[nameEnd + 1 := '\0'];
    args := if argsStart.None? then "" else CStr(cmd[..][argsStart.value..]);
  }

  /** Complain about an unknown command. */
  method SayUnknown(t: Terminal, name: string)
    requires t.Valid() && '\0' !in name && WellBehaved(t.screen, Puts(UnknownText(name), t.textColor))
    modifies t, t.fb, t.lineLen
    ensures t.Valid() && t.textColor == old(t.textColor)
    ensures t.screen == Run(old(t.screen), Puts(UnknownText(name), t.textColor))
  {
    hide WellBehaved, Run, Puts, Format;
    UnknownFormat(name, t.textColor);
    var _ := Kvprintf(t, "Unknown command: %s\n", [Str(name)]);
  }

  /** The dispatch loop: the first registered name equal to the command. */
  method Find(cmd: array<char>, names: seq<string>) returns (r: Option<nat>)
    requires Terminated(cmd[..]) && forall i :: 0 <= i < |names| ==> '\0' !in names[i]
    ensures r == Lookup(names, CStr(cmd[..]))
  {
    ghost var name := CStr(cmd[..]);
    var i := 0;
    assert names[0..] == names;
    while i < |names|
      invariant i <= |names| && name !in names[..i]
    {
      var same := Streq(cmd, names[i]);
      if same {
        LookupIs(names, name, i);
        return Some(i);
      }
      i := i + 1;
    }
    LookupFinds(names, name);
    assert names[..|names|] == names;
    r := None;
  }

  lemma {:induction false} LookupIs(names: seq<string>, name: string, i: nat)
    requires i < |names| && names[i] == name && name !in names[..i]
    ensures Lookup(names, name) == Some(i)
    decreases i
  {
    if i > 0 {
      assert names[0] == names[..i][0];
      assert names[1..][..i - 1] == names[..i][1..];
      LookupIs(names[1..], name, i - 1);
    }
  }

  // ---- ksh_run -----------------------------------------------------------------------------------------

  const PROMPT: string := "ksh> "

  /** One regular command line: the reader checks after each byte of `scs`, which type `body` and a newline. */
  ghost predicate RegularLine(k: Keys, batches: seq<seq<nat>>, scs: seq<nat>, body: string) {
    && k.Valid()
    && batches == Singles(scs)
    && BeforeNewline(TypedBy(k.shift, scs)) == Some(body)
    && Regular(k.pos, "", body + "\n")
  }

  /** What a regular read leaves in the buffer. */
  lemma RegularLineReads(k: Keys, batches: seq<seq<nat>>, scs: seq<nat>, body: string)
    requires RegularLine(k, batches, scs, body)
    ensures var r := Read(k, k.pos, batches);
            r.Stopped? && Agrees(r.k, k.pos, EditAll("", body) + "\n")
    ensures '\0' !in EditAll("", body) && '\n' !in EditAll("", body) && BACKSPACE !in EditAll("", body)
  {
    ReadRegular(k, k.pos, "", scs);
    LineClean(k.shift, scs);
  }

  /** The line buffer after the newline has been overwritten is the edited text, cut to 126 characters. */
  lemma LineString(before: string, line: string, n: nat, text: string)
    requires |before| == |line| && 1 <= n < |line| && n == |Cut(text + "\n", 127)|
    requires before[..n] == Cut(text + "\n", 127) && line == before[n - 1 := '\0']
    requires '\0' !in text
    ensures Terminated(line) && CStr(line) == Cut(text, 126)
  {
    assert line[..n - 1] == before[..n][..n - 1] == Cut(text, 126);
    assert forall k :: 0 <= k < n - 1 ==> line[k] == line[..n - 1][k];
    StrLenIs(line, n - 1);
  }

  /** What `CopyLine` takes from memory after a regular read is the line of `LineIsText`. */
  lemma CopiedLine(k: Keys, start: nat, text: string, beyond: string, n: nat)
    requires Agrees(k, start, text) && text != "" && n == LineLength(k.pos, start, 128) && |beyond| >= 128
    ensures start + n <= |k.buf + beyond| && n == |Cut(text, 127)| && 1 <= n
    ensures (k.buf + beyond)[start..start + n] == Cut(text, 127)
  {
    LineIsText(k, start, text, 128);
    assert (k.buf + beyond)[start..start + n] == k.buf[start..start + n];
  }

  /** The prompt has been printed. */
  function Prompted(s: System, color: nat): (r: System)
    requires s.Valid()
    ensures r.Valid() && r.keys == s.keys
  {
    s.(screen := Run(s.screen, Puts(PROMPT, color)))
  }

  /** The prompt, the read and the stripped newline of `ksh_run`. */
  method ReadCommand(kb: Driver, t: Terminal, line: array<char>, batches: seq<seq<nat>>, beyond: string,
                     ghost scs: seq<nat>, ghost body: string) returns (ready: bool)
    requires kb.Valid() && t.Valid() && line.Length == 128 && line != kb.buf && |beyond| >= 128
    requires ReadEchoOk(Prompted(kb.Whole(t), t.textColor), kb.pos, batches, t.textColor)
    modifies kb, kb.buf, line, t, t.fb, t.lineLen
    ensures kb.Valid() && t.Valid() && t.textColor == old(t.textColor)
    ensures kb.Whole(t) ==
            ReadSystem(Prompted(old(kb.Whole(t)), t.textColor), old(kb.pos), batches, t.textColor)
    ensures ready <==> Read(old(kb.State()), old(kb.pos), batches).Stopped?
    ensures RegularLine(old(kb.State()), batches, scs, body) ==>
              ready && Terminated(line[..]) && CStr(line[..]) == Cut(EditAll("", body), 126)
  {
    hide Run, WellBehaved, Puts, ReadSystem, ReadEchoOk, Agrees, Cut, StrLen, CStr, RegularLine, Read;
    hide Driver.Valid, Terminal.Valid;
    ghost var k := kb.State();
    ShowPrompt(t);
    var len := kb.ReadLine(line, 128, t, batches, beyond);
    if len.None? {
      if RegularLine(k, batches, scs, body) {
        RegularLineReads(k, batches, scs, body);
      }
      return false;
    }
    ReadLength(k, k.pos, batches, 128);
    ghost var before := line[..];
    line[len.value - 1] := '\0';
    if RegularLine(k, batches, scs, body) {
      StrippedLine(k, batches, scs, body, beyond, before, line[..], len.value);
    }
    ready := true;
  }

  /** From what `CopyLine` left in the line buffer to the string handed on. */
  lemma StrippedLine(k: Keys, batches: seq<seq<nat>>, scs: seq<nat>, body: string, beyond: string,
                     before: string, line: string, n: nat)
    requires k.Valid() && RegularLine(k, batches, scs, body)
    requires |beyond| >= 128 && |before| == |line| == 128 && 1 <= n < 128
    requires var r := Read(k, k.pos, batches).k;
             && n == LineLength(r.pos, k.pos, 128)
             && k.pos + n <= |r.buf + beyond| && before[..n] == (r.buf + beyond)[k.pos..k.pos + n]
    requires line == before[n - 1 := '\0']
    ensures Terminated(line) && CStr(line) == Cut(EditAll("", body), 126)
  {
    hide Agrees, Cut, StrLen, CStr, RegularLine, Read, LineLength;
    RegularLineReads(k, batches, scs, body);
    CopiedLine(Read(k, k.pos, batches).k, k.pos, EditAll("", body) + "\n", beyond, n);
    LineString(before, line, n, EditAll("", body));
  }

  /** Print the prompt. */
  method ShowPrompt(t: Terminal)
    requires t.Valid()
    modifies t, t.fb, t.lineLen
    ensures t.Valid() && t.textColor == old(t.textColor)
    ensures t.screen == Run(old(t.screen), Puts(PROMPT, t.textColor))
  {
    hide Format, Puts, WellBehaved, Run;
    PlainFormat(PROMPT, [], t.textColor);
    PlainBehaves(t.screen, PROMPT, t.textColor);
    var _ := Kvprintf(t, PROMPT, []);
  }

  lemma UnknownBehaves(s: Screen, text: string, color: nat)
    requires s.Sized() && BACKSPACE !in text
    ensures WellBehaved(s, Puts(UnknownText(CommandName(text)), color))
  {
    var name := CommandName(text);
    assert BACKSPACE !in name;
    assert BACKSPACE !in UnknownText(name);
    PlainBehaves(s, UnknownText(name), color);
  }

  /** What is printed for a line without backspaces is well behaved if the handler's output is. */
  lemma ShownBehaves(s: Screen, names: seq<string>, text: string, does: Handlers, color: nat)
    requires s.Sized() && BACKSPACE !in text
    requires var o := Execute(names, text);
             o.Ran? ==> WellBehaved(s, does(o.command, o.args))
    ensures WellBehaved(s, Shown(Execute(names, text), does, color))
  {
    hide WellBehaved, Puts, CommandName, UnknownText;
    UnknownBehaves(s, text, color);
  }

  /** The screen when the line has been read. */
  function ReadScreen(s: System, batches: seq<seq<nat>>, color: nat): (r: Screen)
    requires s.Valid()
    ensures r.Sized()
  {
    ReadSystem(Prompted(s, color), s.keys.pos, batches, color).screen
  }

  /** Reading a regular line prints the prompt, everything typed, and the newline. */
  lemma LineScreen(s: System, batches: seq<seq<nat>>, scs: seq<nat>, body: string, color: nat)
    requires s.Valid() && RegularLine(s.keys, batches, scs, body)
    ensures ReadScreen(s, batches, color) == Run(s.screen, Puts("ksh> " + body + "\n", color))
  {
    hide Run, Puts, WellBehaved, ReadSystem, TypedBy, BeforeNewline, Regular;
    var s' := Prompted(s, color);
    assert s.keys.buf[s.keys.pos..s.keys.pos] == "";
    ReadPrints(s', s.keys.pos, "", scs, color);
    RunAppend(s.screen, Puts(PROMPT, color), Puts(body + "\n", color));
    PutsAppend(PROMPT, body + "\n", color);
    assert PROMPT + (body + "\n") == "ksh> " + body + "\n";
  }

  /**
   One turn of `ksh_run` on a regular line: from scancodes to the command that runs.  The outcome is
   `Execute` on the edited text of the line, cut to 126 characters; what has been printed is the prompt,
   everything typed with its newline, and the output; the buffer has moved on by the text and its newline.
   */
  method Turn(kb: Driver, t: Terminal, line: array<char>, batches: seq<seq<nat>>, beyond: string,
              names: seq<string>, does: Handlers, ghost scs: seq<nat>, ghost body: string) returns (o: Outcome)
    requires kb.Valid() && t.Valid() && line.Length == 128 && line != kb.buf && |beyond| >= 128
    requires ReadEchoOk(Prompted(kb.Whole(t), t.textColor), kb.pos, batches, t.textColor)
    requires RegularLine(kb.State(), batches, scs, body)
    requires forall i :: 0 <= i < |names| ==> '\0' !in names[i]
    requires var o := Execute(names, Cut(EditAll("", body), 126));
             o.Ran? ==> WellBehaved(ReadScreen(kb.Whole(t), batches, t.textColor), does(o.command, o.args))
    modifies kb, kb.buf, line, t, t.fb, t.lineLen
    ensures kb.Valid() && t.Valid() && t.textColor == old(t.textColor)
    ensures o == Execute(names, Cut(EditAll("", body), 126))
    ensures kb.State() == Read(old(kb.State()), old(kb.pos), batches).k
    ensures kb.pos == old(kb.pos) + |EditAll("", body)| + 1
    ensures var read := Run(old(t.screen), Puts("ksh> " + body + "\n", t.textColor));
            && (o.Ran? ==> t.screen == Run(read, does(o.command, o.args)))
            && (o.Unknown? ==> t.screen == Run(read, Puts("Unknown command: " + o.name + "\n", t.textColor)))
  {
    hide Run, WellBehaved, Puts, ReadSystem, ReadEchoOk, StrLen, CStr, Read, RegularLine, Execute, Shown, Cut, Prompted;
    LineScreen(kb.Whole(t), batches, scs, body, t.textColor);
    ghost var text := Cut(EditAll("", body), 126);
    RegularLineReads(kb.State(), batches, scs, body);
    CutFrom(EditAll("", body), 126);
    var ready := ReadCommand(kb, t, line, batches, beyond, scs, body);
    ShownBehaves(t.screen, names, text, does, t.textColor);
    var ran;
    ran, o := Exec(line, names, does, t);
  }

  lemma CutFrom(text: string, n: nat)
    ensures BACKSPACE !in text ==> BACKSPACE !in Cut(text, n)
  {
  }

  // ---- The loop of ksh_run ---------------------------------------------------------------------------------

  /** One line of a session: the bytes before the enter key, and what the handlers would print after it. */
  datatype Entry = Entry(scs: seq<nat>, does: Handlers)

  function Typing(e: Entry): seq<seq<nat>> {
    Singles(e.scs + [ENTER])
  }

  /** The string handed to `ksh_exec`. */
  function Command(shift: bool, e: Entry): string {
    Cut(EditAll("", TypedBy(shift, e.scs)), 126)
  }

  /** The outcomes of a session, line by line; typing depends on the state of the shift keys. */
  function Outcomes(names: seq<string>, shift: bool, es: seq<Entry>): (os: seq<Outcome>)
    ensures |os| == |es|
    decreases |es|
  {
    if es == [] then [] else
    [Execute(names, Command(shift, es[0]))] + Outcomes(names, ShiftAll(shift, es[0].scs + [ENTER]), es[1..])
  }

  /** Keyboard and screen after one line. */
  function AfterTurn(s: System, e: Entry, names: seq<string>, color: nat): (r: System)
    requires s.Valid()
    ensures r.Valid()
  {
    var o := Execute(names, Command(s.keys.shift, e));
    System(HandleAll(s.keys, e.scs + [ENTER]), Run(ReadScreen(s, Typing(e), color), Shown(o, e.does, color)))
  }

  function Session(s: System, es: seq<Entry>, names: seq<string>, color: nat): (r: System)
    requires s.Valid()
    ensures r.Valid()
    decreases |es|
  {
    if es == [] then s else Session(AfterTurn(s, es[0], names, color), es[1..], names, color)
  }

  /** Nothing the handler prints is an overfull backspace. */
  ghost predicate OutputOk(s: System, e: Entry, names: seq<string>, color: nat)
    requires s.Valid()
  {
    var o := Execute(names, Command(s.keys.shift, e));
    o.Ran? ==> WellBehaved(ReadScreen(s, Typing(e), color), e.does(o.command, o.args))
  }

  /** The line is regular, and nothing printed while it is typed or run is an overfull backspace. */
  ghost predicate TurnOk(s: System, e: Entry, names: seq<string>, color: nat)
    requires s.Valid()
  {
    var typed := TypedBy(s.keys.shift, e.scs);
    && '\n' !in typed
    && Regular(s.keys.pos, "", typed + "\n")
    && ReadEchoOk(Prompted(s, color), s.keys.pos, Typing(e), color)
    && OutputOk(s, e, names, color)
  }

  ghost predicate SessionOk(s: System, es: seq<Entry>, names: seq<string>, color: nat)
    requires s.Valid()
    decreases |es|
  {
    es == [] || (TurnOk(s, es[0], names, color) && SessionOk(AfterTurn(s, es[0], names, color), es[1..], names, color))
  }

  lemma WholeValid(kb: Driver, t: Terminal)
    requires kb.Valid() && t.Valid()
    ensures kb.Whole(t).Valid()
  {
  }

  lemma SessionNext(s: System, es: seq<Entry>, names: seq<string>, color: nat)
    requires s.Valid() && es != [] && SessionOk(s, es, names, color)
    ensures TurnOk(s, es[0], names, color)
    ensures var s' := AfterTurn(s, es[0], names, color);
            && SessionOk(s', es[1..], names, color)
            && Session(s, es, names, color) == Session(s', es[1..], names, color)
    ensures var shift := s.keys.shift;
            Outcomes(names, shift, es) ==
              [Execute(names, Command(shift, es[0]))] +
              Outcomes(names, ShiftAll(shift, es[0].scs + [ENTER]), es[1..])
  {
  }

  lemma SessionEnd(s: System, names: seq<string>, color: nat)
    requires s.Valid()
    ensures Session(s, [], names, color) == s && Outcomes(names, s.keys.shift, []) == []
  {
  }

  lemma {:induction false} BeforeOnlyNewline(typed: string)
    requires '\n' !in typed
    ensures BeforeNewline(typed + "\n") == Some(typed)
    decreases |typed|
  {
    if typed != "" {
      assert (typed + "\n")[0] == typed[0] && (typed + "\n")[1..] == typed[1..] + "\n";
      assert typed == [typed[0]] + typed[1..];
      BeforeOnlyNewline(typed[1..]);
    }
  }

  /** A line of a session is a regular line, and all of it is handled. */
  lemma EntryReads(s: System, e: Entry, names: seq<string>, color: nat)
    requires s.Valid() && TurnOk(s, e, names, color)
    ensures RegularLine(s.keys, Typing(e), e.scs + [ENTER], TypedBy(s.keys.shift, e.scs))
    ensures Read(s.keys, s.keys.pos, Typing(e)).k == HandleAll(s.keys, e.scs + [ENTER])
    ensures AfterTurn(s, e, names, color).keys.shift == ShiftAll(s.keys.shift, e.scs + [ENTER])
  {
    hide Regular, ReadEchoOk, WellBehaved, Typed, Read, HandleAll, Execute, ShiftAll;
    var shift, typed := s.keys.shift, TypedBy(s.keys.shift, e.scs);
    TypedAppend(shift, e.scs, [ENTER]);
    TypedEnter(ShiftAll(shift, e.scs));
    BeforeOnlyNewline(typed);
    assert s.keys.buf[s.keys.pos..s.keys.pos] == "";
    ReadEntered(s.keys, s.keys.pos, "", e.scs);
    HandleAllShift(s.keys, e.scs + [ENTER]);
  }

  /**
   What one line of a session does: the command is the edited text of what was typed, and the screen is
   the one on which the prompt, everything typed, its newline and the output have been printed.
   */
  ghost predicate LineRuns(before: System, after: System, e: Entry, o: Outcome, names: seq<string>, color: nat)
    requires before.Valid()
  {
    var typed := TypedBy(before.keys.shift, e.scs);
    var read := Run(before.screen, Puts("ksh> " + typed + "\n", color));
    && o == Execute(names, Cut(EditAll("", typed), 126))
    && (o.Ran? ==> after.screen == Run(read, e.does(o.command, o.args)))
    && (o.Unknown? ==> after.screen == Run(read, Puts("Unknown command: " + o.name + "\n", color)))
  }

  lemma TurnRuns(s: System, e: Entry, names: seq<string>, color: nat)
    requires s.Valid() && TurnOk(s, e, names, color)
    ensures LineRuns(s, AfterTurn(s, e, names, color), e, Execute(names, Command(s.keys.shift, e)), names, color)
  {
    hide ReadScreen, Run, Puts, WellBehaved, RegularLine, Execute, HandleAll, TurnOk;
    EntryReads(s, e, names, color);
    LineScreen(s, Typing(e), e.scs + [ENTER], TypedBy(s.keys.shift, e.scs), color);
  }

  /** Line `n` of a session runs as it should from the state the lines before it leave. */
  lemma {:induction false} SessionLine(s: System, es: seq<Entry>, names: seq<string>, color: nat, n: nat)
    requires s.Valid() && SessionOk(s, es, names, color) && n < |es|
    ensures LineRuns(Session(s, es[..n], names, color), Session(s, es[..n + 1], names, color), es[n],
                     Outcomes(names, s.keys.shift, es)[n], names, color)
    decreases |es|
  {
    hide AfterTurn, TurnOk, Execute, Command, ShiftAll, SessionOk, Session, Outcomes, LineRuns;
    SessionNext(s, es, names, color);
    EntryReads(s, es[0], names, color);
    var s' := AfterTurn(s, es[0], names, color);
    SessionFirst(s, es, n + 1, names, color);
    if n == 0 {
      assert es[..0] == [] && es[1..][..0] == [];
      TurnRuns(s, es[0], names, color);
      SessionEnd(s, names, color);
      SessionEnd(s', names, color);
    } else {
      SessionFirst(s, es, n, names, color);
      SessionLine(s', es[1..], names, color, n - 1);
    }
  }

  lemma SessionFirst(s: System, es: seq<Entry>, n: nat, names: seq<string>, color: nat)
    requires s.Valid() && 0 < n <= |es|
    ensures Session(s, es[..n], names, color) ==
            Session(AfterTurn(s, es[0], names, color), es[1..][..n - 1], names, color)
  {
    hide AfterTurn;
    assert es[..n][1..] == es[1..][..n - 1];
  }

  lemma TypedEnter(shift: bool)
    ensures TypedBy(shift, [ENTER]) == "\n"
  {
    hide KeyChars;
    OnlyEnter(shift, ENTER);
  }

  /**
   `ksh_run` with the registered commands, over any list of lines: the outcomes are those of the edited
   texts, in order, and keyboard and screen follow line by line.
   */
  method KshRun(kb: Driver, t: Terminal, es: seq<Entry>, beyond: string) returns (os: seq<Outcome>)
    requires kb.Valid() && t.Valid() && |beyond| >= 128
    requires SessionOk(kb.Whole(t), es, BASE_COMMANDS, t.textColor)
    modifies kb, kb.buf, t, t.fb, t.lineLen
    ensures kb.Valid() && t.Valid() && t.textColor == old(t.textColor)
    ensures os == Outcomes(BASE_COMMANDS, old(kb.shiftHeld), es)
    ensures kb.Whole(t) == Session(old(kb.Whole(t)), es, BASE_COMMANDS, t.textColor)
    ensures forall n :: 0 <= n < |es| ==>
      LineRuns(Session(old(kb.Whole(t)), es[..n], BASE_COMMANDS, t.textColor),
               Session(old(kb.Whole(t)), es[..n + 1], BASE_COMMANDS, t.textColor),
               es[n], os[n], BASE_COMMANDS, t.textColor)
  {
    hide AfterTurn, TurnOk, Execute, Command, ShiftAll, SessionOk, Session, Outcomes;
    hide Terminal.Valid, Driver.Valid, BASE_COMMANDS;
    WholeValid(kb, t);
    ghost var s, color, shift := kb.Whole(t), t.textColor, kb.shiftHeld;
    var line, table := new char[128], new string[7];
    PopulateBaseCommands(table);
    os := [];
    var i := 0;
    assert es[0..] == es;
    while i < |es|
      invariant i <= |es| && kb.Valid() && t.Valid() && kb.Whole(t).Valid() && t.textColor == color
      invariant table[..] == BASE_COMMANDS && fresh(line) && fresh(table) && line.Length == 128
      invariant SessionOk(kb.Whole(t), es[i..], BASE_COMMANDS, color)
      invariant Session(kb.Whole(t), es[i..], BASE_COMMANDS, color) == Session(s, es, BASE_COMMANDS, color)
      invariant os + Outcomes(BASE_COMMANDS, kb.shiftHeld, es[i..]) == Outcomes(BASE_COMMANDS, shift, es)
    {
      assert es[i..][1..] == es[i + 1..];
      SessionNext(kb.Whole(t), es[i..], BASE_COMMANDS, color);
      var o := EntryTurn(kb, t, line, es[i], beyond, table);
      os := os + [o];
      i := i + 1;
    }
    assert es[i..] == [];
    SessionEnd(kb.Whole(t), BASE_COMMANDS, color);
    forall n | 0 <= n < |es|
      ensures LineRuns(Session(s, es[..n], BASE_COMMANDS, color), Session(s, es[..n + 1], BASE_COMMANDS, color),
                       es[n], Outcomes(BASE_COMMANDS, shift, es)[n], BASE_COMMANDS, color)
    {
      SessionLine(s, es, BASE_COMMANDS, color, n);
    }
  }

  /** One turn of the session. */
  method EntryTurn(kb: Driver, t: Terminal, line: array<char>, e: Entry, beyond: string, table: array<string>)
    returns (o: Outcome)
    requires kb.Valid() && t.Valid() && line.Length == 128 && line != kb.buf && |beyond| >= 128
    requires table[..] == BASE_COMMANDS
    requires TurnOk(kb.Whole(t), e, BASE_COMMANDS, t.textColor)
    modifies kb, kb.buf, line, t, t.fb, t.lineLen
    ensures kb.Valid() && t.Valid() && t.textColor == old(t.textColor)
    ensures o == Execute(BASE_COMMANDS, Command(old(kb.shiftHeld), e))
    ensures kb.Whole(t) == AfterTurn(old(kb.Whole(t)), e, BASE_COMMANDS, t.textColor)
    ensures kb.shiftHeld == ShiftAll(old(kb.shiftHeld), e.scs + [ENTER])
  {
    hide ReadEchoOk, RegularLine, Regular, Read, ReadScreen, Run, Puts, WellBehaved, Execute, HandleAll, ShiftAll;
    ghost var scs, body := e.scs + [ENTER], TypedBy(kb.shiftHeld, e.scs);
    EntryReads(kb.Whole(t), e, BASE_COMMANDS, t.textColor);
    LineScreen(kb.Whole(t), Typing(e), scs, body, t.textColor);
    BaseNoZero();
    o := Turn(kb, t, line, Typing(e), beyond, table[..], e.does, scs, body);
  }

  lemma BaseNoZero()
    ensures forall i :: 0 <= i < |BASE_COMMANDS| ==> '\0' !in BASE_COMMANDS[i]
  {
  }

  // ---- Sessions that fit -------------------------------------------------------------------------------------

  /** The line stays on the row of its prompt, and the buffer has room for it and its newline. */
  predicate TurnFits(s: System, e: Entry)
    requires s.Valid()
  {
    var typed, p := TypedBy(s.keys.shift, e.scs), s.screen.col + |PROMPT|;
    && p < s.screen.width
    && AllStay(s.screen.width, s.keys.pos, p, "", typed)
    && s.keys.pos + |EditAll("", typed)| < SIZE - 1
  }

  ghost predicate SessionFits(s: System, es: seq<Entry>, names: seq<string>, color: nat)
    requires s.Valid()
    decreases |es|
  {
    es == [] ||
    (&& TurnFits(s, es[0])
     && OutputOk(s, es[0], names, color)
     && SessionFits(AfterTurn(s, es[0], names, color), es[1..], names, color))
  }

  lemma {:induction false} StaysRegular(width: nat, start: nat, p: nat, text: string, typed: string)
    requires AllStay(width, start, p, text, typed) && start + |EditAll(text, typed)| < SIZE - 1
    ensures '\n' !in typed && Regular(start, text, typed + "\n")
    decreases |typed|
  {
    if typed != "" {
      assert (typed + "\n")[0] == typed[0] && (typed + "\n")[1..] == typed[1..] + "\n";
      StaysRegular(width, start, p, Edit(text, typed[0]), typed[1..]);
    } else {
      assert "" + "\n" == "\n";
    }
  }

  /** Such a line is regular, and typing it is always echoed within the grid. */
  lemma FitsOk(s: System, e: Entry, names: seq<string>, color: nat)
    requires s.Valid() && Inv(s.screen) && TurnFits(s, e) && OutputOk(s, e, names, color)
    ensures TurnOk(s, e, names, color)
  {
    hide Inv, WellBehaved, ReadEchoOk, ReadScreen, Regular, AllStay, Execute, Command, TypedBy, Run, Puts;
    var typed, p := TypedBy(s.keys.shift, e.scs), s.screen.col + |PROMPT|;
    StaysRegular(s.screen.width, s.keys.pos, p, "", typed);
    PromptEchoes(s.keys, s.screen, PROMPT, e.scs, color);
  }

  /** A turn leaves the screen within the invariant. */
  lemma TurnInv(s: System, e: Entry, names: seq<string>, color: nat)
    requires s.Valid() && Inv(s.screen) && TurnOk(s, e, names, color)
    ensures Inv(AfterTurn(s, e, names, color).screen)
  {
    hide Inv, WellBehaved, ReadEchoOk, ReadSystem, Regular, Execute, TypedBy, Run, Puts, Shown, RegularLine;
    var text := Command(s.keys.shift, e);
    PlainBehaves(s.screen, PROMPT, color);
    RunInv(s.screen, Puts(PROMPT, color));
    ReadInv(Prompted(s, color), s.keys.pos, Typing(e), color);
    EntryReads(s, e, names, color);
    RegularLineReads(s.keys, Typing(e), e.scs + [ENTER], TypedBy(s.keys.shift, e.scs));
    CutFrom(EditAll("", TypedBy(s.keys.shift, e.scs)), 126);
    ShownBehaves(ReadScreen(s, Typing(e), color), names, text, e.does, color);
    RunInv(ReadScreen(s, Typing(e), color), Shown(Execute(names, text), e.does, color));
  }

  /** Any session of lines that fit can be run: the hypotheses of `KshRun` follow from what is typed. */
  lemma {:induction false} SessionFitsOk(s: System, es: seq<Entry>, names: seq<string>, color: nat)
    requires s.Valid() && Inv(s.screen) && SessionFits(s, es, names, color)
    ensures SessionOk(s, es, names, color) && Inv(Session(s, es, names, color).screen)
    decreases |es|
  {
    hide Inv, TurnFits, OutputOk, TurnOk, AfterTurn;
    if es != [] {
      FitsOk(s, es[0], names, color);
      TurnInv(s, es[0], names, color);
      SessionFitsOk(AfterTurn(s, es[0], names, color), es[1..], names, color);
    }
  }

  /** How many characters a session leaves in the buffer: every edited text and its newline. */
  function Stored(shift: bool, es: seq<Entry>): nat
    decreases |es|
  {
    if es == [] then 0 else
    |EditAll("", TypedBy(shift, es[0].scs))| + 1 + Stored(ShiftAll(shift, es[0].scs + [ENTER]), es[1..])
  }

  /** No line of a session is lost or overwritten: the position has moved on by all of them. */
  lemma {:induction false} SessionStored(s: System, es: seq<Entry>, names: seq<string>, color: nat)
    requires s.Valid() && SessionOk(s, es, names, color)
    ensures Session(s, es, names, color).keys.pos == s.keys.pos + Stored(s.keys.shift, es)
    decreases |es|
  {
    hide TurnOk, AfterTurn, TypedBy, ShiftAll;
    if es != [] {
      TurnStored(s, es[0], names, color);
      SessionStored(AfterTurn(s, es[0], names, color), es[1..], names, color);
    }
  }

  lemma TurnStored(s: System, e: Entry, names: seq<string>, color: nat)
    requires s.Valid() && TurnOk(s, e, names, color)
    ensures var s' := AfterTurn(s, e, names, color);
            && s'.keys.pos == s.keys.pos + |EditAll("", TypedBy(s.keys.shift, e.scs))| + 1
            && s'.keys.shift == ShiftAll(s.keys.shift, e.scs + [ENTER])
  {
    hide TurnOk, RegularLine, Read, TypedBy, ShiftAll, HandleAll;
    EntryReads(s, e, names, color);
    RegularLineReads(s.keys, Typing(e), e.scs + [ENTER], TypedBy(s.keys.shift, e.scs));
  }

  // ---- Two commands -----------------------------------------------------------------------------------------

  /** A line "echo" with an argument runs the handler at position 5 with that argument. */
  lemma EchoLine(args: string)
    requires args == "" || args[0] != ' '
    ensures Execute(BASE_COMMANDS, "echo " + args) == Ran(5, args)
  {
    hide Lookup, Lexeme, Next;
    var text := "echo " + args;
    LexemeIs(text, ' ', 4);
    NextIs(text, ' ', 5);
    assert Lexeme(text, ' ') == text[..4] == "echo";
    assert Next(text, ' ') == text[5..] == args;
    assert forall i :: 0 <= i < 5 ==> BASE_COMMANDS[i] != "echo";
    LookupIs(BASE_COMMANDS, "echo", 5);
  }

  /** Pressing e, c, h, o and enter runs the echo command, with nothing to repeat. */
  lemma EchoTyped(does: Handlers)
    ensures Typing(Entry([18, 46, 35, 24], does)) == Singles([18, 46, 35, 24, 28])
    ensures Outcomes(BASE_COMMANDS, false, [Entry([18, 46, 35, 24], does)]) == [Ran(5, "")]
  {
    hide Singles, TypedBy, Lookup, Lexeme, Next, Execute;
    var e := Entry([18, 46, 35, 24], does);
    assert e.scs + [ENTER] == [18, 46, 35, 24, 28];
    EchoKeys();
    EchoEdited();
    EchoAlone();
    assert Outcomes(BASE_COMMANDS, ShiftAll(false, e.scs + [ENTER]), [e][1..]) == [];
  }

  lemma EchoEdited()
    ensures Cut(EditAll("", "echo"), 126) == "echo"
  {
    assert EditAll("echo", "") == "echo";
    assert EditAll("ech", "o") == "echo" by { assert "o"[1..] == "" && "ech" + ['o'] == "echo"; }
    assert EditAll("ec", "ho") == "echo" by { assert "ho"[1..] == "o" && "ec" + ['h'] == "ech"; }
    assert EditAll("e", "cho") == "echo" by { assert "cho"[1..] == "ho" && "e" + ['c'] == "ec"; }
    assert "echo"[1..] == "cho" && "" + ['e'] == "e";
  }

  lemma EchoAlone()
    ensures Execute(BASE_COMMANDS, "echo") == Ran(5, "")
  {
    hide Lookup, Lexeme, Next;
    LexemeIs("echo", ' ', 4);
    NextIs("echo", ' ', 4);
    assert Lexeme("echo", ' ') == "echo"[..4] == "echo";
    assert Next("echo", ' ') == "echo"[4..] == "";
    assert forall i :: 0 <= i < 5 ==> BASE_COMMANDS[i] != "echo";
    LookupIs(BASE_COMMANDS, "echo", 5);
  }

  /** `ksh_hndl_echo` prints its argument and a newline. */
  method HandleEcho(t: Terminal, args: string)
    requires t.Valid() && '\0' !in args && WellBehaved(t.screen, Puts(args + "\n", t.textColor))
    modifies t, t.fb, t.lineLen
    ensures t.Valid() && t.textColor == old(t.textColor)
    ensures t.screen == Run(old(t.screen), Puts(args + "\n", t.textColor))
  {
    hide WellBehaved, Run, Puts, Format;
    StringFormat("", args, "\n", t.textColor);
    assert "" + ("%s" + "\n") == "%s\n" && "" + args + "\n" == args + "\n";
    var _ := Kvprintf(t, "%s\n", [Str(args)]);
  }

  /** `ksh_hndl_uptime` prints the whole seconds it was given as hours, minutes and seconds. */
  method HandleUptime(t: Terminal, ms: nat) returns (ghost h: string, ghost m: string, ghost s: string)
    requires t.Valid() && ms < UINT64_LIMIT
    modifies t, t.fb, t.lineLen
    ensures t.Valid() && t.textColor == old(t.textColor)
    ensures t.screen == Run(old(t.screen), Puts("up " + h + ":" + m + ":" + s + "\n", t.textColor))
    ensures IsNumeral(h, ms / 1000 / 3600, 10) && IsNumeral(m, ms / 1000 / 60 % 60, 10)
    ensures IsNumeral(s, ms / 1000 % 60, 10)
    ensures 3600 * Eval(h, 10) + 60 * Eval(m, 10) + Eval(s, 10) == ms / 1000
  {
    hide WellBehaved, Run, Puts, Format, IsNumeral, Eval;
    var seconds := ms / 1000;
    h, m, s := UptimeLine(seconds, t.textColor);
    NoBackspace(h, seconds / 3600);
    NoBackspace(m, seconds / 60 % 60);
    NoBackspace(s, seconds % 60);
    PlainBehaves(t.screen, "up " + h + ":" + m + ":" + s + "\n", t.textColor);
    var _ := Kvprintf(t, "up %lu:%lu:%lu\n", [ULong(seconds / 3600), ULong(seconds / 60 % 60), ULong(seconds % 60)]);
  }

  lemma NoBackspace(t: string, n: nat)
    requires IsNumeral(t, n, 10)
    ensures BACKSPACE !in t
  {
  }
}
