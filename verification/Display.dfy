/**
 What a reader of the screen sees: each character of `vga_putc` as a change of cells, row lengths and
 cursor, on any screen in order, and lines of text on a row.
 */
module Display {
  import opened Editing
  import opened Screens

  // ---- One character ---------------------------------------------------------------------------------

  /** A printable character with room on the row: its cell, the row's length and the cursor, and nothing else. */
  lemma PrintInRow(s: Screen, c: char, color: nat)
    requires Inv(s) && Printable(c) && s.col + 1 < s.width
    ensures var row := Row(s.rows[s.row].cells[s.col := Cell(c, color)], s.col + 1);
            Step(s, c, color) == s.(rows := s.rows[s.row := row], col := s.col + 1)
  {
    hide RowOk;
    RowOkLength(s.rows[s.row], s.width);
  }

  /** In the last column the row is filled, and what follows is what a newline does. */
  lemma PrintAtEnd(s: Screen, c: char, color: nat)
    requires Inv(s) && Printable(c) && s.col + 1 == s.width
    ensures var row := Row(s.rows[s.row].cells[s.col := Cell(c, color)], s.width);
            Step(s, c, color) == Step(s.(rows := s.rows[s.row := row]), '\n', color)
  {
    hide RowOk;
    RowOkLength(s.rows[s.row], s.width);
  }

  /** A newline: the start of the next row, and at the bottom of a screen every row moves up by one. */
  lemma Newline(s: Screen, color: nat)
    requires s.Sized()
    ensures var t := Step(s, '\n', color);
            var blank := Row(seq(s.width, _ => Cell(' ', 0x07)), 0);
            t == if s.row + 1 < |s.rows| then s.(row := s.row + 1, col := 0)
                 else if s.endless then s.(rows := s.rows + [blank], row := s.row + 1, col := 0)
                 else s.(rows := s.rows[1..] + [blank], col := 0)
  {
    assert seq(s.width, _ => Cell(' ', 0x07)) == BlankRow(s.width, 0x07).cells;
  }

  /** A tab: the nearest even column to the right, or what a newline does if the row has none. */
  lemma TabStep(s: Screen, c: nat, color: nat)
    requires s.Sized() && s.col < c <= s.col + 2 && c % 2 == 0
    ensures Step(s, '\t', color) == if c < s.width then s.(col := c) else Step(s, '\n', color)
  {
  }

  /**
   A backspace: the character before the cursor turns blank and the row ends there, unless it ended
   earlier; at the start of a row the cursor goes to the end of the row above; at the top left nothing.
   */
  lemma BackspaceStep(s: Screen, color: nat)
    requires Inv(s) && !OverfullBack(s, BACKSPACE)
    ensures s.col > 0 ==>
      var r := s.rows[s.row];
      var row := Row(r.cells[s.col - 1 := Cell(' ', 0)], if r.len < s.col then r.len else s.col - 1);
      Step(s, BACKSPACE, color) == s.(rows := s.rows[s.row := row], col := s.col - 1)
    ensures s.col == 0 && s.row > 0 ==>
      var r := s.rows[s.row - 1];
      var row := Row(r.cells[r.len := Cell(' ', 0)], r.len);
      Step(s, BACKSPACE, color) == s.(rows := s.rows[s.row - 1 := row], row := s.row - 1, col := r.len)
    ensures s.col == 0 && s.row == 0 ==> Step(s, BACKSPACE, color) == s
  {
    hide RowOk;
    RowOkLength(s.rows[s.row], s.width);
    if s.row > 0 {
      RowOkLength(s.rows[s.row - 1], s.width);
    }
  }

  /** Every other character does nothing. */
  lemma OtherStep(s: Screen, c: char, color: nat)
    requires s.Sized() && !(32 <= c as int < 128) && c != '\n' && c != '\t' && c != BACKSPACE
    ensures Step(s, c, color) == s
  {
  }

  /** Clearing: spaces of that colour everywhere, and the cursor at the top left. */
  lemma ClearStep(s: Screen, color: nat)
    requires s.Sized()
    ensures Apply(s, Clear(color)) ==
            Screen(s.width, seq(|s.rows|, _ => Row(seq(s.width, _ => Cell(' ', color)), 0)), 0, 0, s.endless)
  {
    var t := Apply(s, Clear(color));
    forall r | 0 <= r < |s.rows|
      ensures t.rows[r] == Row(seq(s.width, _ => Cell(' ', color)), 0)
    {
      assert t.rows[r].cells == seq(s.width, _ => Cell(' ', color));
    }
  }

  // ---- A line of text ----------------------------------------------------------------------------------

  /** The cells of row `row` from column `p` to the cursor are `text`; by the invariant the rest is blank. */
  ghost predicate Displays(s: Screen, row: nat, p: nat, text: string, color: nat) {
    && Inv(s)
    && s.row == row && s.col == p + |text|
    && s.rows[row].len == p + |text|
    && (forall i :: 0 <= i < |text| ==> Printable(text[i]) && s.rows[row].cells[p + i] == Cell(text[i], color))
  }

  lemma DisplayPrintable(s: Screen, row: nat, p: nat, text: string, c: char, color: nat)
    requires Displays(s, row, p, text, color) && Printable(c) && p + |text| + 1 < s.width
    ensures Displays(Step(s, c, color), row, p, text + [c], color)
  {
    hide RowOk;
    InvStep(s, c, color);
    RowOkLength(s.rows[row], s.width);
    var t := Step(s, c, color);
    assert t.rows[row].cells == s.rows[row].cells[p + |text| := Cell(c, color)];
    assert t.row == row && t.col == p + |text| + 1 && t.rows[row].len == p + |text| + 1;
  }

  lemma DisplayBackspace(s: Screen, row: nat, p: nat, text: string, color: nat)
    requires Displays(s, row, p, text, color) && text != ""
    ensures Displays(Step(s, BACKSPACE, color), row, p, text[..|text| - 1], color)
  {
    hide RowOk;
    InvStep(s, BACKSPACE, color);
    RowOkLength(s.rows[row], s.width);
    var t := Step(s, BACKSPACE, color);
    assert t.rows[row].cells == s.rows[row].cells[p + |text| - 1 := Cell(' ', 0)];
  }

  /** Text printed on the rest of the row. */
  lemma {:induction false} DisplayText(s: Screen, row: nat, p: nat, text: string, more: string, color: nat)
    requires Displays(s, row, p, text, color) && p + |text| + |more| < s.width
    requires forall i :: 0 <= i < |more| ==> Printable(more[i])
    ensures Run(s, Puts(more, color)).width == s.width
    ensures Displays(Run(s, Puts(more, color)), row, p, text + more, color)
    decreases |more|
  {
    hide Inv, Step, Printable;
    InvSized(s);
    if more == "" {
      assert text + more == text;
    } else {
      var front, c := more[..|more| - 1], more[|more| - 1];
      DisplayText(s, row, p, text, front, color);
      var t := Run(s, Puts(front, color));
      StepShape(t, c, color);
      DisplayPrintable(t, row, p, text + front, c, color);
      assert Puts(more, color)[..|more| - 1] == Puts(front, color);
      assert text + more == text + front + [c];
    }
  }

  lemma InvSized(s: Screen)
    requires Inv(s)
    ensures s.Sized()
  {
  }

  lemma PutsCons(text: string, color: nat)
    requires text != ""
    ensures Puts(text, color) == [Put(text[0], color)] + Puts(text[1..], color)
  {
  }

  /** A character printed anywhere but in the last column is a line of its own, up to the cursor. */
  lemma PrintableShown(s: Screen, c: char, color: nat)
    requires Inv(s) && Printable(c) && s.col + 1 < s.width
    ensures Step(s, c, color).width == s.width
    ensures Displays(Step(s, c, color), s.row, s.col, [c], color)
  {
    hide RowOk;
    InvStep(s, c, color);
    PrintInRow(s, c, color);
    RowOkLength(s.rows[s.row], s.width);
  }

  /** Text printed with room on the row is what the row shows from the cursor on, wherever that stands. */
  lemma TextShown(s: Screen, text: string, color: nat)
    requires Inv(s) && text != "" && s.col + |text| < s.width
    requires forall i :: 0 <= i < |text| ==> Printable(text[i])
    ensures var t := Run(s, Puts(text, color));
            t.width == s.width && Displays(t, s.row, s.col, text, color)
  {
    hide Inv, Step, Run, Puts, Printable, WellBehaved;
    var first, rest := Put(text[0], color), text[1..];
    InvSized(s);
    PrintableShown(s, text[0], color);
    PutsCons(text, color);
    RunOne(s, first);
    RunAppend(s, [first], Puts(rest, color));
    DisplayText(Step(s, text[0], color), s.row, s.col, [text[0]], rest, color);
    assert [text[0]] + rest == text;
  }

  /** The end of a line of text is a line of text, further to the right. */
  lemma DisplaySuffix(s: Screen, row: nat, p: nat, text: string, n: nat, color: nat)
    requires Displays(s, row, p, text, color) && n <= |text|
    ensures Displays(s, row, p + n, text[n..], color)
  {
    hide RowOk;
    RowOkLength(s.rows[row], s.width);
    forall i | 0 <= i < |text[n..]|
      ensures Printable(text[n..][i]) && s.rows[row].cells[p + n + i] == Cell(text[n..][i], color)
    {
      assert text[n..][i] == text[n + i];
    }
  }

  /** A prompt that does not fill its row is on the screen, and the line after it is empty. */
  lemma PromptShown(s: Screen, prompt: string, color: nat)
    requires Inv(s) && prompt != "" && s.col + |prompt| < s.width
    requires forall i :: 0 <= i < |prompt| ==> Printable(prompt[i])
    ensures var t := Run(s, Puts(prompt, color));
            && t.width == s.width
            && Displays(t, s.row, s.col, prompt, color) && Displays(t, s.row, s.col + |prompt|, "", color)
  {
    hide Inv, Run, Puts;
    InvSized(s);
    TextShown(s, prompt, color);
    DisplaySuffix(Run(s, Puts(prompt, color)), s.row, s.col, prompt, |prompt|, color);
  }

  /** After the newline and tab that a kernel panic prints before its message, the message starts at column 2. */
  lemma MessageShown(s: Screen, msg: string, color: nat)
    requires Inv(s) && msg != "" && 2 + |msg| < s.width
    requires forall i :: 0 <= i < |msg| ==> Printable(msg[i])
    ensures var row := if s.row + 1 < |s.rows| || s.endless then s.row + 1 else s.row;
            Displays(Run(s, Puts("\n\t" + msg, color)), row, 2, msg, color)
  {
    hide Inv, Step, Puts, Printable, Displays, Run;
    InvSized(s);
    var t := Step(s, '\n', color);
    InvStep(s, '\n', color);
    Newline(s, color);
    InvSized(t);
    InvStep(t, '\t', color);
    TabStep(t, 2, color);
    TextShown(Step(t, '\t', color), msg, color);
    PutsCons("\n\t" + msg, color);
    PutsCons("\t" + msg, color);
    assert ("\n\t" + msg)[1..] == "\t" + msg && ("\t" + msg)[1..] == msg;
    RunCons(s, Put('\n', color), Puts("\t" + msg, color));
    RunCons(t, Put('\t', color), Puts(msg, color));
  }

  lemma RunCons(s: Screen, e: Event, es: seq<Event>)
    requires s.Sized()
    ensures Run(s, [e] + es) == Run(Apply(s, e), es)
  {
    hide Run, WellBehaved, Apply, Behaves;
    RunOne(s, e);
    RunAppend(s, [e], es);
  }
}
