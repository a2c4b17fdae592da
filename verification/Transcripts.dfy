/**
 The endless terminal as text.  Read row by row, with a newline after every row that is not full, it is
 the text that was printed, with every backspace carried out.
 */
module Transcripts {
  import opened Editing
  import opened Screens

  /** The characters written on a row. */
  function RowText(r: Row): (t: string)
    requires r.len <= |r.cells|
    ensures |t| == r.len
  {
    seq(r.len, x requires 0 <= x < r.len => r.cells[x].ch)
  }

  /** The rows above the cursor: a row that is not full was ended by a newline. */
  ghost function RowsText(rows: seq<Row>, width: nat): string
    requires forall r :: 0 <= r < |rows| ==> RowOk(rows[r], width)
  {
    if rows == [] then "" else
    var last := rows[|rows| - 1];
    assert RowOk(last, width);
    RowsText(rows[..|rows| - 1], width) + RowText(last) + if last.len < width then "\n" else ""
  }

  /** Everything from the top to the cursor. */
  ghost function Transcript(s: Screen): string
    requires Inv(s)
  {
    RowsText(s.rows[..s.row], s.width) + RowText(s.rows[s.row])
  }

  /** The characters that act as text: drawn ones, newlines and backspaces. */
  predicate Textual(c: char) {
    Printable(c) || c == '\n' || c == BACKSPACE
  }

  lemma DrawnText(r: Row, col: nat, cell: Cell)
    requires r.len == col < |r.cells|
    ensures RowText(PutCell(r, col, cell).(len := col + 1)) == RowText(r) + [cell.ch]
  {
  }

  /** Where an endless terminal stands after a character at the end of its row. */
  lemma DrawShape(s: Screen, c: char, color: nat)
    requires s.endless && Inv(s) && AtEnd(s) && Printable(c)
    ensures var row := PutCell(s.rows[s.row], s.col, Cell(c, color)).(len := s.col + 1);
            var t := Step(s, c, color);
            && t.width == s.width && t.row < |t.rows| && t.rows[t.row].len == t.col
            && if s.col + 1 < s.width then t.row == s.row && t.rows[..s.row] == s.rows[..s.row] && t.rows[t.row] == row
               else t.row == s.row + 1 && t.rows[..t.row] == s.rows[..s.row] + [row] && t.col == 0
  {
    hide RowOk;
    RowOkLength(s.rows[s.row], s.width);
  }

  lemma RowsTextSnoc(rows: seq<Row>, r: Row, width: nat)
    requires (forall q :: 0 <= q < |rows| ==> RowOk(rows[q], width)) && RowOk(r, width)
    ensures forall q :: 0 <= q < |rows + [r]| ==> RowOk((rows + [r])[q], width)
    ensures RowsText(rows + [r], width) == RowsText(rows, width) + RowText(r) + if r.len < width then "\n" else ""
  {
    assert (rows + [r])[..|rows|] == rows;
  }

  lemma TranscriptIs(s: Screen)
    requires Inv(s)
    ensures s.row < |s.rows| && RowOk(s.rows[s.row], s.width) && |s.rows[s.row].cells| == s.width
    ensures s.rows[s.row].len <= s.col < s.width
    ensures forall q :: 0 <= q < s.row ==> RowOk(s.rows[..s.row][q], s.width)
    ensures Transcript(s) == RowsText(s.rows[..s.row], s.width) + RowText(s.rows[s.row])
  {
  }

  lemma DrawTranscript(s: Screen, c: char, color: nat)
    requires s.endless && Inv(s) && AtEnd(s) && Printable(c)
    ensures Inv(Step(s, c, color)) && AtEnd(Step(s, c, color))
    ensures Transcript(Step(s, c, color)) == Transcript(s) + [c]
  {
    hide Step, Inv, Transcript, RowsText, RowOk, RowText;
    TranscriptIs(s);
    InvStep(s, c, color);
    DrawShape(s, c, color);
    DrawnText(s.rows[s.row], s.col, Cell(c, color));
    var t := Step(s, c, color);
    TranscriptIs(t);
    if s.col + 1 == s.width {
      RowsTextSnoc(s.rows[..s.row], t.rows[..t.row][s.row], s.width);
    }
  }

  lemma NewlineTranscript(s: Screen, color: nat)
    requires s.endless && Inv(s) && AtEnd(s)
    ensures Inv(Step(s, '\n', color)) && AtEnd(Step(s, '\n', color))
    ensures Transcript(Step(s, '\n', color)) == Transcript(s) + "\n"
  {
    InvStep(s, '\n', color);
    var t := Step(s, '\n', color);
    assert t.rows[..t.row] == s.rows[..s.row] + [s.rows[s.row]];
    assert t.rows[..t.row][..s.row] == s.rows[..s.row];
  }

  lemma BackspaceTranscript(s: Screen, color: nat)
    requires s.endless && Inv(s) && AtEnd(s) && !OverfullBack(s, BACKSPACE)
    ensures Inv(Step(s, BACKSPACE, color)) && AtEnd(Step(s, BACKSPACE, color))
    ensures Transcript(Step(s, BACKSPACE, color)) == Edit(Transcript(s), BACKSPACE)
  {
    InvStep(s, BACKSPACE, color);
    var t := Step(s, BACKSPACE, color);
    if s.col > 0 {
      assert t.rows[..t.row] == s.rows[..s.row];
      assert RowText(t.rows[t.row]) == RowText(s.rows[s.row])[..s.col - 1];
    } else if s.row > 0 {
      var above := s.rows[..s.row];
      assert above[..s.row - 1] == t.rows[..t.row];
      assert RowText(t.rows[t.row]) == RowText(s.rows[s.row - 1]);
      assert RowText(s.rows[s.row]) == "";
    }
  }

  /** One textual character edits the transcript of an endless terminal like a line of text. */
  lemma StepTranscript(s: Screen, c: char, color: nat)
    requires s.endless && Inv(s) && AtEnd(s) && Textual(c) && !OverfullBack(s, c)
    ensures Inv(Step(s, c, color)) && AtEnd(Step(s, c, color)) && Step(s, c, color).endless
    ensures Transcript(Step(s, c, color)) == Edit(Transcript(s), c)
  {
    StepShape(s, c, color);
    hide Step, Transcript;
    if Printable(c) {
      DrawTranscript(s, c, color);
    } else if c == '\n' {
      NewlineTranscript(s, color);
    } else {
      BackspaceTranscript(s, color);
    }
  }

  /** A run of textual characters, in any colours. */
  predicate TextRun(es: seq<Event>) {
    forall i :: 0 <= i < |es| ==> es[i].Put? && Textual(es[i].c)
  }

  function TextOf(es: seq<Event>): string
    requires TextRun(es)
  {
    seq(|es|, i requires 0 <= i < |es| => es[i].c)
  }

  lemma TextFront(es: seq<Event>)
    requires TextRun(es) && es != []
    ensures var front, last := es[..|es| - 1], es[|es| - 1];
            && TextRun(front) && last.Put? && Textual(last.c)
            && TextOf(es) == TextOf(front) + [last.c]
  {
  }

  lemma RunLast(s: Screen, es: seq<Event>)
    requires s.Sized() && es != [] && WellBehaved(s, es) && es[|es| - 1].Put?
    ensures var front, last := es[..|es| - 1], es[|es| - 1];
            && WellBehaved(s, front) && !OverfullBack(Run(s, front), last.c)
            && Run(s, es) == Step(Run(s, front), last.c, last.color)
  {
  }

  /**
   Over any well-behaved run of printable characters, newlines and backspaces, in any colours, the
   endless terminal reads as its earlier transcript with the run's text edited in.
   */
  lemma {:induction false} RunTranscript(s: Screen, es: seq<Event>)
    requires s.endless && Inv(s) && AtEnd(s) && WellBehaved(s, es) && TextRun(es)
    ensures Inv(Run(s, es)) && AtEnd(Run(s, es)) && Run(s, es).endless
    ensures Transcript(Run(s, es)) == EditAll(Transcript(s), TextOf(es))
    decreases |es|
  {
    if es == [] {
      assert TextOf(es) == "";
    } else {
      assert s.Sized();
      hide Inv, AtEnd, Transcript, Step, OverfullBack, EditAll, Run, WellBehaved, Textual, TextRun, TextOf;
      var front, last := es[..|es| - 1], es[|es| - 1];
      TextFront(es);
      RunLast(s, es);
      RunTranscript(s, front);
      StepTranscript(Run(s, front), last.c, last.color);
      EditAllSnoc(Transcript(s), TextOf(front), last.c);
    }
  }

  /** Below the top of the screen, an overfull backspace is one on the endless terminal too. */
  lemma WindowBehaves(d: Screen, s: Screen, k: nat, e: Event)
    requires Window(d, s, k) && KeepsWindow(s, k, e)
    ensures Behaves(d, e) == Behaves(s, e)
  {
  }

  lemma {:induction false} TwinBehaves(d: Screen, s: Screen, k: nat, es: seq<Event>)
    requires Window(d, s, k) && StaysBelow(d, s, es)
    ensures WellBehaved(d, es) == WellBehaved(s, es)
    decreases |es|
  {
    hide Behaves, KeepsWindow, Run;
    if es != [] {
      var front := es[..|es| - 1];
      TwinBehaves(d, s, k, front);
      WindowRun(d, s, k, front);
      var d1, s1 := Run(d, front), Run(s, front);
      WindowBehaves(d1, s1, Screens.Above(d1, s1), es[|es| - 1]);
    }
  }

  /**
   What a scrolling screen shows is the end of the text: after a run that stays below the top it is the
   bottom of a terminal whose transcript is the one at the start with the run's text edited in.
   */
  lemma ScreenShowsEnd(s: Screen, es: seq<Event>)
    requires !s.endless && Inv(s) && AtEnd(s) && WellBehaved(s, es) && TextRun(es)
    requires StaysBelow(s.(endless := true), s, es)
    ensures var d := Run(s.(endless := true), es);
            && Window(d, Run(s, es), Screens.Above(d, Run(s, es)))
            && Inv(d) && Transcript(d) == EditAll(Transcript(s), TextOf(es))
  {
    var twin := s.(endless := true);
    assert Window(twin, s, 0);
    assert Inv(twin) && Transcript(twin) == Transcript(s);
    hide Inv, Transcript, Run, WellBehaved, StaysBelow, Window, EditAll, TextOf, TextRun;
    ScrollingIsWindow(s, es);
    TwinBehaves(twin, s, 0, es);
    RunTranscript(twin, es);
  }
}
