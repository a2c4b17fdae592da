/**
 The terminal of kernel/vga.c as a grid of cells: what `vga_putc` does to the text, without pixels.

 A screen scrolls when the cursor leaves the last row; an `endless` one grows a new row instead.
 Both follow the same steps, which is how scrolling is specified.
 */
module Screens {
  import opened Editing

  /** A character and a colour byte: foreground in the low four bits, background above. */
  datatype Cell = Cell(ch: char, color: nat)

  /** The cells of a row and its entry in `line_len`. */
  datatype Row = Row(cells: seq<Cell>, len: nat)

  datatype Screen = Screen(width: nat, rows: seq<Row>, row: nat, col: nat, endless: bool) {
    predicate Sized() {
      row < |rows| && forall r :: 0 <= r < |rows| ==> |rows[r].cells| == width
    }
  }

  function BlankRow(width: nat, color: nat): Row {
    Row(seq(width, _ => Cell(' ', color)), 0)
  }

  /** Draw one cell; a column outside the row is outside the text area. */
  function PutCell(r: Row, col: nat, cell: Cell): Row {
    if col < |r.cells| then r.(cells := r.cells[col := cell]) else r
  }

  // ---- The steps -------------------------------------------------------------------------------

  /** `vga_up`: drop the top row and add a blank one, light grey on black, at the bottom. */
  function Up(s: Screen): Screen
    requires s.Sized()
  {
    s.(rows := s.rows[1..] + [BlankRow(s.width, 0x07)])
  }

  /** Move to the start of the next row, making room for it if there is none. */
  function NextRow(s: Screen): (t: Screen)
    requires s.Sized()
    ensures t.Sized()
  {
    if s.row + 1 < |s.rows| then
      s.(row := s.row + 1, col := 0)
    else if s.endless then
      s.(rows := s.rows + [BlankRow(s.width, 0x07)], row := |s.rows|, col := 0)
    else
      Up(s).(row := |s.rows| - 1, col := 0)
  }

  function Tab(s: Screen): (t: Screen)
    requires s.Sized()
    ensures t.Sized()
  {
    var col := s.col + 2 - s.col % 2;
    if col >= s.width then NextRow(s) else s.(col := col)
  }

  /** Where a backspace moves the cursor: left, or to the end of the row above. */
  function BackTo(s: Screen): (p: (nat, nat))
    requires s.Sized() && (s.row > 0 || s.col > 0)
    ensures p.0 < |s.rows|
  {
    if s.col == 0 then (s.row - 1, s.rows[s.row - 1].len) else (s.row, s.col - 1)
  }

  function Back(s: Screen): (t: Screen)
    requires s.Sized()
    ensures t.Sized()
  {
    if s.col == 0 && s.row == 0 then s else
    var (row, col) := BackTo(s);
    var line := PutCell(s.rows[row], col, Cell(' ', 0));
    s.(rows := s.rows[row := line.(len := if col < line.len then col else line.len)], row := row, col := col)
  }

  /** Draw a printable character; `line_len` holds bytes. */
  function Draw(s: Screen, c: char, color: nat): (t: Screen)
    requires s.Sized()
    ensures t.Sized()
  {
    var line := PutCell(s.rows[s.row], s.col, Cell(c, color));
    var len := if s.col + 1 > line.len then (s.col + 1) % 256 else line.len;
    var t := s.(rows := s.rows[s.row := line.(len := len)], col := s.col + 1);
    if s.col + 1 >= s.width then NextRow(t) else t
  }

  /** The characters that are drawn: `char` is signed, so bytes from 128 on count as control codes. */
  predicate Printable(c: char) {
    32 <= c as int < 128
  }

  function Step(s: Screen, c: char, color: nat): (t: Screen)
    requires s.Sized()
    ensures t.Sized()
  {
    if Printable(c) then Draw(s, c, color)
    else if c == '\n' then NextRow(s)
    else if c == '\t' then Tab(s)
    else if c == BACKSPACE then Back(s)
    else s
  }

  lemma StepShape(s: Screen, c: char, color: nat)
    requires s.Sized()
    ensures var t := Step(s, c, color);
            t.width == s.width && t.endless == s.endless && (!s.endless ==> |t.rows| == |s.rows|)
  {
  }

  // ---- The invariant of well-behaved runs ----------------------------------------------------------

  /** A tab goes to the nearest even column to the right, or to the next row if there is none, and draws nothing. */
  lemma TabStop(s: Screen, c: nat)
    requires s.Sized()
    ensures var t := Tab(s);
            t == NextRow(s) || (t == s.(col := t.col) && s.col < t.col < s.width && t.col % 2 == 0)
    ensures s.col < c < Tab(s).col ==> c % 2 != 0
    ensures s.col < c < s.width && c % 2 == 0 ==> Tab(s) == s.(col := Tab(s).col) && Tab(s).col <= c
  {
  }

  /** A cell with nothing to see: a space on black. */
  predicate Blank(c: Cell) {
    c.ch == ' ' && c.color / 16 % 16 == 0
  }

  ghost predicate RowOk(r: Row, width: nat) {
    && |r.cells| == width
    && r.len <= width
    && forall x :: r.len <= x < width ==> Blank(r.cells[x])
  }

  /** The cursor is on the screen, and everything at or past a row's length, or below the cursor, is blank. */
  ghost predicate Tidy(s: Screen) {
    && 1 <= s.width
    && s.Sized()
    && s.col < s.width
    && s.rows[s.row].len <= s.col
    && (forall r :: 0 <= r < |s.rows| ==> RowOk(s.rows[r], s.width))
    && (forall r :: s.row < r < |s.rows| ==> s.rows[r].len == 0)
  }

  /** A tidy screen whose row lengths fit the bytes of `line_len`. */
  ghost predicate Inv(s: Screen) {
    Tidy(s) && s.width <= 255
  }

  /** The one character that breaks the invariant: a backspace that would return to the end of a full row. */
  predicate OverfullBack(s: Screen, c: char)
    requires s.Sized()
  {
    c == BACKSPACE && s.col == 0 && s.row > 0 && s.rows[s.row - 1].len == s.width
  }

  /** The invariant, except that the cursor may stand just past its row. */
  ghost predicate Loose(s: Screen) {
    && 1 <= s.width <= 255
    && s.Sized()
    && (forall r :: 0 <= r < |s.rows| ==> RowOk(s.rows[r], s.width))
    && (forall r :: s.row < r < |s.rows| ==> s.rows[r].len == 0)
  }

  lemma InvNextRow(s: Screen)
    requires Loose(s)
    ensures Inv(NextRow(s))
  {
    assert RowOk(BlankRow(s.width, 0x07), s.width);
  }

  lemma RowOkLength(r: Row, width: nat)
    requires RowOk(r, width)
    ensures |r.cells| == width && r.len <= width
  {
  }

  lemma DrawnRow(r: Row, width: nat, col: nat, cell: Cell)
    requires RowOk(r, width) && r.len <= col < width <= 255
    ensures RowOk(PutCell(r, col, cell).(len := if col + 1 > r.len then col + 1 else r.len), width)
  {
  }

  lemma InvDraw(s: Screen, c: char, color: nat)
    requires Inv(s)
    ensures Inv(Draw(s, c, color))
  {
    hide RowOk, NextRow;
    var line := PutCell(s.rows[s.row], s.col, Cell(c, color));
    var len := if s.col + 1 > line.len then s.col + 1 else line.len;
    var t := s.(rows := s.rows[s.row := line.(len := len)], col := s.col + 1);
    DrawnRow(s.rows[s.row], s.width, s.col, Cell(c, color));
    RowOkLength(s.rows[s.row], s.width);
    assert Loose(t);
    if s.col + 1 >= s.width {
      InvNextRow(t);
    }
  }

  lemma InvBack(s: Screen)
    requires Inv(s)
    ensures Inv(Back(s)) <==> !OverfullBack(s, BACKSPACE)
    ensures OverfullBack(s, BACKSPACE) ==> Back(s).col == s.width
  {
    if s.col > 0 || s.row > 0 {
      var (row, col) := BackTo(s);
      var line := PutCell(s.rows[row], col, Cell(' ', 0));
      assert RowOk(s.rows[row], s.width);
      assert RowOk(line.(len := if col < line.len then col else line.len), s.width);
    }
  }

  /** The cursor stays on the screen, and everything at or past a row's length stays blank, exactly without it. */
  lemma InvStep(s: Screen, c: char, color: nat)
    requires Inv(s)
    ensures Inv(Step(s, c, color)) <==> !OverfullBack(s, c)
    ensures OverfullBack(s, c) ==> Step(s, c, color).col == s.width
  {
    hide Draw, Back, NextRow;
    if Printable(c) {
      InvDraw(s, c, color);
    } else if c == '\n' || c == '\t' {
      InvNextRow(s);
    } else if c == BACKSPACE {
      InvBack(s);
    }
  }

  // ---- Runs ----------------------------------------------------------------------------------------

  datatype Event = Put(c: char, color: nat) | Clear(color: nat)

  function BlankScreen(width: nat, height: nat, color: nat): Screen {
    Screen(width, seq(height, _ => BlankRow(width, color)), 0, 0, false)
  }

  /** `vga_clear_screen`: every row blank in the background of `color`, cursor at the top left. */
  function Cleared(s: Screen, color: nat): (t: Screen)
    requires s.Sized()
    ensures t.Sized()
  {
    BlankScreen(s.width, |s.rows|, color).(endless := s.endless)
  }

  function Apply(s: Screen, e: Event): (t: Screen)
    requires s.Sized()
    ensures t.Sized()
  {
    match e
    case Put(c, color) => Step(s, c, color)
    case Clear(color) => Cleared(s, color)
  }

  function Run(s: Screen, es: seq<Event>): (t: Screen)
    requires s.Sized()
    ensures t.Sized()
    decreases |es|
  {
    if es == [] then s else Apply(Run(s, es[..|es| - 1]), es[|es| - 1])
  }

  /** An event that keeps the invariant: no overfull backspace, and clearing to black only. */
  predicate Behaves(s: Screen, e: Event)
    requires s.Sized()
  {
    match e
    case Put(c, _) => !OverfullBack(s, c)
    case Clear(color) => color / 16 % 16 == 0
  }

  predicate WellBehaved(s: Screen, es: seq<Event>)
    requires s.Sized()
    decreases |es|
  {
    es == [] || (WellBehaved(s, es[..|es| - 1]) && Behaves(Run(s, es[..|es| - 1]), es[|es| - 1]))
  }

  lemma InvApply(s: Screen, e: Event)
    requires Inv(s)
    ensures Inv(Apply(s, e)) <==> Behaves(s, e)
  {
    match e
    case Put(c, color) =>
      InvStep(s, c, color);
    case Clear(color) =>
      var t := Cleared(s, color);
      var blank := BlankRow(s.width, color);
      assert blank.cells[0] == Cell(' ', color);
      if color / 16 % 16 != 0 {
        assert !RowOk(t.rows[0], t.width);
      }
  }

  /** A well-behaved run keeps the invariant at every point. */
  lemma {:induction false} WellBehavedInv(s: Screen, es: seq<Event>, n: nat)
    requires Inv(s) && WellBehaved(s, es) && n <= |es|
    ensures Inv(Run(s, es[..n]))
    decreases |es|
  {
    if es != [] {
      var front := es[..|es| - 1];
      if n < |es| {
        WellBehavedInv(s, front, n);
        assert front[..n] == es[..n];
      } else {
        WellBehavedInv(s, front, n - 1);
        assert front[..n - 1] == front && es[..n] == es;
        InvApply(Run(s, front), es[n - 1]);
      }
    }
  }

  /** A run that is not well behaved loses the invariant at some point. */
  lemma {:induction false} IllBehavedAt(s: Screen, es: seq<Event>) returns (n: nat)
    requires Inv(s) && !WellBehaved(s, es)
    ensures n <= |es| && !Inv(Run(s, es[..n]))
    decreases |es|
  {
    var front := es[..|es| - 1];
    if WellBehaved(s, front) {
      WellBehavedInv(s, front, |front|);
      assert front[..|front|] == front && es[..|es|] == es;
      InvApply(Run(s, front), es[|es| - 1]);
      n := |es|;
    } else {
      n := IllBehavedAt(s, front);
      assert front[..n] == es[..n];
    }
  }

  /** A run is well behaved exactly when the invariant holds at every point of it. */
  lemma RunInv(s: Screen, es: seq<Event>)
    requires Inv(s)
    ensures WellBehaved(s, es) <==> forall n: nat | n <= |es| :: Inv(Run(s, es[..n]))
    ensures WellBehaved(s, es) ==> Inv(Run(s, es))
  {
    assert s.Sized();
    hide Inv;
    assert es[..|es|] == es;
    if WellBehaved(s, es) {
      forall n: nat | n <= |es| ensures Inv(Run(s, es[..n])) {
        WellBehavedInv(s, es, n);
      }
    } else {
      var n := IllBehavedAt(s, es);
    }
  }

  lemma {:induction false} RunAppend(s: Screen, es: seq<Event>, fs: seq<Event>)
    requires s.Sized()
    ensures Run(s, es + fs) == Run(Run(s, es), fs)
    ensures WellBehaved(s, es + fs) <==> WellBehaved(s, es) && WellBehaved(Run(s, es), fs)
    decreases |fs|
  {
    if fs == [] {
      assert es + fs == es;
    } else {
      assert (es + fs)[..|es + fs| - 1] == es + fs[..|fs| - 1];
      RunAppend(s, es, fs[..|fs| - 1]);
    }
  }

  // ---- How wide a screen may be ----------------------------------------------------------------------

  /** A text of `n` times the letter x. */
  function Xs(n: nat): string {
    seq(n, _ => 'x')
  }

  /** A blank screen after `n` letters, while they fit a byte and the row. */
  lemma {:induction false} LettersOnRow(width: nat, height: nat, n: nat)
    requires width > 255 && height >= 2 && n <= 255
    ensures var s := Run(BlankScreen(width, height, 0), Puts(Xs(n), 0x0F));
            && s.Sized() && s.width == width && |s.rows| == height && !s.endless
            && s.row == 0 && s.col == n && s.rows[0].len == n
            && Tidy(s) && (n > 0 ==> s.rows[0].cells[0] == Cell('x', 0x0F))
  {
    var start := BlankScreen(width, height, 0);
    if n == 0 {
      assert Puts(Xs(0), 0x0F) == [];
      assert RowOk(BlankRow(width, 0), width);
    } else {
      LettersOnRow(width, height, n - 1);
      OneMoreLetter(start, n - 1);
      var s := Run(start, Puts(Xs(n - 1), 0x0F));
      DrawnShort(s);
    }
  }

  lemma OneMoreLetter(start: Screen, n: nat)
    requires start.Sized()
    ensures Run(start, Puts(Xs(n + 1), 0x0F)) == Step(Run(start, Puts(Xs(n), 0x0F)), 'x', 0x0F)
  {
    hide Run, Step;
    assert Puts(Xs(n + 1), 0x0F) == Puts(Xs(n), 0x0F) + [Put('x', 0x0F)];
    RunAppend(start, Puts(Xs(n), 0x0F), [Put('x', 0x0F)]);
    RunOne(Run(start, Puts(Xs(n), 0x0F)), Put('x', 0x0F));
  }

  lemma DrawnShort(s: Screen)
    requires Tidy(s) && s.col + 1 < s.width && s.col < 255 && s.rows[s.row].len == s.col
    ensures var t := Step(s, 'x', 0x0F);
            && t == s.(rows := s.rows[s.row := t.rows[s.row]], col := s.col + 1)
            && t.rows[s.row].len == s.col + 1 && Tidy(t)
            && t.rows[s.row].cells == s.rows[s.row].cells[s.col := Cell('x', 0x0F)]
  {
    var r := s.rows[s.row];
    assert RowOk(r, s.width);
    assert Step(s, 'x', 0x0F).rows[s.row] == r.(cells := r.cells[s.col := Cell('x', 0x0F)], len := s.col + 1);
    assert RowOk(r.(cells := r.cells[s.col := Cell('x', 0x0F)], len := s.col + 1), s.width);
  }

  lemma DrawnLong(s: Screen)
    requires s.Sized() && s.width > 255 && |s.rows| >= 2 && s.row == 0 && s.col == s.rows[0].len == 255
    requires s.rows[0].cells[0] == Cell('x', 0x0F)
    ensures !Tidy(Step(s, 'x', 0x0F))
  {
    var t := Step(s, 'x', 0x0F);
    assert t.rows[0].len == 0 && t.rows[0].cells[0] == Cell('x', 0x0F);
    assert !RowOk(t.rows[0], s.width);
  }

  /** On a row of more than 255 cells the 256th letter leaves a length of zero behind a visible text. */
  lemma LongRow(width: nat, height: nat)
    requires width > 255 && height >= 2
    ensures Tidy(Run(BlankScreen(width, height, 0), Puts(Xs(255), 0x0F)))
    ensures !Tidy(Run(BlankScreen(width, height, 0), Puts(Xs(256), 0x0F)))
  {
    hide Run, Step, Puts, Tidy;
    var start := BlankScreen(width, height, 0);
    LettersOnRow(width, height, 255);
    OneMoreLetter(start, 255);
    DrawnLong(Run(start, Puts(Xs(255), 0x0F)));
  }

  /** Every character but an overfull backspace keeps a screen tidy exactly when rows have at most 255 cells. */
  lemma WidthExact(width: nat)
    requires width >= 1
    ensures width <= 255 <==>
            forall s: Screen, c: char, color: nat {:trigger Step(s, c, color)} ::
              s.width == width && Tidy(s) && !OverfullBack(s, c) ==> Tidy(Step(s, c, color))
  {
    if width <= 255 {
      forall s: Screen, c: char, color: nat | s.width == width && Tidy(s) && !OverfullBack(s, c)
        ensures Tidy(Step(s, c, color))
      {
        InvStep(s, c, color);
      }
    } else {
      LongRow(width, 2);
      LettersOnRow(width, 2, 255);
      OneMoreLetter(BlankScreen(width, 2, 0), 255);
      var s := Run(BlankScreen(width, 2, 0), Puts(Xs(255), 0x0F));
      assert !OverfullBack(s, 'x') && !Tidy(Step(s, 'x', 0x0F));
    }
  }

  // ---- The screen is a window onto an endless terminal -------------------------------------------------

  /** Screen row `r` is row `k + r` of the endless terminal `d`, after `k` rows have scrolled off. */
  ghost predicate Window(d: Screen, s: Screen, k: nat) {
    && d.endless && !s.endless && d.Sized() && s.Sized()
    && d.width == s.width
    && |d.rows| == k + |s.rows|
    && (forall r :: 0 <= r < |s.rows| ==> s.rows[r] == d.rows[k + r])
    && d.row == k + s.row && d.col == s.col
  }

  /** A backspace at the top left, when the endless terminal still has a row above. */
  predicate BackOffTop(s: Screen, k: nat, c: char) {
    c == BACKSPACE && s.row == 0 && s.col == 0 && k > 0
  }

  lemma WindowNextRow(d: Screen, s: Screen, k: nat)
    requires Window(d, s, k)
    ensures var k' := if s.row + 1 < |s.rows| then k else k + 1;
            Window(NextRow(d), NextRow(s), k') && NextRow(d).rows[..k] == d.rows[..k]
  {
  }

  lemma WindowDraw(d: Screen, s: Screen, k: nat, c: char, color: nat) returns (k': nat)
    requires Window(d, s, k)
    ensures k <= k' <= |Draw(d, c, color).rows|
    ensures Window(Draw(d, c, color), Draw(s, c, color), k')
    ensures Draw(d, c, color).rows[..k] == d.rows[..k]
  {
    k' := k;
    var line := PutCell(s.rows[s.row], s.col, Cell(c, color));
    var len := if s.col + 1 > line.len then (s.col + 1) % 256 else line.len;
    var s1 := s.(rows := s.rows[s.row := line.(len := len)], col := s.col + 1);
    var d1 := d.(rows := d.rows[d.row := line.(len := len)], col := s.col + 1);
    assert d.rows[d.row] == s.rows[s.row];
    assert d1.rows[..k] == d.rows[..k];
    assert Window(d1, s1, k);
    if s.col + 1 >= s.width {
      WindowNextRow(d1, s1, k);
      k' := if s.row + 1 < |s.rows| then k else k + 1;
    }
  }

  lemma WindowBack(d: Screen, s: Screen, k: nat)
    requires Window(d, s, k) && !(s.row == 0 && s.col == 0 && k > 0)
    ensures Window(Back(d), Back(s), k) && Back(d).rows[..k] == d.rows[..k]
  {
    if s.row > 0 || s.col > 0 {
      var (row, col) := BackTo(s);
      assert BackTo(d) == (k + row, col);
    }
  }

  /** One character: the window moves down by the rows that scroll off, and only rows below the top change. */
  lemma WindowStep(d: Screen, s: Screen, k: nat, c: char, color: nat) returns (k': nat)
    requires Window(d, s, k) && !BackOffTop(s, k, c)
    ensures k <= k' <= |Step(d, c, color).rows|
    ensures Window(Step(d, c, color), Step(s, c, color), k')
    ensures Step(d, c, color).rows[..k] == d.rows[..k]
  {
    hide Draw, Back, NextRow;
    k' := k;
    if Printable(c) {
      k' := WindowDraw(d, s, k, c, color);
    } else if c == '\n' || (c == '\t' && s.col + 2 - s.col % 2 >= s.width) {
      WindowNextRow(d, s, k);
      k' := if s.row + 1 < |s.rows| then k else k + 1;
    } else if c == BACKSPACE {
      WindowBack(d, s, k);
    }
  }

  /** At the top left the endless terminal goes back a row and the screen does not: the window is lost. */
  lemma WindowLost(d: Screen, s: Screen, k: nat, c: char, color: nat, k': nat)
    requires Window(d, s, k) && BackOffTop(s, k, c)
    ensures !Window(Step(d, c, color), Step(s, c, color), k')
  {
  }

  /** How many rows of the endless terminal are above the screen. */
  function Above(d: Screen, s: Screen): nat {
    if |d.rows| >= |s.rows| then |d.rows| - |s.rows| else 0
  }

  /** An event that keeps the window: no backspace at the top left, and no clearing, once rows have scrolled off. */
  predicate KeepsWindow(s: Screen, k: nat, e: Event) {
    match e
    case Put(c, _) => !BackOffTop(s, k, c)
    case Clear(_) => k == 0
  }

  predicate StaysBelow(d: Screen, s: Screen, es: seq<Event>)
    requires d.Sized() && s.Sized()
    decreases |es|
  {
    es == [] ||
    var front, last := es[..|es| - 1], es[|es| - 1];
    StaysBelow(d, s, front) && KeepsWindow(Run(s, front), Above(Run(d, front), Run(s, front)), last)
  }

  lemma WindowApply(d: Screen, s: Screen, k: nat, e: Event)
    requires Window(d, s, k) && KeepsWindow(s, k, e)
    ensures var k' := Above(Apply(d, e), Apply(s, e));
            k <= k' <= |Apply(d, e).rows| && Window(Apply(d, e), Apply(s, e), k')
    ensures Apply(d, e).rows[..k] == d.rows[..k]
  {
    hide Step;
    match e
    case Put(c, color) =>
      var k' := WindowStep(d, s, k, c, color);
    case Clear(color) =>
  }

  lemma WindowBroken(d: Screen, s: Screen, k: nat, e: Event, k': nat)
    requires Window(d, s, k) && !KeepsWindow(s, k, e)
    ensures !Window(Apply(d, e), Apply(s, e), k')
  {
  }

  /**
   Over any run the screen shows the bottom of the endless terminal, and the rows that had scrolled off
   before the run never change: scrolling loses rows off the top and nothing else.
   */
  lemma {:induction false} WindowRun(d: Screen, s: Screen, k: nat, es: seq<Event>)
    requires Window(d, s, k) && StaysBelow(d, s, es)
    ensures var k' := Above(Run(d, es), Run(s, es));
            k <= k' <= |Run(d, es).rows| && Window(Run(d, es), Run(s, es), k')
    ensures Run(d, es).rows[..k] == d.rows[..k]
    decreases |es|
  {
    hide Apply, KeepsWindow;
    if es != [] {
      var front, last := es[..|es| - 1], es[|es| - 1];
      WindowRun(d, s, k, front);
      WindowApply(Run(d, front), Run(s, front), Above(Run(d, front), Run(s, front)), last);
    }
  }

  /** The screen is a window onto the endless terminal after the first `n` events of the run. */
  ghost predicate WindowAt(d: Screen, s: Screen, es: seq<Event>, n: nat)
    requires d.Sized() && s.Sized() && n <= |es|
  {
    var d', s' := Run(d, es[..n]), Run(s, es[..n]);
    Window(d', s', Above(d', s'))
  }

  lemma {:induction false} StaysBelowPrefix(d: Screen, s: Screen, es: seq<Event>, n: nat)
    requires d.Sized() && s.Sized() && StaysBelow(d, s, es) && n <= |es|
    ensures StaysBelow(d, s, es[..n])
    decreases |es|
  {
    if n < |es| {
      assert es[..|es| - 1][..n] == es[..n];
      StaysBelowPrefix(d, s, es[..|es| - 1], n);
    } else {
      assert es[..n] == es;
    }
  }

  /** A run that goes above the top loses the window at some point. */
  lemma {:induction false} WindowLostAt(d: Screen, s: Screen, k: nat, es: seq<Event>) returns (n: nat)
    requires Window(d, s, k) && !StaysBelow(d, s, es)
    ensures n <= |es| && !WindowAt(d, s, es, n)
    decreases |es|
  {
    hide Apply, KeepsWindow;
    var front := es[..|es| - 1];
    if StaysBelow(d, s, front) {
      WindowRun(d, s, k, front);
      var d', s' := Run(d, front), Run(s, front);
      assert es[..|es|] == es;
      WindowBroken(d', s', Above(d', s'), es[|es| - 1], Above(Run(d, es), Run(s, es)));
      n := |es|;
    } else {
      n := WindowLostAt(d, s, k, front);
      assert front[..n] == es[..n];
    }
  }

  /** The screen is a window at every point of a run exactly when the run stays below the top. */
  lemma RunWindow(d: Screen, s: Screen, k: nat, es: seq<Event>)
    requires Window(d, s, k)
    ensures StaysBelow(d, s, es) <==> forall n: nat | n <= |es| :: WindowAt(d, s, es, n)
  {
    if StaysBelow(d, s, es) {
      forall n: nat | n <= |es| ensures WindowAt(d, s, es, n) {
        StaysBelowPrefix(d, s, es, n);
        WindowRun(d, s, k, es[..n]);
      }
    } else {
      var n := WindowLostAt(d, s, k, es);
    }
  }

  /** From any screen on: a scrolling terminal is the bottom of one that never scrolls. */
  lemma ScrollingIsWindow(s: Screen, es: seq<Event>)
    requires s.Sized() && !s.endless && StaysBelow(s.(endless := true), s, es)
    ensures var d := Run(s.(endless := true), es);
            Window(d, Run(s, es), Above(d, Run(s, es)))
  {
    WindowRun(s.(endless := true), s, 0, es);
  }

  // ---- Backspaces undo text ------------------------------------------------------------------------------

  /** The same to look at: blank cells may differ in how they came to be blank. */
  predicate CellsAlike(c: Cell, d: Cell) {
    c == d || (Blank(c) && Blank(d))
  }

  ghost predicate RowsAlike(r: Row, q: Row) {
    && r.len == q.len && |r.cells| == |q.cells|
    && forall x :: 0 <= x < |r.cells| ==> CellsAlike(r.cells[x], q.cells[x])
  }

  ghost predicate Alike(s: Screen, t: Screen) {
    && s.width == t.width && s.row == t.row && s.col == t.col && s.endless == t.endless
    && |s.rows| == |t.rows|
    && forall r :: 0 <= r < |s.rows| ==> RowsAlike(s.rows[r], t.rows[r])
  }

  lemma AlikeTransitive(s: Screen, t: Screen, u: Screen)
    requires Alike(s, t) && Alike(t, u)
    ensures Alike(s, u)
  {
    forall r | 0 <= r < |s.rows|
      ensures RowsAlike(s.rows[r], u.rows[r])
    {
      assert RowsAlike(s.rows[r], t.rows[r]) && RowsAlike(t.rows[r], u.rows[r]);
    }
  }

  /** Screens that look alike still do after a backspace on both. */
  lemma AlikeBack(s: Screen, t: Screen)
    requires Alike(s, t) && s.Sized() && t.Sized()
    ensures Alike(Back(s), Back(t))
  {
    if s.row > 0 || s.col > 0 {
      if s.col == 0 {
        assert RowsAlike(s.rows[s.row - 1], t.rows[s.row - 1]);
      }
      var (row, col) := BackTo(s);
      assert RowsAlike(s.rows[row], t.rows[row]);
      assert RowsAlike(Back(s).rows[row], Back(t).rows[row]);
    }
  }

  /** The cursor stands at the end of its row: every character of the row counts in `line_len`. */
  predicate AtEnd(s: Screen) {
    s.Sized() && s.rows[s.row].len == s.col
  }

  /** A printable character that does not fill the row, or a newline that does not scroll. */
  predicate Calm(s: Screen, c: char) {
    (Printable(c) && s.col + 1 < s.width) || (c == '\n' && s.row + 1 < |s.rows|)
  }

  lemma UndoPrintable(s: Screen, c: char, color: nat)
    requires Inv(s) && AtEnd(s) && Printable(c) && s.col + 1 < s.width
    ensures AtEnd(Step(s, c, color)) && Alike(Back(Step(s, c, color)), s)
  {
    var t := Draw(s, c, color);
    assert t.rows[s.row].len == s.col + 1;
    assert RowOk(s.rows[s.row], s.width);
    assert Back(t).rows[s.row].cells == s.rows[s.row].cells[s.col := Cell(' ', 0)];
    assert RowsAlike(Back(t).rows[s.row], s.rows[s.row]);
  }

  lemma UndoNewline(s: Screen, color: nat)
    requires Inv(s) && AtEnd(s) && s.row + 1 < |s.rows|
    ensures AtEnd(Step(s, '\n', color)) && Alike(Back(Step(s, '\n', color)), s)
  {
    var t := NextRow(s);
    assert RowOk(s.rows[s.row], s.width);
    assert BackTo(t) == (s.row, s.col);
    assert RowsAlike(Back(t).rows[s.row], s.rows[s.row]);
  }

  /** A text as the events that print it. */
  function Puts(text: string, color: nat): (es: seq<Event>)
    ensures |es| == |text|
  {
    seq(|text|, i requires 0 <= i < |text| => Put(text[i], color))
  }

  /** The text followed by one backspace for each of its characters. */
  function Undone(text: string): string {
    text + seq(|text|, _ => BACKSPACE)
  }

  ghost predicate CalmText(s: Screen, text: string, color: nat)
    requires s.Sized()
    decreases |text|
  {
    text == [] || (Calm(s, text[0]) && CalmText(Step(s, text[0], color), text[1..], color))
  }

  lemma RunOne(s: Screen, e: Event)
    requires s.Sized()
    ensures Run(s, [e]) == Apply(s, e)
    ensures WellBehaved(s, [e]) <==> Behaves(s, e)
  {
    assert [e][..0] == [];
  }

  lemma UndoneUnfold(text: string, color: nat)
    requires text != []
    ensures Puts(Undone(text), color) ==
            [Put(text[0], color)] + Puts(Undone(text[1..]), color) + [Put(BACKSPACE, color)]
  {
  }

  lemma UndoChar(s: Screen, c: char, color: nat)
    requires Inv(s) && AtEnd(s) && Calm(s, c)
    ensures var t := Step(s, c, color);
            Inv(t) && AtEnd(t) && Alike(Back(t), s) && !OverfullBack(t, BACKSPACE)
  {
    InvStep(s, c, color);
    if c == '\n' {
      UndoNewline(s, color);
    } else {
      UndoPrintable(s, c, color);
    }
  }

  /**
   Printing a text that neither fills a row nor scrolls, and then as many backspaces, is well behaved
   and gives back the screen: cursor, row lengths, and every cell up to blankness.
   */
  lemma {:induction false} UndoText(s: Screen, text: string, color: nat)
    requires Inv(s) && AtEnd(s) && CalmText(s, text, color)
    ensures Alike(Run(s, Puts(Undone(text), color)), s)
    ensures WellBehaved(s, Puts(Undone(text), color))
    decreases |text|
  {
    if text != [] {
      var c, rest := text[0], text[1..];
      var s1 := Step(s, c, color);
      UndoChar(s, c, color);
      UndoText(s1, rest, color);
      var t := Run(s1, Puts(Undone(rest), color));
      AlikeBack(t, s1);
      AlikeTransitive(Back(t), Back(s1), s);
      AlikeOverfull(t, s1);
      UndoSplit(s, text, color);
    }
  }

  lemma AlikeOverfull(s: Screen, t: Screen)
    requires Alike(s, t) && s.Sized() && t.Sized()
    ensures OverfullBack(s, BACKSPACE) == OverfullBack(t, BACKSPACE)
  {
    if s.row > 0 {
      assert RowsAlike(s.rows[s.row - 1], t.rows[s.row - 1]);
    }
  }

  lemma UndoSplit(s: Screen, text: string, color: nat)
    requires s.Sized() && text != []
    ensures var s1 := Step(s, text[0], color);
            var t := Run(s1, Puts(Undone(text[1..]), color));
            && Run(s, Puts(Undone(text), color)) == Back(t)
            && (WellBehaved(s, Puts(Undone(text), color)) <==>
                !OverfullBack(s, text[0]) && WellBehaved(s1, Puts(Undone(text[1..]), color)) &&
                !OverfullBack(t, BACKSPACE))
  {
    hide Draw, NextRow, Tab, Back, Undone, Puts;
    var first, rest := Put(text[0], color), Puts(Undone(text[1..]), color);
    UndoneUnfold(text, color);
    RunOne(s, first);
    RunAppend(s, [first], rest);
    RunOne(Run(s, [first] + rest), Put(BACKSPACE, color));
    RunAppend(s, [first] + rest, [Put(BACKSPACE, color)]);
  }
}
