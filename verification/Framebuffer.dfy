/**
 The terminal of kernel/vga.c over its linear framebuffer.  Every pixel of the text area is the
 rendering of a cell of the screen in Screens.dfy; pixels outside it are left alone.
 */
module Framebuffer {
  import opened Arith
  import opened Editing
  import opened Screens

  const PALETTE: seq<nat> := [
    0x000000, 0x0000AA, 0x00AA00, 0x00AAAA,
    0xAA0000, 0xAA00AA, 0xAA5500, 0xAAAAAA,
    0x555555, 0x5555FF, 0x55FF55, 0x55FFFF,
    0xFF5555, 0xFF55FF, 0xFFFF55, 0xFFFFFF
  ]

  const MAX_ROWS := 256

  /** A glyph for each of the 128 basic characters, one byte per pixel row; the space is empty. */
  ghost predicate IsFont(font: seq<seq<nat>>) {
    && |font| == 128
    && (forall c :: 0 <= c < 128 ==> |font[c]| == 8)
    && (forall c, y :: 0 <= c < 128 && 0 <= y < 8 ==> font[c][y] < 256)
    && (forall y :: 0 <= y < 8 ==> font[32][y] == 0)
  }

  function FgRgb(color: nat): nat { PALETTE[color % 16] }

  function BgRgb(color: nat): nat { PALETTE[color / 16 % 16] }

  /** Bit `x` of a glyph row is set. */
  predicate Bit(bits: nat, x: nat)
    requires x < 8
  {
    bits / [1, 2, 4, 8, 16, 32, 64, 128][x] % 2 == 1
  }

  /** Pixel (`x`, `y`) of a cell. */
  function CellPixel(font: seq<seq<nat>>, cell: Cell, y: nat, x: nat): nat
    requires IsFont(font) && Printable(cell.ch) && y < 8 && x < 8
  {
    if Bit(font[cell.ch as int][y], x) then FgRgb(cell.color) else BgRgb(cell.color)
  }

  /** Cells that look alike have the same pixels. */
  lemma AlikePixels(font: seq<seq<nat>>, c: Cell, d: Cell, y: nat, x: nat)
    requires IsFont(font) && Printable(c.ch) && Printable(d.ch) && y < 8 && x < 8
    requires CellsAlike(c, d)
    ensures CellPixel(font, c, y, x) == CellPixel(font, d, y, x)
  {
    assert font[32][y] == 0 && !Bit(0, x);
  }

  /** The palette: three bits choose red, green and blue, the fourth brightens; dark yellow is shown as brown. */
  lemma Palette(i: nat)
    requires i < 16
    ensures |PALETTE| == 16
    ensures PALETTE[i] ==
            if i == 6 then 0xAA5500
            else 0x10000 * (0xAA * (i / 4 % 2) + 0x55 * (i / 8)) +
                 0x100 * (0xAA * (i / 2 % 2) + 0x55 * (i / 8)) +
                 0xAA * (i % 2) + 0x55 * (i / 8)
    ensures FgRgb(0x0F) == 0xFFFFFF && BgRgb(0x0F) == 0x000000
  {
    match i
    case 0 | 1 | 2 | 3 =>
    case 4 | 5 | 6 | 7 =>
    case 8 | 9 | 10 | 11 =>
    case _ =>
  }

  /** The foreground is the low half of a colour byte and the background the high half. */
  lemma ColorHalves(fg: nat, bg: nat)
    requires fg < 16 && bg < 16
    ensures FgRgb(16 * bg + fg) == PALETTE[fg] && BgRgb(16 * bg + fg) == PALETTE[bg]
  {
    hide PALETTE;
    Quotient(16 * bg + fg, 16, bg, fg);
    Quotient(bg, 16, 0, bg);
  }

  /** One if a pixel has the foreground colour, else zero. */
  function Lit(pixel: nat, fg: nat): nat {
    if pixel == fg then 1 else 0
  }

  /** Eight pixels read as a byte, the leftmost the lowest bit. */
  function ByteOf(px: seq<nat>, fg: nat): nat
    requires |px| == 8
  {
    Lit(px[0], fg) + 2 * Lit(px[1], fg) + 4 * Lit(px[2], fg) + 8 * Lit(px[3], fg) +
    16 * Lit(px[4], fg) + 32 * Lit(px[5], fg) + 64 * Lit(px[6], fg) + 128 * Lit(px[7], fg)
  }

  /** A byte is the sum of its bits. */
  lemma BitsSum(b: nat)
    requires b < 256
    ensures b == b % 2 + 2 * (b / 2 % 2) + 4 * (b / 4 % 2) + 8 * (b / 8 % 2) +
                 16 * (b / 16 % 2) + 32 * (b / 32 % 2) + 64 * (b / 64 % 2) + 128 * (b / 128 % 2)
  {
    HalfOf(b, 2);
    HalfOf(b, 4);
    HalfOf(b, 8);
    HalfOf(b, 16);
    HalfOf(b, 32);
    HalfOf(b, 64);
    Quotient(b / 128, 2, 0, b / 128);
  }

  lemma HalfOf(b: nat, k: nat)
    requires k > 0
    ensures 0 <= b / k && b / k == 2 * (b / (2 * k)) + b / k % 2
  {
    var q := b / k;
    DivMod(b, k);
    assert k * q == 2 * k * (q / 2) + k * (q % 2);
    MulMonotonic(q % 2, 1, k, k);
    Quotient(b, 2 * k, q / 2, k * (q % 2) + b % k);
  }

  /** A pixel is lit exactly if its bit of the glyph is set. */
  lemma PixelBit(font: seq<seq<nat>>, cell: Cell, fg: nat, bg: nat, y: nat, x: nat, k: nat)
    requires IsFont(font) && Printable(cell.ch) && fg < 16 && bg < 16 && y < 8 && x < 8
    requires cell.color == 16 * bg + fg && PALETTE[fg] != PALETTE[bg]
    requires k == [1, 2, 4, 8, 16, 32, 64, 128][x]
    ensures CellPixel(font, cell, y, x) == PALETTE[fg] || CellPixel(font, cell, y, x) == PALETTE[bg]
    ensures Lit(CellPixel(font, cell, y, x), PALETTE[fg]) == font[cell.ch as int][y] / k % 2
  {
    hide FgRgb, BgRgb;
    ColorHalves(fg, bg);
  }

  /**
   A row of a cell reads back as the row of the glyph: the pixels in the foreground colour are its set
   bits, the lowest bit on the left.
   */
  lemma GlyphRow(font: seq<seq<nat>>, cell: Cell, fg: nat, bg: nat, y: nat, px: seq<nat>)
    requires IsFont(font) && Printable(cell.ch) && fg < 16 && bg < 16 && y < 8
    requires cell.color == 16 * bg + fg && PALETTE[fg] != PALETTE[bg]
    requires |px| == 8 && forall x :: 0 <= x < 8 ==> px[x] == CellPixel(font, cell, y, x)
    ensures ByteOf(px, PALETTE[fg]) == font[cell.ch as int][y]
  {
    hide CellPixel, Lit;
    PixelBit(font, cell, fg, bg, y, 0, 1);
    PixelBit(font, cell, fg, bg, y, 1, 2);
    PixelBit(font, cell, fg, bg, y, 2, 4);
    PixelBit(font, cell, fg, bg, y, 3, 8);
    PixelBit(font, cell, fg, bg, y, 4, 16);
    PixelBit(font, cell, fg, bg, y, 5, 32);
    PixelBit(font, cell, fg, bg, y, 6, 64);
    PixelBit(font, cell, fg, bg, y, 7, 128);
    BitsSum(font[cell.ch as int][y]);
  }

  // ---- Pixel addresses ------------------------------------------------------------------------------

  function At(pitch: nat, y: nat, x: nat): nat {
    y * pitch + x
  }

  lemma AtBound(pitch: nat, y: nat, x: nat, height: nat, length: nat)
    requires y < height && x < pitch && height * pitch <= length
    ensures At(pitch, y, x) < length
  {
    assert (y + 1) * pitch <= height * pitch;
  }

  lemma AtInside(pitch: nat, y: nat, x: nat, height: nat, length: nat)
    requires y < height && x < 2 * pitch && (x >= pitch ==> y + 1 < height) && height * pitch <= length
    ensures At(pitch, y, x) < length
  {
    if x < pitch {
      AtBound(pitch, y, x, height, length);
    } else {
      AtBound(pitch, y + 1, x - pitch, height, length);
    }
  }

  /** Different pixels have different addresses. */
  lemma AtInjective(pitch: nat, y: nat, x: nat, y': nat, x': nat)
    requires x < pitch && x' < pitch && At(pitch, y, x) == At(pitch, y', x')
    ensures y == y' && x == x'
  {
    Quotient(At(pitch, y, x), pitch, y, x);
    Quotient(At(pitch, y', x'), pitch, y', x');
  }

  /** A column past the end of a pixel row is the start of the next one. */
  predicate SamePixel(pitch: nat, y: nat, x: nat, y0: nat, x0: nat) {
    (y == y0 && x == x0) || (y == y0 + 1 && x + pitch == x0)
  }

  lemma AtOnly(pitch: nat, y0: nat, x0: nat)
    requires x0 < 2 * pitch
    ensures forall y: nat, x: nat {:trigger At(pitch, y, x)} ::
      x < pitch ==> (At(pitch, y, x) == At(pitch, y0, x0) <==> SamePixel(pitch, y, x, y0, x0))
  {
    var y1, x1 := if x0 < pitch then y0 else y0 + 1, if x0 < pitch then x0 else x0 - pitch;
    assert At(pitch, y1, x1) == At(pitch, y0, x0);
    forall y: nat, x: nat | x < pitch
      ensures At(pitch, y, x) == At(pitch, y0, x0) <==> SamePixel(pitch, y, x, y0, x0)
    {
      if At(pitch, y, x) == At(pitch, y1, x1) {
        AtInjective(pitch, y, x, y1, x1);
      }
    }
  }

  // ---- The terminal ------------------------------------------------------------------------------------

  class Terminal {
    const font: seq<seq<nat>>
    const fb: array<nat>
    const pitch: nat
    const width: nat
    const height: nat
    const cols: nat
    const rows: nat
    const lineLen: array<nat>
    var cursorRow: nat
    var cursorColumn: nat
    var textColor: nat
    ghost var screen: Screen

    /** The framebuffer the bootloader describes is large enough for the text area. */
    ghost predicate Fits() {
      && IsFont(font)
      && 8 * cols <= width <= pitch && 8 * rows <= height
      && 1 <= cols && 1 <= rows <= MAX_ROWS
      && height * pitch <= fb.Length
      && lineLen.Length == MAX_ROWS
      && fb != lineLen
    }

    /**
     `vga_init`: the text area is what fits in whole glyphs, up to 256 rows.  It can be used when there
     is at least one cell and the buffer is as large as the bootloader's description says.
     */
    constructor (font: seq<seq<nat>>, fb: array<nat>, pitchBytes: nat, width: nat, height: nat)
      requires IsFont(font)
      ensures Fits() <==>
              8 <= width <= pitchBytes / 4 && 8 <= height && height * (pitchBytes / 4) <= fb.Length
      ensures this.font == font && this.fb == fb && fresh(lineLen) && lineLen.Length == MAX_ROWS
      ensures this.width == width && this.height == height && pitch == pitchBytes / 4
      ensures cols == width / 8 && rows == if height / 8 > MAX_ROWS then MAX_ROWS else height / 8
      ensures cursorRow == 0 && cursorColumn == 0 && textColor == 0x0F
      ensures forall r :: 0 <= r < MAX_ROWS ==> lineLen[r] == 0
    {
      this.font, this.fb, this.width, this.height := font, fb, width, height;
      pitch := pitchBytes / 4;
      cols := width / 8;
      rows := if height / 8 > MAX_ROWS then MAX_ROWS else height / 8;
      lineLen := new nat[MAX_ROWS](_ => 0);
      cursorRow, cursorColumn, textColor := 0, 0, 0x0F;
    }

    ghost predicate InBuffer(y: nat, x: nat) {
      y < height && x < pitch
    }

    /** The pixel in row `y`, column `x` of the buffer. */
    ghost function Px(y: nat, x: nat): nat
      requires Fits() && InBuffer(y, x)
      reads fb
    {
      AtBound(pitch, y, x, height, fb.Length);
      fb[At(pitch, y, x)]
    }

    ghost predicate InText(y: nat, x: nat) {
      y < 8 * rows && x < 8 * cols
    }

    /** The screen has the size of the text area and only characters that have a glyph. */
    ghost predicate Renders(s: Screen) {
      && s.Sized() && s.width == cols && |s.rows| == rows && !s.endless
      && forall r, x :: 0 <= r < rows && 0 <= x < cols ==> Printable(s.rows[r].cells[x].ch)
    }

    ghost function Pixel(s: Screen, y: nat, x: nat): nat
      requires IsFont(font) && Renders(s) && InText(y, x)
    {
      CellPixel(font, s.rows[y / 8].cells[x / 8], y % 8, x % 8)
    }

    /** Every pixel of the text area is the rendering of `s`. */
    ghost predicate Shows(s: Screen)
      requires Fits()
      reads fb
    {
      && Renders(s)
      && forall y: nat, x: nat {:trigger Px(y, x)} :: InText(y, x) ==>
        Px(y, x) == Pixel(s, y, x)
    }

    /** Write one pixel of the linear buffer, the next row's if the column is past the end. */
    method SetPixel(y0: nat, x0: nat, v: nat)
      requires Fits() && y0 < height && x0 < 2 * pitch && (x0 >= pitch ==> y0 + 1 < height)
      modifies fb
      ensures forall y: nat, x: nat {:trigger Px(y, x)} :: InBuffer(y, x) ==>
        Px(y, x) == if SamePixel(pitch, y, x, y0, x0) then v else old(Px(y, x))
    {
      hide SamePixel;
      AtInside(pitch, y0, x0, height, fb.Length);
      AtOnly(pitch, y0, x0);
      hide At;
      fb[At(pitch, y0, x0)] := v;
    }

    /** Pixel (`y`, `x`) is drawn by the first `j` rows and `i` pixels of a cell. */
    predicate Inked(col: nat, row: nat, j: nat, i: nat, y: nat, x: nat) {
      y / 8 == row && x / 8 == col && (y % 8 < j || (y % 8 == j && x % 8 < i))
    }

    /** The pixel after part of a cell has been drawn over `before`; in column `cols` a cell may wrap. */
    ghost function Inking(col: nat, row: nat, cell: Cell, j: nat, i: nat, y: nat, x: nat, before: nat): nat
      requires IsFont(font) && Printable(cell.ch)
    {
      if Inked(col, row, j, i, y, x) then CellPixel(font, cell, y % 8, x % 8)
      else if y > 0 && Inked(col, row, j, i, y - 1, x + pitch) then
        CellPixel(font, cell, (y - 1) % 8, (x + pitch) % 8)
      else before
    }

    /** One more pixel of a cell. */
    lemma InkNext(col: nat, row: nat, cell: Cell, j: nat, i: nat)
      requires IsFont(font) && Printable(cell.ch) && j < 8 && i < 8 && pitch >= 8
      ensures forall y: nat, x: nat, before: nat {:trigger Inking(col, row, cell, j, i + 1, y, x, before)} ::
        x < pitch ==>
          Inking(col, row, cell, j, i + 1, y, x, before) ==
            if SamePixel(pitch, y, x, 8 * row + j, 8 * col + i) then CellPixel(font, cell, j, i)
            else Inking(col, row, cell, j, i, y, x, before)
    {
      hide CellPixel;
    }

    /** One more pixel row of a cell. */
    lemma InkRow(col: nat, row: nat, cell: Cell, j: nat)
      requires IsFont(font) && Printable(cell.ch) && j < 8
      ensures forall y: nat, x: nat, before: nat {:trigger Inking(col, row, cell, j + 1, 0, y, x, before)} ::
        Inking(col, row, cell, j + 1, 0, y, x, before) == Inking(col, row, cell, j, 8, y, x, before)
    {
      hide CellPixel;
    }

    /** Nothing is drawn yet, and at the end a cell in the text area is drawn in its place. */
    lemma InkEnds(col: nat, row: nat, cell: Cell)
      requires IsFont(font) && Printable(cell.ch)
      ensures forall y: nat, x: nat, before: nat {:trigger Inking(col, row, cell, 0, 0, y, x, before)} ::
        Inking(col, row, cell, 0, 0, y, x, before) == before
      ensures 8 * (col + 1) <= pitch ==>
        forall y: nat, x: nat, before: nat {:trigger Inking(col, row, cell, 8, 0, y, x, before)} ::
          Inking(col, row, cell, 8, 0, y, x, before) ==
            if y / 8 == row && x / 8 == col then CellPixel(font, cell, y % 8, x % 8) else before
    {
      hide CellPixel;
    }

    /** `draw_cell`: the 64 pixels of one cell, and no others.  Column `cols` is just outside the text area. */
    method DrawCell(col: nat, row: nat, c: char, color: nat)
      requires Fits() && col <= cols && row < rows && Printable(c) && (col == cols ==> row + 1 < rows)
      modifies fb
      ensures forall y: nat, x: nat {:trigger Px(y, x)} :: InBuffer(y, x) ==>
        Px(y, x) == Inking(col, row, Cell(c, color), 8, 0, y, x, old(Px(y, x)))
      ensures col < cols ==>
        forall y: nat, x: nat {:trigger Px(y, x)} :: InBuffer(y, x) ==>
          Px(y, x) ==
            if y / 8 == row && x / 8 == col then CellPixel(font, Cell(c, color), y % 8, x % 8)
            else old(Px(y, x))
    {
      hide At, Px, Inking, SamePixel;
      ghost var cell := Cell(c, color);
      InkEnds(col, row, cell);
      var fg, bg := FgRgb(color), BgRgb(color);
      var glyph := font[c as int];
      var px0, py0 := 8 * col, 8 * row;
      for j := 0 to 8
        invariant forall y: nat, x: nat {:trigger Px(y, x)} :: InBuffer(y, x) ==>
          Px(y, x) == Inking(col, row, Cell(c, color), j, 0, y, x, old(Px(y, x)))
      {
        for i := 0 to 8
          invariant forall y: nat, x: nat {:trigger Px(y, x)} :: InBuffer(y, x) ==>
            Px(y, x) == Inking(col, row, Cell(c, color), j, i, y, x, old(Px(y, x)))
        {
          InkNext(col, row, cell, j, i);
          SetPixel(py0 + j, px0 + i, if Bit(glyph[j], i) then fg else bg);
        }
        InkRow(col, row, cell, j);
      }
    }

    /** The pixels of the buffer that are not part of the text area have not changed. */
    twostate predicate OutsideSame()
      requires Fits()
      reads fb
    {
      forall y: nat, x: nat {:trigger Px(y, x)} :: InBuffer(y, x) && !InText(y, x) ==>
        Px(y, x) == old(Px(y, x))
    }

    /**
     `vga_up`: the text area as it was, moved up by eight pixel rows all at once, with a blank last
     row of text; `line_len` moves with it.
     */
    method VgaUp()
      requires Fits()
      modifies fb, lineLen
      ensures forall y: nat, x: nat {:trigger Px(y, x)} :: InBuffer(y, x) ==>
        Px(y, x) ==
          if x < 8 * cols && y < 8 * (rows - 1) then old(Px(y + 8, x))
          else if x < 8 * cols && y < 8 * rows then CellPixel(font, Cell(' ', 0x07), y % 8, x % 8)
          else old(Px(y, x))
      ensures forall r :: 0 <= r < MAX_ROWS ==>
        lineLen[r] == if r < rows - 1 then old(lineLen[r + 1]) else if r == rows - 1 then 0 else old(lineLen[r])
    {
      MoveRows();
      label Moved:
      for i := 0 to cols
        invariant forall y: nat, x: nat {:trigger Px(y, x)} :: InBuffer(y, x) ==>
          Px(y, x) ==
            if x < 8 * i && y < 8 * rows && y >= 8 * (rows - 1) then CellPixel(font, Cell(' ', 0x07), y % 8, x % 8)
            else old@Moved(Px(y, x))
        invariant forall r :: 0 <= r < MAX_ROWS ==> lineLen[r] == old(lineLen[r])
      {
        hide At;
        DrawCell(i, rows - 1, ' ', 0x07);
      }
      for r := 1 to rows
        invariant forall y: nat, x: nat {:trigger Px(y, x)} :: InBuffer(y, x) ==>
          Px(y, x) ==
            if x < 8 * cols && y < 8 * rows && y >= 8 * (rows - 1) then CellPixel(font, Cell(' ', 0x07), y % 8, x % 8)
            else old@Moved(Px(y, x))
        invariant forall q :: 0 <= q < MAX_ROWS ==>
          lineLen[q] == if q < r - 1 then old(lineLen[q + 1]) else old(lineLen[q])
      {
        lineLen[r - 1] := lineLen[r];
      }
      lineLen[rows - 1] := 0;
    }

    /** Copy one pixel row of the text area eight rows up. */
    method CopyRow(y0: nat)
      requires Fits() && 8 <= y0 < 8 * rows
      modifies fb
      ensures forall y: nat, x: nat {:trigger Px(y, x)} :: InBuffer(y, x) ==>
        Px(y, x) == if x < 8 * cols && y == y0 - 8 then old(Px(y0, x)) else old(Px(y, x))
    {
      hide At;
      for x0 := 0 to 8 * cols
        invariant forall y: nat, x: nat {:trigger Px(y, x)} :: InBuffer(y, x) ==>
          Px(y, x) == if x < x0 && y == y0 - 8 then old(Px(y0, x)) else old(Px(y, x))
      {
        AtBound(pitch, y0, x0, height, fb.Length);
        assert Px(y0, x0) == old(Px(y0, x0));
        SetPixel(y0 - 8, x0, fb[At(pitch, y0, x0)]);
      }
    }

    /** The forward copy of `vga_up` reads every pixel before it is overwritten. */
    method MoveRows()
      requires Fits()
      modifies fb
      ensures forall y: nat, x: nat {:trigger Px(y, x)} :: InBuffer(y, x) ==>
        Px(y, x) == if x < 8 * cols && y < 8 * (rows - 1) then old(Px(y + 8, x)) else old(Px(y, x))
    {
      for y0 := 8 to 8 * rows
        invariant forall y: nat, x: nat {:trigger Px(y, x)} :: InBuffer(y, x) ==>
          Px(y, x) == if x < 8 * cols && y < y0 - 8 then old(Px(y + 8, x)) else old(Px(y, x))
      {
        hide At, Px;
        CopyRow(y0);
      }
    }

    twostate lemma ShowsMoved(s: Screen)
      requires Fits() && old(Shows(s))
      requires forall y: nat, x: nat {:trigger Px(y, x)} :: InBuffer(y, x) ==>
        Px(y, x) ==
          if x < 8 * cols && y < 8 * (rows - 1) then old(Px(y + 8, x))
          else if x < 8 * cols && y < 8 * rows then CellPixel(font, Cell(' ', 0x07), y % 8, x % 8)
          else old(Px(y, x))
      ensures Shows(Up(s))
    {
      hide CellPixel, At;
      var t := Up(s);
      assert Renders(t);
      forall y: nat, x: nat | InText(y, x)
        ensures Px(y, x) == Pixel(t, y, x)
      {
        if y < 8 * (rows - 1) {
          assert old(Px(y + 8, x)) == Pixel(s, y + 8, x);
          assert (y + 8) / 8 == y / 8 + 1 && (y + 8) % 8 == y % 8;
        } else {
          assert t.rows[y / 8].cells[x / 8] == Cell(' ', 0x07);
        }
      }
    }

    /** The pixels and `line_len` are those of `s`. */
    ghost predicate Holds(s: Screen)
      requires Fits()
      reads fb, lineLen
    {
      Shows(s) && forall r :: 0 <= r < rows ==> lineLen[r] == s.rows[r].len
    }

    ghost predicate Valid()
      reads this, fb, lineLen
    {
      Fits() && Inv(screen) && Holds(screen) && cursorRow == screen.row && cursorColumn == screen.col
    }

    /** Go to the start of the next row, scrolling if there is none. */
    method Advance(ghost s: Screen)
      requires Fits() && Holds(s) && cursorRow == s.row
      modifies this`cursorRow, this`cursorColumn, fb, lineLen
      ensures Holds(NextRow(s)) && cursorRow == NextRow(s).row && cursorColumn == NextRow(s).col
      ensures OutsideSame()
    {
      cursorRow := cursorRow + 1;
      if cursorRow >= rows {
        VgaUp();
        ShowsMoved(s);
        cursorRow := rows - 1;
      }
      cursorColumn := 0;
    }

    /** `draw_cell`, from the pixels of `s` to those of `t`, which differs in that cell. */
    method ShowCell(ghost s: Screen, ghost t: Screen, col: nat, row: nat, c: char, color: nat)
      requires Fits() && Shows(s) && Printable(c)
      requires col <= cols && row < rows && (col == cols ==> row + 1 < rows)
      requires t.Sized() && t.width == cols && |t.rows| == rows && !t.endless
      requires forall r :: 0 <= r < rows ==>
        t.rows[r].cells == if r == row then PutCell(s.rows[r], col, Cell(c, color)).cells else s.rows[r].cells
      modifies fb
      ensures col < cols ==> Shows(t) && OutsideSame()
      ensures forall y: nat, x: nat {:trigger Px(y, x)} :: InBuffer(y, x) ==>
        Px(y, x) == Inking(col, row, Cell(c, color), 8, 0, y, x, old(Px(y, x)))
    {
      hide At, Px, CellPixel, IsFont, Inking;
      assert forall y: nat, x: nat {:trigger Px(y, x)} :: InText(y, x) ==> Px(y, x) == Pixel(s, y, x);
      DrawCell(col, row, c, color);
    }

    /** The branch of `vga_putc` that draws a character. */
    method PutPrintable(c: char, color: nat)
      requires Valid() && Printable(c)
      modifies this`cursorRow, this`cursorColumn, fb, lineLen
      ensures Holds(Draw(screen, c, color))
      ensures cursorRow == Draw(screen, c, color).row && cursorColumn == Draw(screen, c, color).col
      ensures OutsideSame()
    {
      hide At, Px, CellPixel, NextRow, IsFont, RowOk, Pixel;
      ghost var s := screen;
      ghost var line := PutCell(s.rows[s.row], s.col, Cell(c, color));
      ghost var len := if s.col + 1 > line.len then (s.col + 1) % 256 else line.len;
      ghost var t := s.(rows := s.rows[s.row := line.(len := len)], col := s.col + 1);
      ShowCell(s, t, cursorColumn, cursorRow, c, color);
      if cursorColumn + 1 > lineLen[cursorRow] {
        lineLen[cursorRow] := (cursorColumn + 1) % 256;
      }
      assert Holds(t);
      if cursorColumn + 1 >= cols {
        Advance(t);
      } else {
        cursorColumn := cursorColumn + 1;
      }
    }

    /** The 64 pixels right of row `row` of the text, wherever the linear buffer puts them. */
    ghost predicate RightOf(row: nat, y: nat, x: nat) {
      || (y / 8 == row && x / 8 == cols)
      || (y > 0 && (y - 1) / 8 == row && (x + pitch) / 8 == cols)
    }

    /**
     What an overfull backspace does to the pixels: the cell after the end of the full row turns black.
     With less than eight pixels between the text and the end of the pixel row, that includes the
     start of the next pixel row, which is text.
     */
    twostate predicate Spilled(row: nat)
      requires Fits()
      reads fb
    {
      forall y: nat, x: nat {:trigger Px(y, x)} :: InBuffer(y, x) ==>
        Px(y, x) == if RightOf(row, y, x) then 0 else old(Px(y, x))
    }

    /** The row lengths and the cursor are those of `s`. */
    ghost predicate Follows(s: Screen)
      requires Fits()
      reads this, lineLen
    {
      && s.Sized() && |s.rows| == rows
      && (forall r :: 0 <= r < rows ==> lineLen[r] == s.rows[r].len)
      && cursorRow == s.row && cursorColumn == s.col
    }

    /** The backspace branch of `vga_putc`. */
    method PutBackspace()
      requires Valid()
      modifies this`cursorRow, this`cursorColumn, fb, lineLen
      ensures Follows(Back(screen))
      ensures !OverfullBack(screen, BACKSPACE) ==> Holds(Back(screen)) && OutsideSame()
      ensures OverfullBack(screen, BACKSPACE) ==> Spilled(screen.row - 1)
    {
      hide At, Px, CellPixel, IsFont, RowOk, Pixel, Inking;
      var row, col := cursorRow, cursorColumn;
      if cursorColumn == 0 {
        if cursorRow == 0 {
          return;
        }
        row := row - 1;
        col := lineLen[row];
      } else {
        col := col - 1;
      }
      ghost var s := screen;
      RowOkLength(s.rows[row], s.width);
      ShowCell(s, Back(s), col, row, ' ', 0);
      InkBlack(row);
      if col < lineLen[row] {
        lineLen[row] := col;
      }
      cursorRow, cursorColumn := row, col;
    }

    lemma InkBlack(row: nat)
      requires IsFont(font) && pitch >= 8
      ensures forall y: nat, x: nat, before: nat {:trigger Inking(cols, row, Cell(' ', 0), 8, 0, y, x, before)} ::
        Inking(cols, row, Cell(' ', 0), 8, 0, y, x, before) == if RightOf(row, y, x) then 0 else before
    {
    }

    /** The pixels do not depend on the cursor. */
    lemma CursorMoves(s: Screen, col: nat)
      requires Fits() && Holds(s)
      ensures Holds(s.(col := col))
    {
    }

    lemma HoldsShape(s: Screen)
      requires Fits() && Holds(s)
      ensures s.Sized() && s.width == cols && |s.rows| == rows && !s.endless
      ensures forall r :: 0 <= r < rows ==> lineLen[r] == s.rows[r].len
    {
    }

    /**
     `vga_putc`: the cells, the row lengths and the cursor follow `Step`, the pixels of the text area
     follow the cells, and no other pixel changes; except that an overfull backspace leaves the grid.
     */
    method PutC(c: char, color: nat)
      requires Valid()
      modifies this`cursorRow, this`cursorColumn, this`screen, fb, lineLen
      ensures screen == Step(old(screen), c, color) && Follows(screen)
      ensures Valid() <==> !OverfullBack(old(screen), c)
      ensures if Valid() then OutsideSame() else Spilled(old(screen.row) - 1)
    {
      hide At, Px, Holds, Inv, NextRow, Draw, Back, Spilled, IsFont, Step, Tab, Screen.Sized;
      HoldsShape(screen);
      StepIs(screen, c, color);
      InvStep(screen, c, color);
      if c as int <= 31 || c as int >= 128 {
        if c == '\n' {
          Advance(screen);
        } else if c == '\t' {
          if cursorColumn + 2 - cursorColumn % 2 >= cols {
            Advance(screen);
          } else {
            CursorMoves(screen, cursorColumn + 2 - cursorColumn % 2);
            cursorColumn := cursorColumn + 2 - cursorColumn % 2;
          }
        } else if c == BACKSPACE {
          PutBackspace();
        }
      } else {
        PutPrintable(c, color);
      }
      screen := Step(screen, c, color);
      if !OverfullBack(old(screen), c) {
        HoldsShape(screen);
      }
    }

    /**
     `vga_clear_screen`: the whole visible framebuffer takes the background colour, which is what a
     blank screen of that colour looks like.  A black background gives a valid terminal, up to 255 columns.
     */
    method ClearScreen(color: nat)
      requires Fits()
      modifies this`cursorRow, this`cursorColumn, this`screen, fb, lineLen
      ensures screen == BlankScreen(cols, rows, color) && Holds(screen)
      ensures cursorRow == 0 && cursorColumn == 0 && forall r :: 0 <= r < rows ==> lineLen[r] == 0
      ensures Valid() <==> color / 16 % 16 == 0 && cols <= 255
      ensures forall y: nat, x: nat {:trigger Px(y, x)} :: InBuffer(y, x) ==>
        Px(y, x) == if x < width then BgRgb(color) else old(Px(y, x))
    {
      hide Px, BgRgb, Inv, Renders, IsFont;
      FillRows(BgRgb(color));
      for i := 0 to rows
        invariant forall r :: 0 <= r < i ==> lineLen[r] == 0
        invariant forall y: nat, x: nat {:trigger Px(y, x)} :: InBuffer(y, x) ==>
          Px(y, x) == if x < width then BgRgb(color) else old(Px(y, x))
      {
        lineLen[i] := 0;
      }
      cursorRow, cursorColumn := 0, 0;
      screen := BlankScreen(cols, rows, color);
      ShowsBlank(color);
      BlankInv(cols, rows, color);
    }

    /** Any well-behaved run of `vga_putc` and `vga_clear_screen`: the pixels are those of the resulting screen. */
    method Play(es: seq<Event>)
      requires Valid() && WellBehaved(screen, es)
      modifies this`cursorRow, this`cursorColumn, this`screen, fb, lineLen
      ensures Valid() && screen == Run(old(screen), es)
    {
      ghost var s := screen;
      for i := 0 to |es|
        invariant Valid() && screen == Run(s, es[..i])
      {
        PlayNext(s, es, i);
        hide Run, WellBehaved, Step, OverfullBack;
        match es[i] {
          case Put(c, color) => PutC(c, color);
          case Clear(color) => ClearScreen(color);
        }
      }
      assert es[..|es|] == es;
    }

    /** A text area in one background colour is a blank screen of that colour. */
    lemma ShowsBlank(color: nat)
      requires Fits()
      requires forall y: nat, x: nat {:trigger Px(y, x)} :: InText(y, x) ==> Px(y, x) == BgRgb(color)
      ensures Shows(BlankScreen(cols, rows, color))
    {
      forall y: nat, x: nat | InText(y, x)
        ensures Px(y, x) == Pixel(BlankScreen(cols, rows, color), y, x)
      {
        assert font[32][y % 8] == 0 && !Bit(0, x % 8);
      }
    }

    /** The eight pixels of text column `x` in pixel row `y`, straight from the linear buffer. */
    ghost function CellRow(y: nat, x: nat): (px: seq<nat>)
      requires Fits() && y < 8 * rows && x < cols
      reads fb
      ensures |px| == 8
    {
      AtBound(pitch, y, 8 * x + 7, height, fb.Length);
      fb[y * pitch + 8 * x..y * pitch + 8 * x + 8]
    }

    lemma CellRowPx(y: nat, x: nat, i: nat)
      requires Fits() && y < 8 * rows && x < cols && i < 8
      ensures InBuffer(y, 8 * x + i) && CellRow(y, x)[i] == Px(y, 8 * x + i)
    {
      hide IsFont;
      AtBound(pitch, y, 8 * x + 7, height, fb.Length);
      AtBound(pitch, y, 8 * x + i, height, fb.Length);
    }

    lemma CellRowPixel(s: Screen, r: nat, x: nat, j: nat, i: nat)
      requires Fits() && Shows(s) && r < rows && x < cols && j < 8 && i < 8
      ensures CellRow(8 * r + j, x)[i] == CellPixel(font, s.rows[r].cells[x], j, i)
    {
      hide CellPixel, IsFont, Px, CellRow;
      Quotient(8 * r + j, 8, r, j);
      Quotient(8 * x + i, 8, x, i);
      CellRowPx(8 * r + j, x, i);
      assert Px(8 * r + j, 8 * x + i) == Pixel(s, 8 * r + j, 8 * x + i);
    }

    /** What the buffer shows can be read back: the rows of a cell are the rows of its character's glyph. */
    lemma ShowsGlyph(s: Screen, r: nat, x: nat, j: nat, fg: nat, bg: nat)
      requires Fits() && Shows(s) && r < rows && x < cols && j < 8 && fg < 16 && bg < 16
      requires s.rows[r].cells[x].color == 16 * bg + fg && PALETTE[fg] != PALETTE[bg]
      ensures ByteOf(CellRow(8 * r + j, x), PALETTE[fg]) == font[s.rows[r].cells[x].ch as int][j]
    {
      hide CellPixel, Pixel, Px, CellRow, ByteOf;
      forall i | 0 <= i < 8
        ensures CellRow(8 * r + j, x)[i] == CellPixel(font, s.rows[r].cells[x], j, i)
      {
        CellRowPixel(s, r, x, j, i);
      }
      GlyphRow(font, s.rows[r].cells[x], fg, bg, j, CellRow(8 * r + j, x));
    }

    /** Screens that look alike have the same pixels. */
    lemma AlikeShows(s: Screen, t: Screen)
      requires Fits() && Shows(s) && Renders(t) && Alike(s, t)
      ensures Shows(t)
    {
      forall y: nat, x: nat | InText(y, x)
        ensures Px(y, x) == Pixel(t, y, x)
      {
        assert RowsAlike(s.rows[y / 8], t.rows[y / 8]);
        AlikePixels(font, s.rows[y / 8].cells[x / 8], t.rows[y / 8].cells[x / 8], y % 8, x % 8);
      }
    }

    method FillRows(bg: nat)
      requires Fits()
      modifies fb
      ensures forall y: nat, x: nat {:trigger Px(y, x)} :: InBuffer(y, x) ==>
        Px(y, x) == if x < width then bg else old(Px(y, x))
    {
      hide Px;
      for y0 := 0 to height
        invariant forall y: nat, x: nat {:trigger Px(y, x)} :: InBuffer(y, x) ==>
          Px(y, x) == if x < width && y < y0 then bg else old(Px(y, x))
      {
        for x0 := 0 to width
          invariant forall y: nat, x: nat {:trigger Px(y, x)} :: InBuffer(y, x) ==>
            Px(y, x) == if x < width && (y < y0 || (y == y0 && x < x0)) then bg else old(Px(y, x))
        {
          SetPixel(y0, x0, bg);
        }
      }
    }
  }

  lemma StepIs(s: Screen, c: char, color: nat)
    requires s.Sized()
    ensures var col := s.col + 2 - s.col % 2;
            Step(s, c, color) ==
              if Printable(c) then Draw(s, c, color)
              else if c == '\n' || (c == '\t' && col >= s.width) then NextRow(s)
              else if c == '\t' then s.(col := col)
              else if c == BACKSPACE then Back(s)
              else s
  {
  }

  lemma PlayNext(s: Screen, es: seq<Event>, i: nat)
    requires s.Sized() && WellBehaved(s, es) && i < |es|
    ensures Behaves(Run(s, es[..i]), es[i])
    ensures Run(s, es[..i + 1]) == Apply(Run(s, es[..i]), es[i])
  {
    hide Run, WellBehaved, Apply, Behaves;
    var front, rest := es[..i], es[i + 1..];
    assert es == front + [es[i]] + rest && es[..i + 1] == front + [es[i]];
    RunAppend(s, front + [es[i]], rest);
    RunAppend(s, front, [es[i]]);
    RunOne(Run(s, front), es[i]);
  }

  /** A blank screen satisfies the invariant exactly when its background is black and its rows are not too long. */
  lemma BlankInv(width: nat, height: nat, color: nat)
    requires width >= 1 && height >= 1
    ensures Inv(BlankScreen(width, height, color)) <==> color / 16 % 16 == 0 && width <= 255
  {
    var s := BlankScreen(width, height, color);
    if color / 16 % 16 != 0 {
      assert !Blank(s.rows[0].cells[0]);
    } else {
      assert RowOk(BlankRow(width, color), width);
    }
  }
}
