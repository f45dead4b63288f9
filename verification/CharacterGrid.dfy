/** The framebuffer console as a grid of characters, and the pixels that show it. */
module CharacterGrid {
  import opened Words

  const CELL_WIDTH := 8
  const CELL_HEIGHT := 16

  type Font = f: seq<bv8> | |f| == 4096 witness seq(4096, _ => 0)

  datatype Glyph = Blank | Ink(ch: Byte)

  /** A screen larger than one character, in pixels. */
  datatype Size = Size(width: nat, height: nat) {
    predicate Valid() {
      CELL_WIDTH < width < 0x1_0000 && CELL_HEIGHT < height < 0x1_0000
    }

    /** The columns x with 8x + 8 < width; the code never writes a character that touches the right edge. */
    function Cols(): nat
      requires Valid()
    {
      (width - 1) / CELL_WIDTH
    }

    function Rows(): nat
      requires Valid()
    {
      (height - 1) / CELL_HEIGHT
    }
  }

  datatype Console = Console(size: Size, grid: seq<seq<Glyph>>, col: nat, row: nat) {
    predicate Valid() {
      && size.Valid()
      && |grid| == size.Rows() && (forall r :: 0 <= r < |grid| ==> |grid[r]| == size.Cols())
      && col < size.Cols() && row < size.Rows()
    }
  }

  function BlankLine(cols: nat): seq<Glyph> {
    seq(cols, _ => Blank)
  }

  function FreshConsole(size: Size): (c: Console)
    requires size.Valid()
    ensures c.Valid() && c.size == size
  {
    Console(size, seq(size.Rows(), _ => BlankLine(size.Cols())), 0, 0)
  }

  function SetCell(grid: seq<seq<Glyph>>, row: nat, col: nat, g: Glyph): seq<seq<Glyph>> {
    if row < |grid| && col < |grid[row]| then grid[row := grid[row][col := g]] else grid
  }

  function Scrolled(grid: seq<seq<Glyph>>, cols: nat): seq<seq<Glyph>>
    requires grid != []
  {
    grid[1..] + [BlankLine(cols)]
  }

  /**
   The end of a line: the cell under the cursor becomes blank, the cursor goes to the next row, the grid scrolls
   after the last.
   */
  function NewLine(c: Console): (d: Console)
    requires c.(col := 0).Valid()
    ensures d.Valid() && d.size == c.size
  {
    var grid := SetCell(c.grid, c.row, c.col, Blank);
    if c.row + 1 < c.size.Rows() then c.(grid := grid, col := 0, row := c.row + 1)
    else c.(grid := Scrolled(grid, c.size.Cols()), col := 0)
  }

  function WriteChar(c: Console, ch: Byte): (d: Console)
    requires c.Valid()
    ensures d.Valid() && d.size == c.size
  {
    if ch == LF then NewLine(c)
    else if ch == CR then c.(col := 0)
    else
      var written := c.(grid := SetCell(c.grid, c.row, c.col, Ink(ch)), col := c.col + 1);
      if written.col >= c.size.Cols() then NewLine(written) else written
  }

  function WriteAll(c: Console, str: seq<Byte>): (d: Console)
    requires c.Valid()
    ensures d.Valid() && d.size == c.size
    decreases |str|
  {
    if str == [] then c else WriteChar(WriteAll(c, str[..|str| - 1]), str[|str| - 1])
  }

  /**
   Characters without controls that do not reach the end of the row stand one after the other from the cursor on;
   no other cell changes.
   */
  lemma {:induction false} WritePlain(c: Console, str: seq<Byte>)
    requires c.Valid() && LF !in str && CR !in str && c.col + |str| < c.size.Cols()
    ensures var d := WriteAll(c, str);
            && d.row == c.row && d.col == c.col + |str|
            && (forall k :: 0 <= k < c.size.Cols() ==>
                  d.grid[c.row][k] == if c.col <= k < c.col + |str| then Ink(str[k - c.col]) else c.grid[c.row][k])
            && (forall r :: 0 <= r < |c.grid| && r != c.row ==> d.grid[r] == c.grid[r])
    decreases |str|
  {
    if str != [] {
      WritePlain(c, str[..|str| - 1]);
    }
  }

  /** A carriage return moves the cursor to column 0 and changes no cell. */
  lemma CarriageReturn(c: Console)
    requires c.Valid()
    ensures WriteChar(c, 13) == c.(col := 0)
  {
  }

  // ----- text that wraps

  /** The column and row of the next position in reading order. */
  lemma NextPosition(p: nat, cols: nat)
    requires cols > 0
    ensures 0 <= p % cols < cols && p / cols >= 0 && p == p / cols * cols + p % cols
    ensures if p % cols + 1 < cols then (p + 1) / cols == p / cols && (p + 1) % cols == p % cols + 1
            else (p + 1) / cols == p / cols + 1 && (p + 1) % cols == 0
  {
    var q := p / cols;
    DivModIs(p, cols, q, p % cols);
    if p % cols + 1 < cols {
      DivModIs(p + 1, cols, q, p % cols + 1);
    } else {
      assert p + 1 == (q + 1) * cols;
      DivModIs(p + 1, cols, q + 1, 0);
    }
  }

  lemma {:induction false} DivModIs(p: nat, n: nat, q: nat, m: nat)
    requires n > 0 && m < n && p == q * n + m
    ensures p / n == q && p % n == m
  {
    assert p == p / n * n + p % n;
    if p / n < q {
      OneRowMore(p / n, q, n);
    } else if q < p / n {
      OneRowMore(q, p / n, n);
    }
  }

  lemma {:induction false} OneRowMore(a: nat, b: nat, n: nat)
    requires a < b
    ensures a * n + n <= b * n
    decreases b
  {
    if a + 1 < b {
      OneRowMore(a, b - 1, n);
    }
    assert b * n == (b - 1) * n + n;
  }

  /** The number of a cell in reading order, counted from the start of row `row`. */
  function Place(row: nat, r: nat, x: nat, cols: nat): int {
    (r - row) * cols + x
  }

  lemma PlaceIs(row: nat, r: nat, x: nat, cols: nat, p: nat)
    requires cols > 0 && x < cols
    ensures Place(row, r, x, cols) == p <==> r == row + p / cols && x == p % cols
  {
    NextPosition(p, cols);
    var q := p / cols;
    if r < row {
      NegativePlace(r - row, x, cols);
    } else if Place(row, r, x, cols) == p {
      DivModIs(p, cols, r - row, x);
    } else if r - row == q {
      assert (r - row) * cols == q * cols;
    }
  }

  lemma {:induction false} NegativePlace(d: int, x: nat, cols: nat)
    requires d < 0 && x < cols
    ensures d * cols + x < 0
    decreases -d
  {
    if d < -1 {
      NegativePlace(d + 1, x, cols);
      assert d * cols == (d + 1) * cols - cols;
    }
  }

  /** The grid of `d` is that of `c` with `str` in reading order from the cursor on. */
  ghost predicate Spells(c: Console, d: Console, str: seq<Byte>)
    requires c.Valid() && d.Valid() && d.size == c.size
  {
    forall r: nat, x: nat :: r < c.size.Rows() && x < c.size.Cols() ==>
      var m := Place(c.row, r, x, c.size.Cols()) - c.col;
      d.grid[r][x] == if 0 <= m < |str| then Ink(str[m]) else c.grid[r][x]
  }

  /**
   Text without controls that ends above the last row's end stands in reading order from the cursor on, across
   the ends of rows, and no other cell changes.
   */
  lemma {:induction false} WriteWraps(c: Console, str: seq<Byte>)
    requires c.Valid() && 10 !in str && 13 !in str
    requires c.row + (c.col + |str|) / c.size.Cols() < c.size.Rows()
    ensures var d, cols := WriteAll(c, str), c.size.Cols();
            && d.row == c.row + (c.col + |str|) / cols && d.col == (c.col + |str|) % cols
            && Spells(c, d, str)
    decreases |str|
  {
    hide Place, WriteChar, Size.Rows, Size.Cols, WriteAll;
    var cols := c.size.Cols();
    if str == [] {
      NothingWritten(c);
      DivModIs(c.col, cols, 0, c.col);
      NothingSpelled(c);
    } else {
      var front, last := str[..|str| - 1], str[|str| - 1];
      var p := c.col + |front|;
      NextPosition(p, cols);
      WriteWraps(c, front);
      var b := WriteAll(c, front);
      WriteLast(c, str);
      OneCharacter(b, last);
      forall r: nat, x: nat | r < c.size.Rows() && x < cols
        ensures Place(c.row, r, x, cols) == p <==> r == b.row && x == b.col
      {
        PlaceIs(c.row, r, x, cols, p);
      }
      SpellsOneMore(c, b, WriteChar(b, last), str);
    }
  }

  lemma {:induction false} NoLater(p: nat, q: nat, n: nat)
    requires p <= q && n > 0
    ensures p / n <= q / n
    decreases q
  {
    if p < q {
      NoLater(p, q - 1, n);
      NextPosition(q - 1, n);
    }
  }

  /** The m-th character of such a text, in numbers; from column 0 it is m / Cols rows down, in column m % Cols. */
  lemma WrapsAt(c: Console, str: seq<Byte>, m: nat, r: nat, x: nat)
    requires c.Valid() && 10 !in str && 13 !in str && m < |str|
    requires c.row + (c.col + |str|) / c.size.Cols() < c.size.Rows()
    requires r == c.row + (c.col + m) / c.size.Cols() && x == (c.col + m) % c.size.Cols()
    ensures var d := WriteAll(c, str);
            r < |d.grid| && x < |d.grid[r]| && d.grid[r][x] == Ink(str[m])
  {
    WriteWraps(c, str);
    hide *;
    var d, cols := WriteAll(c, str), c.size.Cols();
    DimensionsOf(c);
    WrapPlace(c, |str|, m, r, x);
    SpellsAt(c, d, str, r, x, m);
  }

  lemma WrapPlace(c: Console, length: nat, m: nat, r: nat, x: nat)
    requires c.Valid() && m < length && c.row + (c.col + length) / c.size.Cols() < c.size.Rows()
    requires r == c.row + (c.col + m) / c.size.Cols() && x == (c.col + m) % c.size.Cols()
    ensures r < c.size.Rows() && x < c.size.Cols() && Place(c.row, r, x, c.size.Cols()) == c.col + m
  {
    DimensionsOf(c);
    hide *;
    var cols := c.size.Cols();
    NoLater(c.col + m, c.col + length, cols);
    Remainder(c.col + m, cols);
    PlaceIs(c.row, r, x, cols, c.col + m);
  }

  lemma Remainder(p: nat, n: nat)
    requires n > 0
    ensures 0 <= p / n && 0 <= p % n < n
  {
  }

  lemma DimensionsOf(c: Console)
    requires c.Valid()
    ensures c.size.Valid() && c.size.Cols() > 0 && |c.grid| == c.size.Rows()
    ensures forall r :: 0 <= r < |c.grid| ==> |c.grid[r]| == c.size.Cols()
  {
  }

  lemma SpellsAt(c: Console, d: Console, str: seq<Byte>, r: nat, x: nat, m: nat)
    requires c.Valid() && d.Valid() && d.size == c.size && Spells(c, d, str)
    requires r < c.size.Rows() && x < c.size.Cols() && Place(c.row, r, x, c.size.Cols()) == c.col + m && m < |str|
    ensures r < |d.grid| && x < |d.grid[r]| && d.grid[r][x] == Ink(str[m])
  {
    hide Place, Size.Rows, Size.Cols;
  }

  lemma NothingSpelled(c: Console)
    requires c.Valid()
    ensures Spells(c, c, [])
  {
  }

  lemma SpellsOneMore(c: Console, b: Console, d: Console, str: seq<Byte>)
    requires c.Valid() && b.Valid() && d.Valid() && b.size == c.size == d.size && str != []
    requires Spells(c, b, str[..|str| - 1])
    requires forall r: nat, x: nat :: r < c.size.Rows() && x < c.size.Cols() ==>
               (Place(c.row, r, x, c.size.Cols()) == c.col + |str| - 1 <==> r == b.row && x == b.col)
    requires forall r: nat, x: nat :: r < c.size.Rows() && x < c.size.Cols() ==>
               d.grid[r][x] == if r == b.row && x == b.col then Ink(str[|str| - 1]) else b.grid[r][x]
    ensures Spells(c, d, str)
  {
    hide Place, Size.Rows, Size.Cols;
  }

  lemma WriteLast(c: Console, str: seq<Byte>)
    requires c.Valid() && str != []
    ensures WriteAll(c, str) == WriteChar(WriteAll(c, str[..|str| - 1]), str[|str| - 1])
  {
  }

  /** One character, not a control: its cell, and the cursor on the next place unless the last row is full. */
  lemma OneCharacter(c: Console, ch: Byte)
    requires c.Valid() && ch != 10 && ch != 13
    requires c.col + 1 < c.size.Cols() || c.row + 1 < c.size.Rows()
    ensures var d := WriteChar(c, ch);
            && (if c.col + 1 < c.size.Cols() then d.row == c.row && d.col == c.col + 1
                else d.row == c.row + 1 && d.col == 0)
            && forall r: nat, x: nat :: r < c.size.Rows() && x < c.size.Cols() ==>
                 d.grid[r][x] == if r == c.row && x == c.col then Ink(ch) else c.grid[r][x]
  {
  }

  function LineFeeds(k: nat): seq<Byte> {
    seq(k, _ => 10)
  }

  lemma LineFeedsSnoc(c: Console, k: nat)
    requires c.Valid() && k > 0
    ensures WriteAll(c, LineFeeds(k)) == NewLine(WriteAll(c, LineFeeds(k - 1)))
  {
    assert LineFeeds(k)[..k - 1] == LineFeeds(k - 1);
  }

  /** How many rows the grid has moved up after `k` line feeds from row `row`. */
  function Shift(c: Console, k: nat): nat
    requires c.Valid()
  {
    if c.row + k < c.size.Rows() then 0 else c.row + k - (c.size.Rows() - 1)
  }

  /**
   Line feeds from any row: the cursor goes down one row for each, at most to the last, and back to column 0. The
   cells that it stood on when a line feed came are blank; beyond the last row the grid moves up and blank rows follow.
   */
  lemma {:induction false} LineFeedsLaw(c: Console, k: nat)
    requires c.Valid() && k > 0
    ensures var d, up := WriteAll(c, LineFeeds(k)), Shift(c, k);
            && d.row == (if c.row + k < c.size.Rows() then c.row + k else c.size.Rows() - 1) && d.col == 0
            && forall r, x :: 0 <= r < c.size.Rows() && 0 <= x < c.size.Cols() ==>
                 d.grid[r][x] == if r + up >= c.size.Rows() then Blank
                                 else if r + up == c.row && x == c.col then Blank
                                 else if c.row < r + up < c.row + k && x == 0 then Blank
                                 else c.grid[r + up][x]
    decreases k
  {
    hide WriteAll, NewLine, Size.Rows, Size.Cols;
    LineFeedsSnoc(c, k);
    NewLineLaw(WriteAll(c, LineFeeds(k - 1)));
    if k == 1 {
      assert LineFeeds(0) == [];
      NothingWritten(c);
    } else {
      LineFeedsLaw(c, k - 1);
    }
  }

  /** One new line. */
  lemma NewLineLaw(c: Console)
    requires c.Valid()
    ensures var d, up := NewLine(c), if c.row + 1 < c.size.Rows() then 0 else 1;
            && d.row == c.row + 1 - up && d.col == 0
            && forall r, x :: 0 <= r < c.size.Rows() && 0 <= x < c.size.Cols() ==>
                 d.grid[r][x] == if r + up >= c.size.Rows() then Blank
                                 else if r + up == c.row && x == c.col then Blank
                                 else c.grid[r + up][x]
  {
  }

  /** As many line feeds as there are rows, from the last row, leave a blank screen. */
  lemma LineFeedsClear(c: Console, k: nat)
    requires c.Valid() && c.row + k >= 2 * c.size.Rows() - 1 && k > 0
    ensures WriteAll(c, LineFeeds(k)).grid == FreshConsole(c.size).grid
  {
    hide WriteAll;
    LineFeedsLaw(c, k);
    var d := WriteAll(c, LineFeeds(k));
    forall r | 0 <= r < c.size.Rows()
      ensures d.grid[r] == BlankLine(c.size.Cols())
    {
      assert forall x :: 0 <= x < c.size.Cols() ==> d.grid[r][x] == Blank;
    }
  }

  lemma NothingWritten(c: Console)
    requires c.Valid()
    ensures WriteAll(c, []) == c
  {
  }

  // ----- the cursor

  const CURSOR: Byte := 62
  const BLINK_LIMIT := 200_000_000

  /** The cursor sign in the cell under the cursor while it is visible, and nothing there while it is not. */
  function WithCursor(c: Console, visible: bool): (d: Console)
    requires c.Valid()
    ensures d.Valid() && d.size == c.size
  {
    c.(grid := SetCell(c.grid, c.row, c.col, if visible then Ink(CURSOR) else Blank))
  }

  /**
   The sign is ">", and it appears in the cell under the cursor exactly while it is visible; that cell is blank
   otherwise.
   */
  lemma CursorSign(c: Console, visible: bool)
    requires c.Valid()
    ensures var d := WithCursor(c, visible);
            && d.row == c.row && d.col == c.col
            && d.grid[c.row][c.col] == (if visible then Ink(62) else Blank)
            && forall r, x :: 0 <= r < c.size.Rows() && 0 <= x < c.size.Cols() && (r != c.row || x != c.col) ==>
                 d.grid[r][x] == c.grid[r][x]
  {
  }

  /** The counter of update_cursor and what it switches. */
  datatype Blinker = Blinker(ticks: nat, visible: bool)

  function Tick(b: Blinker): Blinker {
    if b.ticks + 1 >= BLINK_LIMIT then Blinker(0, !b.visible) else b.(ticks := b.ticks + 1)
  }

  function Ticked(b: Blinker, n: nat): Blinker {
    if n == 0 then b else Tick(Ticked(b, n - 1))
  }

  /** Over any number of updates the cursor switches once in every 200000000 of them. */
  lemma {:induction false} BlinkLaw(b: Blinker, n: nat)
    requires b.ticks < BLINK_LIMIT
    ensures var e := Ticked(b, n);
            && e.ticks == (b.ticks + n) % 200_000_000
            && (e.visible == b.visible <==> (b.ticks + n) / 200_000_000 % 2 == 0)
    decreases n
  {
    if n > 0 {
      BlinkLaw(b, n - 1);
    }
  }

  // ----- pixels

  /** Whether the font has ink in line `line` and column `col` of a character. */
  predicate FontBit(font: Font, ch: Byte, line: nat, col: nat)
    requires line < CELL_HEIGHT && col < CELL_WIDTH
  {
    font[ch as int * CELL_HEIGHT + line] & (0x80 >> col) != 0
  }

  datatype Colors = Colors(text: Word32, bg: Word32)

  function GlyphPixel(font: Font, colors: Colors, g: Glyph, line: nat, col: nat): Word32
    requires line < CELL_HEIGHT && col < CELL_WIDTH
  {
    if g.Ink? && FontBit(font, g.ch, line, col) then colors.text else colors.bg
  }

  /** The pixel at (x, y) of a screen that shows the grid; what lies outside the grid has the background colour. */
  function Render(font: Font, colors: Colors, grid: seq<seq<Glyph>>, x: nat, y: nat): Word32 {
    if y / CELL_HEIGHT < |grid| && x / CELL_WIDTH < |grid[y / CELL_HEIGHT]|
    then GlyphPixel(font, colors, grid[y / CELL_HEIGHT][x / CELL_WIDTH], y % CELL_HEIGHT, x % CELL_WIDTH)
    else colors.bg
  }

  /** Which bit of the font stands for a column: the highest for the leftmost. */
  lemma FontBitIs(font: Font, ch: Byte, line: nat, col: nat)
    requires line < 16 && col < 8
    ensures FontBit(font, ch, line, col) <==>
              font[16 * ch as int + line] & [0x80, 0x40, 0x20, 0x10, 8, 4, 2, 1][col] != 0
  {
    ColumnMask(col);
  }

  lemma ColumnMask(col: nat)
    requires col < 8
    ensures (0x80 as bv8) >> col == [0x80, 0x40, 0x20, 0x10, 8, 4, 2, 1][col]
  {
  }

  /** The columns and rows are all those in which a character ends before the edge. */
  lemma ColsAndRows(size: Size)
    requires size.Valid()
    ensures 8 * size.Cols() < size.width <= 8 * size.Cols() + 8
    ensures 16 * size.Rows() < size.height <= 16 * size.Rows() + 16
  {
  }

  /**
   Text in pixels: on a fresh screen with rows enough for it, the pixel at (x, y) has the text colour exactly when
   it lies in the cell of a character of the text and the font has that bit of that character.
   */
  lemma TextPixels(font: Font, colors: Colors, size: Size, str: seq<Byte>, x: nat, y: nat)
    requires size.Valid() && 10 !in str && 13 !in str && |str| / size.Cols() < size.Rows()
    ensures var m := y / 16 * size.Cols() + x / 8;
            var lit := x / 8 < size.Cols() && y / 16 < size.Rows() && 0 <= m < |str|
                       && FontBit(font, str[m], y % 16, x % 8);
            Render(font, colors, WriteAll(FreshConsole(size), str).grid, x, y) ==
              if lit then colors.text else colors.bg
  {
    hide *;
    var grid := WriteAll(FreshConsole(size), str).grid;
    TextCell(size, str, y / 16, x / 8);
    RenderCell(font, colors, grid, x, y);
  }

  lemma RenderCell(font: Font, colors: Colors, grid: seq<seq<Glyph>>, x: nat, y: nat)
    ensures Render(font, colors, grid, x, y) ==
              if y / 16 < |grid| && x / 8 < |grid[y / 16]| && grid[y / 16][x / 8].Ink?
                 && FontBit(font, grid[y / 16][x / 8].ch, y % 16, x % 8)
              then colors.text else colors.bg
  {
    hide FontBit;
  }

  /** The same in cells. */
  lemma TextCell(size: Size, str: seq<Byte>, r: nat, x: nat)
    requires size.Valid() && 10 !in str && 13 !in str && |str| / size.Cols() < size.Rows()
    ensures var grid, m := WriteAll(FreshConsole(size), str).grid, r * size.Cols() + x;
            && m >= 0 && |grid| == size.Rows() && (r < |grid| ==> |grid[r]| == size.Cols())
            && (r < size.Rows() && x < size.Cols() ==> grid[r][x] == if m < |str| then Ink(str[m]) else Blank)
  {
    var start := FreshConsole(size);
    PlaceFromTop(r, x, size.Cols());
    if r < size.Rows() && x < size.Cols() {
      assert start.grid[r][x] == Blank;
    }
    FreshAtTop(size);
    hide WriteAll, Size.Cols, Size.Rows, FreshConsole, Place;
    WriteWraps(start, str);
  }

  lemma FreshAtTop(size: Size)
    requires size.Valid()
    ensures FreshConsole(size).row == 0 && FreshConsole(size).col == 0
  {
  }

  lemma PlaceFromTop(r: nat, x: nat, cols: nat)
    ensures Place(0, r, x, cols) == r * cols + x >= 0
  {
  }

  /** Changing a cell changes exactly the pixels of its box. */
  lemma RenderSetCell(font: Font, colors: Colors, grid: seq<seq<Glyph>>, row: nat, col: nat, g: Glyph, x: nat, y: nat)
    requires row < |grid| && col < |grid[row]|
    ensures Render(font, colors, SetCell(grid, row, col, g), x, y) ==
              if CELL_WIDTH * col <= x < CELL_WIDTH * col + CELL_WIDTH
                && CELL_HEIGHT * row <= y < CELL_HEIGHT * row + CELL_HEIGHT
              then GlyphPixel(font, colors, g, y - CELL_HEIGHT * row, x - CELL_WIDTH * col)
              else Render(font, colors, grid, x, y)
  {
    hide GlyphPixel;
    if CELL_WIDTH * col <= x < CELL_WIDTH * col + CELL_WIDTH {
      assert x / CELL_WIDTH == col && x % CELL_WIDTH == x - CELL_WIDTH * col;
    }
    if CELL_HEIGHT * row <= y < CELL_HEIGHT * row + CELL_HEIGHT {
      assert y / CELL_HEIGHT == row && y % CELL_HEIGHT == y - CELL_HEIGHT * row;
    }
  }

  /** Beyond the last column and the last row there is background. */
  lemma RenderBeyond(font: Font, colors: Colors, c: Console, x: nat, y: nat)
    requires c.(col := 0).Valid()
    ensures x >= CELL_WIDTH * c.size.Cols() ==> Render(font, colors, c.grid, x, y) == colors.bg
    ensures SetCell(c.grid, c.row, c.size.Cols(), Blank) == c.grid
  {
  }

  lemma RenderFresh(font: Font, colors: Colors, size: Size, x: nat, y: nat)
    requires size.Valid()
    ensures Render(font, colors, FreshConsole(size).grid, x, y) == colors.bg
  {
  }

  /**
   Scrolling the grid by one row moves the picture up by 16 pixels and leaves background below, whatever the
   height of the screen.
   */
  lemma RenderScrolled(font: Font, colors: Colors, size: Size, grid: seq<seq<Glyph>>, x: nat, y: nat)
    requires size.Valid() && |grid| == size.Rows() && y < size.height
    requires forall r :: 0 <= r < |grid| ==> |grid[r]| == size.Cols()
    ensures Render(font, colors, Scrolled(grid, size.Cols()), x, y) ==
              if y + CELL_HEIGHT < size.height then Render(font, colors, grid, x, y + CELL_HEIGHT) else colors.bg
  {
    hide FontBit;
    var r := y / CELL_HEIGHT;
    assert (y + CELL_HEIGHT) / CELL_HEIGHT == r + 1 && (y + CELL_HEIGHT) % CELL_HEIGHT == y % CELL_HEIGHT;
    var next := Scrolled(grid, size.Cols());
    assert r + 1 < |grid| ==> next[r] == grid[r + 1];
    assert r + 1 == |grid| ==> next[r] == BlankLine(size.Cols());
  }

  /** The cursor stays where a whole character fits strictly inside the screen. */
  lemma CursorInside(c: Console)
    requires c.Valid()
    ensures 8 * c.col + 8 < c.size.width && 16 * c.row + 16 < c.size.height
  {
  }
}
