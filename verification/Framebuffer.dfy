/**
 The framebuffer console at 32 bits per pixel: pixel memory written in place, row by row copies, the cursor in
 pixels.
 */
module Framebuffer {
  import opened Words
  import opened CharacterGrid

  lemma {:induction false} RowBelow(a: nat, b: nat, pitch: nat)
    requires a < b
    ensures a * pitch + pitch <= b * pitch
    decreases b
  {
    if a + 1 < b {
      RowBelow(a, b - 1, pitch);
    }
    assert b * pitch == (b - 1) * pitch + pitch;
  }

  class FramebufferConsole {
    const size: Size
    /** Words per row of memory, at least the width. */
    const pitch: nat
    const memory: array<Word32>
    const font: Font
    const colors: Colors
    var cursorX: nat
    var cursorY: nat
    var cursorVisible: bool
    var cursorTicks: Word32
    ghost var console: Console

    function Index(x: nat, y: nat): nat {
      y * pitch + x
    }

    ghost predicate Mapped() {
      && size.Valid() && size.width <= pitch
      && size.height * pitch <= memory.Length
    }

    predicate OnScreen(x: int, y: int) {
      0 <= x < size.width && 0 <= y < size.height
    }

    lemma InMemory(x: nat, y: nat)
      requires Mapped() && OnScreen(x, y)
      ensures Index(x, y) < memory.Length
    {
      RowBelow(y, size.height, pitch);
    }

    lemma Apart(x: nat, y: nat, x': nat, y': nat)
      requires Mapped() && OnScreen(x, y) && OnScreen(x', y')
      ensures Index(x, y) == Index(x', y') <==> x == x' && y == y'
    {
      if y < y' {
        RowBelow(y, y', pitch);
      } else if y' < y {
        RowBelow(y', y, pitch);
      }
    }

    /** The pixel at (x, y). */
    ghost function Pixel(x: nat, y: nat): Word32
      requires Mapped() && OnScreen(x, y)
      reads memory
    {
      InMemory(x, y);
      memory[Index(x, y)]
    }

    /** The pixels show the grid, and the cursor is at the corner of its cell. */
    ghost predicate Valid()
      reads this, memory
    {
      && Mapped() && console.Valid() && console.size == size
      && cursorX == CELL_WIDTH * console.col && cursorY == CELL_HEIGHT * console.row
      && Shows(console.grid)
    }

    ghost predicate Shows(grid: seq<seq<Glyph>>)
      requires Mapped()
      reads memory
    {
      forall x: nat, y: nat :: OnScreen(x, y) ==> Pixel(x, y) == Render(font, colors, grid, x, y)
    }

    constructor (size: Size, pitch: nat, memory: array<Word32>, font: Font)
      requires size.Valid() && size.width <= pitch && size.height * pitch <= memory.Length
      ensures Mapped() && cursorX == 0 && cursorY == 0 && console == FreshConsole(size)
      ensures cursorVisible && cursorTicks == 0
      ensures this.memory == memory && this.font == font && this.size == size && this.pitch == pitch
      ensures colors == Colors(0x00FF_FFFF, 0)
    {
      this.size, this.pitch, this.memory, this.font := size, pitch, memory, font;
      colors := Colors(0x00FF_FFFF, 0);
      cursorX, cursorY := 0, 0;
      cursorVisible, cursorTicks := true, 0;
      console := FreshConsole(size);
    }

    method DrawPixel(x: nat, y: nat, color: Word32)
      requires Mapped()
      modifies memory
      ensures forall x': nat, y': nat :: OnScreen(x', y') ==>
                Pixel(x', y') == if x' == x && y' == y then color else old(Pixel(x', y'))
    {
      if x >= size.width || y >= size.height {
        return;
      }
      InMemory(x, y);
      memory[Index(x, y)] := color;
      forall x': nat, y': nat | OnScreen(x', y')
        ensures Pixel(x', y') == if x' == x && y' == y then color else old(Pixel(x', y'))
      {
        InMemory(x', y');
        Apart(x, y, x', y');
      }
    }

    /** A character cell, clipped at the edges of the screen. */
    method DrawCharAt(x: nat, y: nat, ch: Byte, fg: Word32, bg: Word32)
      requires Mapped()
      modifies memory
      ensures forall x': nat, y': nat :: OnScreen(x', y') ==>
                Pixel(x', y') == if x <= x' < x + 8 && y <= y' < y + 16
                                 then (if FontBit(font, ch, y' - y, x' - x) then fg else bg)
                                 else old(Pixel(x', y'))
    {
      hide FontBit, Mapped, Pixel;
      var row := 0;
      while row < 16
        invariant 0 <= row <= 16
        invariant forall x': nat, y': nat :: OnScreen(x', y') ==>
                    Pixel(x', y') == if x <= x' < x + 8 && y <= y' < y + row
                                     then (if FontBit(font, ch, y' - y, x' - x) then fg else bg)
                                     else old(Pixel(x', y'))
      {
        var col := 0;
        while col < 8
          invariant 0 <= col <= 8
          invariant forall x': nat, y': nat :: OnScreen(x', y') ==>
                      Pixel(x', y') == if (x <= x' < x + 8 && y <= y' < y + row) || (x <= x' < x + col && y' == y + row)
                                       then (if FontBit(font, ch, y' - y, x' - x) then fg else bg)
                                       else old(Pixel(x', y'))
        {
          var color := if FontBit(font, ch, row, col) then fg else bg;
          DrawPixel(x + col, y + row, color);
          col := col + 1;
        }
        row := row + 1;
      }
    }

    /** Paints the screen; the cursor stays where it is. */
    method Clear()
      requires Mapped() && console.Valid() && console.size == size
      requires cursorX == CELL_WIDTH * console.col && cursorY == CELL_HEIGHT * console.row
      modifies memory, this`console
      ensures Valid() && console == old(console).(grid := FreshConsole(size).grid)
    {
      hide Mapped, Pixel, Render, FreshConsole;
      var y := 0;
      while y < size.height
        invariant 0 <= y <= size.height && console == old(console)
        invariant forall x': nat, y': nat :: OnScreen(x', y') && y' < y ==> Pixel(x', y') == colors.bg
      {
        ClearRow(y);
        y := y + 1;
      }
      console := console.(grid := FreshConsole(size).grid);
      forall x: nat, y: nat | OnScreen(x, y)
        ensures Pixel(x, y) == Render(font, colors, console.grid, x, y)
      {
        RenderFresh(font, colors, size, x, y);
      }
    }

    method ClearRow(y: nat)
      requires Mapped() && y < size.height
      modifies memory
      ensures forall x': nat, y': nat :: OnScreen(x', y') ==>
                Pixel(x', y') == if y' == y then colors.bg else old(Pixel(x', y'))
    {
      hide Mapped, Pixel;
      var x := 0;
      while x < size.width
        invariant 0 <= x <= size.width
        invariant forall x': nat, y': nat :: OnScreen(x', y') ==>
                    Pixel(x', y') == if y' == y && x' < x then colors.bg else old(Pixel(x', y'))
      {
        DrawPixel(x, y, colors.bg);
        x := x + 1;
      }
    }

    /** The copy of one row to the place 16 rows above it. */
    method CopyRow(y: nat)
      requires Mapped() && 16 <= y < size.height
      modifies memory
      ensures forall x': nat, y': nat :: OnScreen(x', y') ==>
                Pixel(x', y') == if y' == y - 16 then old(Pixel(x', y)) else old(Pixel(x', y'))
    {
      var x := 0;
      while x < size.width
        invariant 0 <= x <= size.width
        invariant forall x': nat, y': nat :: OnScreen(x', y') ==>
                    Pixel(x', y') == if y' == y - 16 && x' < x then old(Pixel(x', y)) else old(Pixel(x', y'))
      {
        InMemory(x, y);
        InMemory(x, y - 16);
        label before:
        assert memory[Index(x, y)] == Pixel(x, y);
        memory[Index(x, y - 16)] := memory[Index(x, y)];
        forall x': nat, y': nat | OnScreen(x', y')
          ensures Pixel(x', y') ==
                    if y' == y - 16 && x' == x then old@before(Pixel(x, y)) else old@before(Pixel(x', y'))
        {
          InMemory(x', y');
          Apart(x, y - 16, x', y');
        }
        x := x + 1;
      }
    }

    /** The copy in place moves every pixel 16 rows up; the bottom 16 rows get the background. */
    method ScrollPixels()
      requires Mapped()
      modifies memory
      ensures forall x: nat, y: nat :: OnScreen(x, y) ==>
                Pixel(x, y) == if y + 16 < size.height then old(Pixel(x, y + 16)) else colors.bg
    {
      assert size.Valid();
      hide Pixel;
      var y := 16;
      while y < size.height
        invariant 16 <= y <= size.height
        invariant forall x': nat, y': nat :: OnScreen(x', y') ==>
                    Pixel(x', y') == if y' + 16 < y then old(Pixel(x', y' + 16)) else old(Pixel(x', y'))
      {
        CopyRow(y);
        y := y + 1;
      }
      y := size.height - 16;
      while y < size.height
        invariant size.height - 16 <= y <= size.height
        invariant forall x': nat, y': nat :: OnScreen(x', y') ==>
                    Pixel(x', y') == if y' + 16 < size.height then old(Pixel(x', y' + 16))
                                     else if y' < y then colors.bg else old(Pixel(x', y'))
      {
        ClearRow(y);
        y := y + 1;
      }
    }

    /**
     The character cell at the cursor; in the background colour it is blank. Beyond the last column only that is
     drawn.
     */
    method DrawGlyph(ch: Byte, color: Word32, ghost g: Glyph)
      requires Mapped() && Shows(console.grid) && console.(col := 0).Valid() && console.size == size
      requires console.col <= size.Cols() && (g == Blank || console.col < size.Cols())
      requires (g == Blank && color == colors.bg) || (g == Ink(ch) && color == colors.text)
      requires cursorX == CELL_WIDTH * console.col && cursorY == CELL_HEIGHT * console.row
      modifies memory
      ensures Shows(SetCell(console.grid, console.row, console.col, g))
    {
      hide Mapped, Pixel, FontBit, Render, SetCell;
      ghost var grid := console.grid;
      DrawCharAt(cursorX, cursorY, ch, color, colors.bg);
      forall x: nat, y: nat | OnScreen(x, y)
        ensures Pixel(x, y) == Render(font, colors, SetCell(grid, console.row, console.col, g), x, y)
      {
        if console.col < size.Cols() {
          RenderSetCell(font, colors, grid, console.row, console.col, g, x, y);
        } else {
          RenderBeyond(font, colors, console, x, y);
        }
      }
    }

    method Scroll()
      requires Mapped() && Shows(console.grid) && console.(col := 0).Valid() && console.size == size
      requires cursorY >= 16
      modifies memory, this`cursorY
      ensures Shows(Scrolled(console.grid, size.Cols())) && cursorY == old(cursorY) - 16
    {
      hide Mapped, Pixel, FontBit, Render, Scrolled;
      ghost var grid := console.grid;
      ScrollPixels();
      forall x: nat, y: nat | OnScreen(x, y)
        ensures Pixel(x, y) == Render(font, colors, Scrolled(grid, size.Cols()), x, y)
      {
        RenderScrolled(font, colors, size, grid, x, y);
      }
      cursorY := cursorY - 16;
    }

    /** new_line, also at the end of a full row, where the cursor stands one column beyond the grid. */
    method NewLine()
      requires Mapped() && Shows(console.grid) && console.(col := 0).Valid() && console.size == size
      requires console.col <= size.Cols()
      requires cursorX == CELL_WIDTH * console.col && cursorY == CELL_HEIGHT * console.row
      modifies memory, this`cursorX, this`cursorY, this`console
      ensures Valid() && console == CharacterGrid.NewLine(old(console))
    {
      hide Mapped, Pixel, Render, Shows;
      DrawGlyph(SPACE, colors.bg, Blank);
      console := console.(grid := SetCell(console.grid, console.row, console.col, Blank));
      cursorX := 0;
      cursorY := cursorY + 16;
      if cursorY + 16 >= size.height {
        Scroll();
        console := console.(grid := Scrolled(console.grid, size.Cols()), col := 0);
      } else {
        console := console.(col := 0, row := console.row + 1);
      }
    }

    method WriteChar(ch: Byte)
      requires Valid()
      modifies memory, this`cursorX, this`cursorY, this`console
      ensures Valid() && console == CharacterGrid.WriteChar(old(console), ch)
      ensures cursorX + 8 < size.width && cursorY + 16 < size.height
    {
      hide Mapped, Pixel, Render, Shows;
      if ch == LF {
        NewLine();
      } else if ch == CR {
        cursorX := 0;
        console := console.(col := 0);
      } else {
        DrawGlyph(ch, colors.text, Ink(ch));
        cursorX := cursorX + 8;
        console := console.(grid := SetCell(console.grid, console.row, console.col, Ink(ch)), col := console.col + 1);
        if cursorX + 8 >= size.width {
          NewLine();
        }
      }
      CursorInside(console);
    }

    /** write_str of fmt::Write: the bytes of the string. */
    method WriteBytes(str: seq<Byte>)
      requires Valid()
      modifies memory, this`cursorX, this`cursorY, this`console
      ensures Valid() && console == WriteAll(old(console), str)
    {
      hide Mapped, Pixel, Render, Shows;
      var i := 0;
      while i < |str|
        invariant 0 <= i <= |str| && Valid()
        invariant console == WriteAll(old(console), str[..i])
      {
        assert str[..i + 1][..i] == str[..i];
        WriteChar(str[i]);
        i := i + 1;
      }
      assert str[..i] == str;
    }

    /** The console's own write_str: the bytes of the string, then the cursor. */
    method WriteStr(str: seq<Byte>)
      requires Valid()
      modifies memory, this`cursorX, this`cursorY, this`console
      ensures Valid() && console == WithCursor(WriteAll(old(console), str), cursorVisible)
    {
      WriteBytes(str);
      RenderCursor();
    }

    method RenderCursor()
      requires Valid()
      modifies memory, this`console
      ensures Valid() && console == WithCursor(old(console), cursorVisible)
    {
      hide Mapped, Pixel, Render, Shows, SetCell;
      DrawGlyph(CURSOR, if cursorVisible then colors.text else colors.bg, if cursorVisible then Ink(CURSOR) else Blank);
      console := WithCursor(console, cursorVisible);
    }

    ghost function Blinking(): Blinker
      reads this`cursorTicks, this`cursorVisible
    {
      Blinker(cursorTicks, cursorVisible)
    }

    /** One turn of the idle loop: the counter, and a change of the cursor when it is full. */
    method UpdateCursor()
      requires Valid() && cursorTicks < BLINK_LIMIT
      modifies memory, this`console, this`cursorVisible, this`cursorTicks
      ensures Valid() && cursorTicks < BLINK_LIMIT && Blinking() == Tick(old(Blinking()))
      ensures console == if cursorVisible == old(cursorVisible) then old(console)
                         else WithCursor(old(console), cursorVisible)
      ensures cursorVisible == old(cursorVisible) ==> memory[..] == old(memory[..])
    {
      hide Mapped, Pixel, Render, Shows, SetCell;
      cursorTicks := cursorTicks + 1;
      if cursorTicks >= BLINK_LIMIT {
        cursorTicks := 0;
        cursorVisible := !cursorVisible;
        RenderCursor();
      }
    }
  }
}
