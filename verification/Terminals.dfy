/** The VGA terminal: video memory changed in place, the cursor, and scrolling. */
module Terminals {
  import opened Words
  import opened Teletype

  /** Where the cursor goes before the screen scrolls, for a character other than a backspace. */
  function NextColumn(c: Byte, x: nat): nat {
    if c == LF || x + 1 >= COLS then 0 else x + 1
  }

  function NextRow(c: Byte, x: nat, y: nat): nat {
    if c == LF || x + 1 >= COLS then y + 1 else y
  }

  /** The view after such a character, by column and row. */
  lemma PutViewAt(s: Sheet, c: Byte, x: nat, y: nat)
    requires s.Valid() && c != BACKSPACE && x < COLS && y < ROWS && s.at == s.Top() + COLS * y + x
    ensures var next, scrolls := Put(s, c), NextRow(c, x, y) == ROWS;
            && next.at == next.Top() + COLS * (if scrolls then ROWS - 1 else NextRow(c, x, y)) + NextColumn(c, x)
            && next.Screen() == ScreenAfter(s.Screen(), c, COLS * y + x, scrolls, s.color)
  {
    hide Put, CellOf;
    PutViewAll(s, c);
    assert forall k :: 0 <= k < SCREEN ==>
      Put(s, c).Screen()[k] == ScreenAfter(s.Screen(), c, COLS * y + x, NextRow(c, x, y) == ROWS, s.color)[k];
  }

  /** The screen without its first row, and a blank row at the bottom. */
  function ScreenUp(screen: seq<Cell>, color: Byte): (r: seq<Cell>)
    requires |screen| == SCREEN
    ensures |r| == SCREEN
  {
    screen[COLS..] + BlankRow(color)
  }

  function ScreenAfter(screen: seq<Cell>, c: Byte, at: nat, scrolls: bool, color: Byte): (r: seq<Cell>)
    requires |screen| == SCREEN && at < SCREEN
    ensures |r| == SCREEN
  {
    var written := if c == LF then screen else screen[at := CellOf(c, color)];
    if scrolls then ScreenUp(written, color) else written
  }

  class Terminal {
    const vidmem: array<Cell>
    var x: int
    var y: int
    var currentColor: Byte
    /** The sheet of which the video memory is the screen. */
    ghost var sheet: Sheet

    ghost predicate Valid()
      reads this, vidmem
    {
      && vidmem.Length == SCREEN
      && 0 <= x < COLS && 0 <= y < ROWS
      && sheet.Valid() && sheet.color == currentColor
      && vidmem[..] == sheet.Screen()
      && sheet.at == sheet.Top() + COLS * y + x
    }

    constructor (memory: array<Cell>)
      requires memory.Length == SCREEN
      modifies memory
      ensures Valid() && vidmem == memory && sheet == FreshSheet(15)
      ensures x == 0 && y == 0 && currentColor == 15 && forall k :: 0 <= k < 2000 ==> memory[k] == 0x0F20
    {
      vidmem := memory;
      x, y := 0, 0;
      currentColor := 15;
      sheet := FreshSheet(15);
      new;
      Clear();
    }

    method SetColor(fg: Byte, bg: Byte)
      requires Valid() && fg < 16 && bg < 16
      modifies this`currentColor, this`sheet
      ensures Valid() && sheet == old(sheet).(color := fg as int + 16 * bg as int)
    {
      currentColor := fg as int + 16 * bg as int;
      sheet := sheet.(color := currentColor);
    }

    method Clear()
      requires vidmem.Length == SCREEN
      modifies this`x, this`y, this`sheet, vidmem
      ensures Valid() && sheet == FreshSheet(currentColor)
      ensures x == 0 && y == 0 && forall k :: 0 <= k < 2000 ==> vidmem[k] == 32 + 0x100 * currentColor as int
    {
      var i := 0;
      while i < COLS * ROWS
        invariant 0 <= i <= SCREEN
        invariant forall k :: 0 <= k < i ==> vidmem[k] == CellOf(SPACE, currentColor)
      {
        vidmem[i] := CellOf(SPACE, currentColor);
        i := i + 1;
      }
      x := 0;
      y := 0;
      sheet := FreshSheet(currentColor);
    }

    method PutChar(c: Byte)
      requires Valid()
      modifies this`x, this`y, this`sheet, vidmem
      ensures Valid() && sheet == Put(old(sheet), c)
    {
      if c == BACKSPACE {
        EraseBefore();
        return;
      }
      hide Put, CellOf, ScreenUp;
      PutViewAt(sheet, c, x, y);
      sheet := Put(sheet, c);
      if c == LF {
        x := 0;
        y := y + 1;
      } else {
        vidmem[y * COLS + x] := CellOf(c, currentColor);
        x := x + 1;
      }
      if x >= 80 {
        x := 0;
        y := y + 1;
      }
      if y >= 25 {
        ScrollUp();
        y := 24;
      }
    }

    /** The backspace branch of put_char. */
    method EraseBefore()
      requires Valid()
      modifies this`x, this`y, this`sheet, vidmem
      ensures Valid() && sheet == Put(old(sheet), BACKSPACE)
    {
      hide Put, CellOf;
      PutViewAll(sheet, BACKSPACE);
      sheet := Put(sheet, BACKSPACE);
      if x > 0 {
        x := x - 1;
        vidmem[y * COLS + x] := CellOf(SPACE, currentColor);
      } else if y > 0 {
        y := y - 1;
        x := 79;
        vidmem[y * COLS + x] := CellOf(SPACE, currentColor);
      }
    }

    /** The scrolling loops of put_char: rows 1 to 24 move up in place, the last row becomes blank. */
    method ScrollUp()
      requires vidmem.Length == SCREEN
      modifies vidmem
      ensures vidmem[..] == ScreenUp(old(vidmem[..]), currentColor)
    {
      var i := 0;
      while i < 24 * 80
        invariant 0 <= i <= 24 * 80
        invariant forall k :: 0 <= k < i ==> vidmem[k] == old(vidmem[k + COLS])
        invariant forall k :: i <= k < SCREEN ==> vidmem[k] == old(vidmem[k])
      {
        vidmem[i] := vidmem[i + 80];
        i := i + 1;
      }
      while i < 25 * 80
        invariant 24 * 80 <= i <= 25 * 80
        invariant forall k :: 0 <= k < 24 * 80 ==> vidmem[k] == old(vidmem[k + COLS])
        invariant forall k :: 24 * 80 <= k < i ==> vidmem[k] == CellOf(SPACE, currentColor)
      {
        vidmem[i] := CellOf(SPACE, currentColor);
        i := i + 1;
      }
    }

    method Print(str: Text)
      requires Valid()
      modifies this`x, this`y, this`sheet, vidmem
      ensures Valid() && sheet == Typed(old(sheet), str)
    {
      var i := 0;
      while i < |str|
        invariant 0 <= i <= |str| && Valid()
        invariant sheet == Typed(old(sheet), str[..i])
      {
        assert str[..i + 1][..i] == str[..i];
        PutChar(str[i]);
        i := i + 1;
      }
      assert str[..i] == str;
    }
  }
}
