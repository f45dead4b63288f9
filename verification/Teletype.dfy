/** The terminal as a teletype: an endless sheet of 80-column rows, of which the screen shows the last 25. */
module Teletype {
  import opened Words

  const COLS := 80
  const ROWS := 25
  const SCREEN := COLS * ROWS
  const BACKSPACE: Byte := 8

  type Cell = Word16

  /** `(uint16_t)c | color << 8` for a signed char: from 0x80 on, the sign bits replace the colour. */
  function CellOf(c: Byte, color: Byte): Cell {
    if c < 0x80 then c as int + 0x100 * color as int else 0xFF00 + c as int
  }

  function BlankRow(color: Byte): seq<Cell> {
    seq(COLS, _ => CellOf(SPACE, color))
  }

  /** The cells of all rows so far, row by row, and the index of the cell under the cursor. */
  datatype Sheet = Sheet(cells: seq<Cell>, at: nat, color: Byte) {
    predicate Valid() {
      |cells| >= SCREEN && |cells| % COLS == 0 && Top() <= at < |cells|
    }

    /** The index of the first cell on the screen. */
    function Top(): int {
      |cells| - SCREEN
    }

    function Screen(): seq<Cell>
      requires |cells| >= SCREEN
    {
      cells[Top()..]
    }
  }

  function FreshSheet(color: Byte): (s: Sheet)
    ensures s.Valid()
  {
    Sheet(seq(SCREEN, _ => CellOf(SPACE, color)), 0, color)
  }

  /** A new blank row once the cursor has left the last one. */
  function Fed(s: Sheet): Sheet {
    if s.at >= |s.cells| then s.(cells := s.cells + BlankRow(s.color)) else s
  }

  /** One character: a line feed, a backspace that stops at the top of the screen, or a printed cell. */
  function Put(s: Sheet, c: Byte): (t: Sheet)
    requires s.Valid()
    ensures t.Valid() && t.color == s.color
  {
    if c == LF then
      Fed(s.(at := s.at / COLS * COLS + COLS))
    else if c == BACKSPACE then
      if s.at > s.Top() then s.(at := s.at - 1, cells := s.cells[s.at - 1 := CellOf(SPACE, s.color)]) else s
    else
      Fed(s.(at := s.at + 1, cells := s.cells[s.at := CellOf(c, s.color)]))
  }

  function Typed(s: Sheet, str: seq<Byte>): (t: Sheet)
    requires s.Valid()
    ensures t.Valid() && t.color == s.color
    decreases |str|
  {
    if str == [] then s else Put(Typed(s, str[..|str| - 1]), str[|str| - 1])
  }

  /** A character changes no cell above the screen, and the screen only moves down. */
  lemma PutKeepsAbove(s: Sheet, c: Byte)
    requires s.Valid()
    ensures Put(s, c).Top() >= s.Top() && Put(s, c).cells[..s.Top()] == s.cells[..s.Top()]
  {
  }

  /** Over every string, rows that have left the screen stay as they were. */
  lemma {:induction false} TypedKeepsAbove(s: Sheet, str: seq<Byte>)
    requires s.Valid()
    ensures Typed(s, str).Top() >= s.Top() && Typed(s, str).cells[..s.Top()] == s.cells[..s.Top()]
    decreases |str|
  {
    if str != [] {
      var front := str[..|str| - 1];
      TypedKeepsAbove(s, front);
      var t := Typed(s, front);
      var u := Put(t, str[|str| - 1]);
      PutKeepsAbove(t, str[|str| - 1]);
      assert u.cells[..s.Top()] == u.cells[..t.Top()][..s.Top()];
      assert t.cells[..s.Top()] == t.cells[..t.Top()][..s.Top()];
    }
  }

  /**
   Over every string without line feeds and backspaces: its characters stand one after the other on the sheet from
   the cursor on, across wraps and scrolls, and what stood before the cursor stays.
   */
  lemma {:induction false} TypedSpells(s: Sheet, str: seq<Byte>)
    requires s.Valid() && 10 !in str && 8 !in str
    ensures var t := Typed(s, str);
            && t.at == s.at + |str| <= |t.cells|
            && t.cells[..s.at] == s.cells[..s.at]
            && forall k :: 0 <= k < |str| ==> t.cells[s.at + k] == CellOf(str[k], s.color)
    decreases |str|
  {
    hide CellOf;
    if str != [] {
      var front, last := str[..|str| - 1], str[|str| - 1];
      TypedSpells(s, front);
      PutPlain(Typed(s, front), last);
      var t, u := Typed(s, front), Typed(s, str);
      assert u.cells[..s.at] == u.cells[..t.at][..s.at] == t.cells[..t.at][..s.at];
      assert forall j :: s.at <= j < t.at ==> u.cells[j] == u.cells[..t.at][j];
    }
  }

  lemma PutPlain(s: Sheet, c: Byte)
    requires s.Valid() && c != 10 && c != 8
    ensures var t := Put(s, c);
            t.at == s.at + 1 <= |t.cells| && t.cells[..s.at] == s.cells[..s.at] && t.cells[s.at] == CellOf(c, s.color)
  {
    hide CellOf;
  }

  /** What the terminal can see of a sheet: the screen, the cursor relative to it, the colour. */
  predicate SameView(s: Sheet, t: Sheet)
    requires s.Valid() && t.Valid()
  {
    s.Screen() == t.Screen() && s.at - s.Top() == t.at - t.Top() && s.color == t.color
  }

  /** The view after a character, cell by cell, in terms of the view before. */
  lemma PutView(s: Sheet, c: Byte, k: nat)
    requires s.Valid() && k < SCREEN
    ensures var off := s.at - s.Top();
            var shift := if c == LF then (if off >= SCREEN - COLS then COLS else 0)
                         else if c != BACKSPACE && off + 1 == SCREEN then COLS else 0;
            && Put(s, c).Top() == s.Top() + shift
            && Put(s, c).at - s.Top() == (if c == LF then off / COLS * COLS + COLS
                                          else if c == BACKSPACE then (if off > 0 then off - 1 else off) else off + 1)
            && Put(s, c).Screen()[k] ==
                 if c == BACKSPACE && off > 0 && k == off - 1 then CellOf(SPACE, s.color)
                 else if c != LF && c != BACKSPACE && k + shift == off then CellOf(c, s.color)
                 else if k + shift < SCREEN then s.Screen()[k + shift]
                 else CellOf(SPACE, s.color)
  {
  }

  /** The same for the whole screen. */
  lemma PutViewAll(s: Sheet, c: Byte)
    requires s.Valid()
    ensures var off := s.at - s.Top();
            var shift := if c == LF then (if off >= SCREEN - COLS then COLS else 0)
                         else if c != BACKSPACE && off + 1 == SCREEN then COLS else 0;
            && Put(s, c).at - Put(s, c).Top() == (if c == LF then off / COLS * COLS + COLS
                                                  else if c != BACKSPACE then off + 1
                                                  else if off > 0 then off - 1 else off) - shift
            && forall k :: 0 <= k < SCREEN ==>
                 Put(s, c).Screen()[k] ==
                 if c == BACKSPACE && off > 0 && k == off - 1 then CellOf(SPACE, s.color)
                 else if c != LF && c != BACKSPACE && k + shift == off then CellOf(c, s.color)
                 else if k + shift < SCREEN then s.Screen()[k + shift]
                 else CellOf(SPACE, s.color)
  {
    PutView(s, c, 0);
    hide Put, CellOf;
    forall k: nat | k < SCREEN {
      PutView(s, c, k);
    }
  }

  lemma PutSameView(s: Sheet, t: Sheet, c: Byte)
    requires s.Valid() && t.Valid() && SameView(s, t)
    ensures SameView(Put(s, c), Put(t, c))
  {
    hide Put, CellOf;
    PutViewAll(s, c);
    PutViewAll(t, c);
  }

  /**
   Rows that have left the screen are never needed again: what is seen after any string depends only on what is
   seen now.
   */
  lemma {:induction false} ViewSuffices(s: Sheet, t: Sheet, str: seq<Byte>)
    requires s.Valid() && t.Valid() && SameView(s, t)
    ensures SameView(Typed(s, str), Typed(t, str))
    decreases |str|
  {
    hide SameView, Put;
    if str != [] {
      var front := str[..|str| - 1];
      ViewSuffices(s, t, front);
      PutSameView(Typed(s, front), Typed(t, front), str[|str| - 1]);
    }
  }

  /** A cell carries the colour and the character exactly for ASCII characters, or if the colour is 0xFF anyway. */
  lemma ColorLaw(c: Byte, color: Byte)
    ensures CellOf(c, color) == 0x100 * color as int + c as int <==> c < 0x80 || color == 0xFF
    ensures CellOf(c, color) % 0x100 == c && (c >= 0x80 ==> CellOf(c, color) / 0x100 == 0xFF)
  {
  }
}
