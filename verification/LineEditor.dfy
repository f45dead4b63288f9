/** Reading a line with echo: the buffer and the screen stay in step. */
module LineEditor {
  import opened Words
  import opened Teletype
  import opened Terminals

  /** What a line of keystrokes leaves in the buffer: each backspace takes back the last character, if there is one. */
  function Reduced(keys: Text): (r: Text)
    decreases |keys|
  {
    if keys == [] then []
    else
      var front, last := Reduced(keys[..|keys| - 1]), keys[|keys| - 1];
      if last != BACKSPACE then front + [last]
      else if front != [] then front[..|front| - 1]
      else []
  }

  /** Without backspaces the buffer is what was typed. */
  lemma {:induction false} ReducedPlain(keys: Text)
    requires 8 !in keys
    ensures Reduced(keys) == keys
    decreases |keys|
  {
    if keys != [] {
      ReducedPlain(keys[..|keys| - 1]);
    }
  }

  /** A backspace with nothing before it might as well not have been typed. */
  lemma {:induction false} ReducedLeading(keys: Text)
    ensures Reduced([8] + keys) == Reduced(keys)
    decreases |keys|
  {
    if keys != [] {
      var front := keys[..|keys| - 1];
      ReducedLeading(front);
      assert ([8] + keys)[..|keys|] == [8] + front;
    }
  }

  /** One more key. */
  lemma ReducedSnoc(keys: Text, c: Char)
    ensures Reduced(keys + [c]) == if c != BACKSPACE then Reduced(keys) + [c]
                                   else if Reduced(keys) == [] then [] else Reduced(keys)[..|Reduced(keys)| - 1]
  {
    assert (keys + [c])[..|keys|] == keys;
  }

  /** A character and the backspace after it might as well not have been typed, wherever they stand in the input. */
  lemma {:induction false} ReducedCancels(a: Text, c: Char, b: Text)
    requires c != 8
    ensures Reduced(a + [c, 8] + b) == Reduced(a + b)
    decreases |b|
  {
    hide Reduced;
    var pair: Text := [c, BACKSPACE];
    if b == [] {
      ReducedSnoc(a, c);
      ReducedSnoc(a + [c], BACKSPACE);
      assert a + pair + b == a + [c] + [BACKSPACE] && a + b == a;
    } else {
      var front, last := b[..|b| - 1], b[|b| - 1];
      ReducedCancels(a, c, front);
      ReducedSnoc(a + pair + front, last);
      ReducedSnoc(a + front, last);
      assert a + pair + b == a + pair + front + [last] && a + b == a + front + [last];
    }
  }

  /** The echo: a backspace only when the buffer has a character to take back. */
  function Echo(s: Sheet, keys: Text): (t: Sheet)
    requires s.Valid()
    ensures t.Valid() && t.color == s.color
    decreases |keys|
  {
    if keys == [] then s
    else
      var front, last := keys[..|keys| - 1], keys[|keys| - 1];
      if last == BACKSPACE && Reduced(front) == [] then Echo(s, front) else Put(Echo(s, front), last)
  }

  /** The characters of `line` stand on the sheet from `start` on. */
  ghost predicate Spells(s: Sheet, start: nat, line: Text) {
    && start + |line| == s.at <= |s.cells|
    && forall j :: 0 <= j < |line| ==> s.cells[start + j] == CellOf(line[j], s.color)
  }

  /** No prefix of the input leaves more than `limit` characters in the buffer. */
  ghost predicate Within(keys: Text, limit: nat) {
    forall k :: 0 <= k <= |keys| ==> |Reduced(keys[..k])| <= limit
  }

  lemma EchoStep(s: Sheet, start: nat, line: Text, c: Char)
    requires s.Valid() && Spells(s, start, line) && s.Top() <= start && c != LF
    requires c == BACKSPACE ==> line != []
    ensures Spells(Put(s, c), start, if c == BACKSPACE then line[..|line| - 1] else line + [c])
    ensures Put(s, c).cells[..start] == s.cells[..start]
  {
  }

  /**
   Line editor and echo together: if the start of the line is still on the screen at the end, the buffer is the
   backspace reduction of the keys, the sheet spells the buffer from the start of the line to the cursor,
   across wraps and scrolls, and nothing before the line is touched.
   */
  lemma {:induction false} EchoSpells(s: Sheet, keys: Text)
    requires s.Valid() && LF !in keys && Echo(s, keys).Top() <= s.at
    ensures Spells(Echo(s, keys), s.at, Reduced(keys))
    ensures Echo(s, keys).cells[..s.at] == s.cells[..s.at]
    decreases |keys|
  {
    if keys != [] {
      var front, last := keys[..|keys| - 1], keys[|keys| - 1];
      var t := Echo(s, front);
      PutKeepsAbove(t, last);
      EchoSpells(s, front);
      if last != BACKSPACE || Reduced(front) != [] {
        EchoStep(t, s.at, Reduced(front), last);
      }
    }
  }

  lemma PutTop(s: Sheet, start: nat, line: Text, c: Char)
    requires s.Valid() && Spells(s, start, line) && s.Top() <= start && c != LF
    requires |line| < SCREEN - COLS || c == BACKSPACE
    ensures Put(s, c).Top() <= start
  {
  }

  lemma WithinFront(keys: Text, limit: nat)
    requires Within(keys, limit) && keys != []
    ensures Within(keys[..|keys| - 1], limit) && |Reduced(keys)| <= limit
  {
    var front := keys[..|keys| - 1];
    assert forall k :: 0 <= k <= |front| ==> front[..k] == keys[..k];
    assert keys[..|keys|] == keys;
  }

  /**
   A buffer of at most 24 rows of characters never pushes the start of its line off the screen, so the screen
   always spells it. The shell's buffer holds 127.
   */
  lemma {:induction false} ShortLineSpells(s: Sheet, keys: Text)
    requires s.Valid() && LF !in keys && Within(keys, SCREEN - COLS)
    ensures Spells(Echo(s, keys), s.at, Reduced(keys))
    ensures Echo(s, keys).Top() <= s.at && Echo(s, keys).cells[..s.at] == s.cells[..s.at]
    decreases |keys|
  {
    hide Put, Within;
    if keys != [] {
      var front, last := keys[..|keys| - 1], keys[|keys| - 1];
      WithinFront(keys, SCREEN - COLS);
      ShortLineSpells(s, front);
      if last != BACKSPACE || Reduced(front) != [] {
        EchoStep(Echo(s, front), s.at, Reduced(front), last);
        PutTop(Echo(s, front), s.at, Reduced(front), last);
      }
    }
  }

  /** The first line of the input, without its line feed. */
  function Line(keys: Text): (line: Text)
    requires LF in keys
    ensures |line| < |keys| && LF !in line && line == keys[..|line|] && keys[|line|] == LF
    ensures forall k :: 0 <= k < |line| ==> keys[k] != LF
  {
    if keys[0] == LF then [] else [keys[0]] + Line(keys[1..])
  }

  lemma EchoSnoc(s: Sheet, keys: Text, c: Char)
    requires s.Valid()
    ensures Echo(s, keys + [c]) ==
              if c == BACKSPACE && Reduced(keys) == [] then Echo(s, keys) else Put(Echo(s, keys), c)
  {
    assert (keys + [c])[..|keys|] == keys;
  }

  /** What the loop does with a key other than Enter. */
  method EditKey(term: Terminal, c: Char, buffer: array<Byte>, count: nat, ghost sheet: Sheet, ghost keys: Text)
    returns (newCount: nat)
    requires term.Valid() && sheet.Valid() && term.sheet == Echo(sheet, keys) && c != LF
    requires count == |Reduced(keys)| < buffer.Length && buffer[..count] == Reduced(keys)
    requires |Reduced(keys + [c])| < buffer.Length
    modifies term`x, term`y, term`sheet, term.vidmem, buffer
    ensures term.Valid() && term.sheet == Echo(sheet, keys + [c])
    ensures newCount == |Reduced(keys + [c])| && buffer[..newCount] == Reduced(keys + [c])
  {
    ReducedSnoc(keys, c);
    EchoSnoc(sheet, keys, c);
    hide Put, Echo, Reduced;
    newCount := count;
    if c == BACKSPACE {
      if newCount > 0 {
        newCount := newCount - 1;
        term.PutChar(BACKSPACE);
      }
    } else {
      term.PutChar(c);
      buffer[newCount] := c;
      newCount := newCount + 1;
    }
  }

  lemma WithinAt(keys: Text, limit: nat, k: nat)
    requires Within(keys, limit) && k < |keys|
    ensures |Reduced(keys[..k] + [keys[k]])| <= limit && |Reduced([])| <= limit
    ensures keys[..k + 1] == keys[..k] + [keys[k]]
  {
    assert keys[..k + 1] == keys[..k] + [keys[k]];
  }

  /**
   istream::operator>>(char*): reads keys up to Enter into the buffer and echoes them; the source does not check
   the buffer's size.
   */
  method ReadLine(term: Terminal, keys: Text, buffer: array<Byte>) returns (consumed: nat)
    requires term.Valid() && LF in keys && buffer.Length > 0 && Within(Line(keys), buffer.Length - 1)
    modifies term`x, term`y, term`sheet, term.vidmem, buffer
    ensures term.Valid() && term.sheet == Put(Echo(old(term.sheet), Line(keys)), LF)
    ensures var line := Reduced(Line(keys));
            |line| < buffer.Length && buffer[..|line|] == line && buffer[|line|] == 0
    ensures consumed == |Line(keys)| + 1
  {
    hide Put, Within, Line;
    ghost var line := Line(keys);
    ghost var sheet := term.sheet;
    var i := 0;
    consumed := 0;
    while keys[consumed] != LF
      invariant consumed <= |line| && term.Valid()
      invariant i == |Reduced(line[..consumed])| < buffer.Length && buffer[..i] == Reduced(line[..consumed])
      invariant term.sheet == Echo(sheet, line[..consumed])
      decreases |keys| - consumed
    {
      assert consumed < |line| && line[consumed] == keys[consumed];
      WithinAt(line, buffer.Length - 1, consumed);
      i := EditKey(term, keys[consumed], buffer, i, sheet, line[..consumed]);
      consumed := consumed + 1;
    }
    assert line[..consumed] == line;
    term.PutChar(LF);
    buffer[i] := 0;
    consumed := consumed + 1;
  }
}
