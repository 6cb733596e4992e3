/** How a text looks on the 80-column screen that the monitor prints, as a function of the
    text alone. */
module TextLayout {
  import opened Basics

  const NEWLINE: Byte := 10

  /** The text cut at its newlines. */
  function Lines(text: Bytes): (ls: seq<Bytes>)
    ensures ls != []
  {
    if text == [] then [[]]
    else
      var n := |text| - 1;
      var ls := Lines(text[..n]);
      if text[n] == NEWLINE then ls + [[]] else ls[|ls| - 1 := ls[|ls| - 1] + [text[n]]]
  }

  /** A line cut into rows; a line that fills its last row leaves the cursor on an empty one. */
  function Wrap(line: Bytes): (rows: seq<Bytes>)
    ensures rows != [] && |rows[|rows| - 1]| < 80
    decreases |line|
  {
    if |line| < 80 then [line] else [line[..80]] + Wrap(line[80..])
  }

  function WrapAll(ls: seq<Bytes>): seq<Bytes> {
    if ls == [] then [] else WrapAll(ls[..|ls| - 1]) + Wrap(ls[|ls| - 1])
  }

  /** The screen rows of a text; the last one, where the cursor is, is never full. */
  function Rows(text: Bytes): (rows: seq<Bytes>)
    ensures rows != [] && |rows[|rows| - 1]| < 80
  {
    WrapAll(Lines(text))
  }

  /** The part of row number `r` that fits in the buffer: cell 4088 is the last one the guest
      writes, at 0xb8000 + 2 * 4088 == 0xb9ff0. */
  function Visible(row: Bytes, r: nat): Bytes {
    if 80 * r >= 4089 then []
    else if |row| <= 4089 - 80 * r then row
    else row[..4089 - 80 * r]
  }

  /** Rows that show something, each on a line of its own. */
  function Transcript(rows: seq<Bytes>): Bytes {
    if rows == [] then []
    else
      var r := |rows| - 1;
      Transcript(rows[..r]) + Printed(rows[r], r)
  }

  function Printed(row: Bytes, r: nat): Bytes {
    if Visible(row, r) == [] then [] else [NEWLINE] + Visible(row, r)
  }

  // ---------------------------------------------------------------- one more character

  /** Rows after one more character. */
  function Extend(rows: seq<Bytes>, c: Byte): seq<Bytes>
    requires rows != []
  {
    var r := |rows| - 1;
    if c == NEWLINE then rows + [[]]
    else if |rows[r]| + 1 == 80 then rows[r := rows[r] + [c]] + [[]]
    else rows[r := rows[r] + [c]]
  }

  lemma ExtendTail(front: seq<Bytes>, rows: seq<Bytes>, c: Byte)
    requires rows != []
    ensures Extend(front + rows, c) == front + Extend(rows, c)
  {
    var all, r := front + rows, |rows| - 1;
    assert all[|all| - 1] == rows[r];
    if c == NEWLINE {
      assert all + [[]] == front + (rows + [[]]);
    } else {
      var row := rows[r] + [c];
      assert all[|all| - 1 := row] == front + rows[r := row];
      assert front + rows[r := row] + [[]] == front + (rows[r := row] + [[]]);
    }
  }

  lemma {:induction false} WrapExtend(line: Bytes, c: Byte)
    requires c != NEWLINE
    ensures Wrap(line + [c]) == Extend(Wrap(line), c)
    decreases |line|
  {
    if |line| < 80 - 1 {
    } else if |line| == 80 - 1 {
      assert (line + [c])[..80] == line + [c];
      assert (line + [c])[80..] == [];
    } else {
      WrapExtend(line[80..], c);
      assert (line + [c])[..80] == line[..80];
      assert (line + [c])[80..] == line[80..] + [c];
      ExtendTail([line[..80]], Wrap(line[80..]), c);
    }
  }

  /** The rows of a text grow at their end only. */
  lemma RowsExtend(text: Bytes, c: Byte)
    ensures Rows(text + [c]) == Extend(Rows(text), c)
  {
    assert (text + [c])[..|text|] == text;
    var ls := Lines(text);
    var n := |ls| - 1;
    var done, line := WrapAll(ls[..n]), ls[n];
    if c == NEWLINE {
      assert (ls + [[]])[..n + 1] == ls;
      assert Wrap([]) == [[]];
    } else {
      var ls' := ls[n := line + [c]];
      assert ls'[..n] == ls[..n];
      WrapExtend(line, c);
      ExtendTail(done, Wrap(line), c);
    }
  }

  lemma TranscriptEmptyRow(rows: seq<Bytes>)
    ensures Transcript(rows + [[]]) == Transcript(rows)
  {
    assert (rows + [[]])[..|rows|] == rows;
  }

  lemma TranscriptLast(rows: seq<Bytes>, row: Bytes)
    ensures Transcript(rows + [row]) == Transcript(rows) + Printed(row, |rows|)
  {
    assert (rows + [row])[..|rows|] == rows;
  }

  lemma PrintedExtend(row: Bytes, c: Byte, r: nat)
    ensures Printed(row + [c], r) ==
              if 80 * r + |row| >= 4089 then Printed(row, r)
              else Printed(row, r) + if |row| == 0 then [NEWLINE, c] else [c]
  {
    if 80 * r + |row| >= 4089 {
      assert Visible(row + [c], r) == Visible(row, r);
    } else {
      assert Visible(row, r) == row && Visible(row + [c], r) == row + [c];
    }
  }

  lemma TranscriptLastRow(rows: seq<Bytes>, row: Bytes, c: Byte)
    ensures Transcript(rows + [row + [c]]) ==
              if 80 * |rows| + |row| >= 4089 then Transcript(rows + [row])
              else Transcript(rows + [row]) + if |row| == 0 then [NEWLINE, c] else [c]
  {
    TranscriptLast(rows, row);
    TranscriptLast(rows, row + [c]);
    PrintedExtend(row, c, |rows|);
    if 80 * |rows| + |row| < 4089 {
      ConcatAssoc(Transcript(rows), Printed(row, |rows|), if |row| == 0 then [NEWLINE, c] else [c]);
    }
  }

  /** What one more character adds to the transcript. */
  lemma TranscriptExtend(rows: seq<Bytes>, c: Byte)
    requires rows != [] && |rows[|rows| - 1]| < 80
    ensures var r := |rows| - 1;
            Transcript(Extend(rows, c)) ==
              if c == NEWLINE || 80 * r + |rows[r]| >= 4089 then Transcript(rows)
              else Transcript(rows) + if |rows[r]| == 0 then [NEWLINE, c] else [c]
  {
    var r := |rows| - 1;
    if c == NEWLINE {
      TranscriptEmptyRow(rows);
    } else {
      assert rows == rows[..r] + [rows[r]];
      var rows' := rows[r := rows[r] + [c]];
      assert rows' == rows[..r] + [rows[r] + [c]];
      TranscriptLastRow(rows[..r], rows[r], c);
      TranscriptEmptyRow(rows');
    }
  }

  function ExtendAll(rows: seq<Bytes>, text: Bytes): seq<Bytes>
    requires rows != []
    decreases |text|
  {
    if text == [] then rows else ExtendAll(Extend(rows, text[0]), text[1..])
  }

  lemma {:induction false} ExtendAllOne(rows: seq<Bytes>, text: Bytes, c: Byte)
    requires rows != []
    ensures ExtendAll(rows, text) != []
    ensures ExtendAll(rows, text + [c]) == Extend(ExtendAll(rows, text), c)
    decreases |text|
  {
    if text == [] {
      assert [c][1..] == [];
    } else {
      ExtendAllOne(Extend(rows, text[0]), text[1..], c);
      assert (text + [c])[1..] == text[1..] + [c];
    }
  }

  /** Laying out a text at once is laying it out character by character. */
  lemma {:induction false} RowsAreExtendAll(text: Bytes)
    ensures Rows(text) == ExtendAll([[]], text)
    decreases |text|
  {
    if text == [] {
      assert Wrap([]) == [[]];
      assert WrapAll([[]]) == WrapAll([]) + Wrap([]);
    } else {
      var n := |text| - 1;
      RowsAreExtendAll(text[..n]);
      RowsExtend(text[..n], text[n]);
      ExtendAllOne([[]], text[..n], text[n]);
      assert text == text[..n] + [text[n]];
    }
  }
}
