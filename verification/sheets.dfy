/** The spreadsheet the script writes to, as a ragged grid of text cells.
    Rows and columns are numbered from 1, as in the spreadsheet service;
    a cell beyond the stored rows or beyond its row's length reads as "". */
module Sheets {

  type Row = seq<string>
  type Sheet = seq<Row>

  /** `sheet.getRange(row, col).getValue()` on a grid that holds only text. */
  function Cell(s: Sheet, row: int, col: int): string {
    if 1 <= row <= |s| && 1 <= col <= |s[row - 1]| then s[row - 1][col - 1] else ""
  }

  /** `n` empty cells. */
  function Blank(n: nat): (r: Row)
    ensures |r| == n
    ensures forall i :: 0 <= i < n ==> r[i] == ""
  {
    seq(n, _ => "")
  }

  /** `sheet.appendRow(cells)`: the new row goes below every existing row,
      and no existing cell changes. */
  function AppendRow(s: Sheet, cells: Row): (r: Sheet)
    ensures |r| == |s| + 1
    ensures s <= r
    ensures r[|s|] == cells
    ensures forall row, c :: row != |s| + 1 ==> Cell(r, row, c) == Cell(s, row, c)
  {
    s + [cells]
  }

  /** Position of the last non-empty cell of a row, 0 when it has none. */
  function Width(cells: Row): (w: nat)
    ensures w <= |cells|
    ensures w > 0 ==> cells[w - 1] != ""
    ensures forall i :: w <= i < |cells| ==> cells[i] == ""
  {
    if |cells| == 0 then 0
    else if cells[|cells| - 1] != "" then |cells|
    else Width(cells[..|cells| - 1])
  }

  /** `sheet.getLastColumn()`: the last column that holds content in any row. */
  function LastColumn(s: Sheet): (n: nat)
    ensures forall row, col :: Cell(s, row, col) != "" ==> col <= n
    ensures n > 0 ==> exists row :: 1 <= row <= |s| && Cell(s, row, n) != ""
  {
    if |s| == 0 then 0
    else
      var front := s[..|s| - 1];
      var a := LastColumn(front);
      var b := Width(s[|s| - 1]);
      assert forall row, col :: row != |s| ==> Cell(s, row, col) == Cell(front, row, col);
      if a >= b then a
      else
        assert Cell(s, |s|, b) != "";
        b
  }

  /** `LastColumn` is the only column number that bounds every non-empty cell
      and is itself reached by one. */
  lemma LastColumnUnique(s: Sheet, n: nat)
    requires forall row, col :: Cell(s, row, col) != "" ==> col <= n
    requires n > 0 ==> exists row :: Cell(s, row, n) != ""
    ensures LastColumn(s) == n
  {
  }

  /** `cells` with `vals` written from 1-based column `col` on, padded
      with empty cells when the row is too short to hold them. */
  function Overwrite(cells: Row, col: int, vals: seq<string>): Row
    requires col >= 1
  {
    var end := col - 1 + |vals|;
    var padded := if |cells| >= end then cells else cells + Blank(end - |cells|);
    padded[..col - 1] + vals + padded[end..]
  }

  /** Cell by cell, `Overwrite` holds `vals` in their columns, the old
      cells elsewhere, and empty padding beyond the old row. */
  lemma OverwriteCells(cells: Row, col: int, vals: seq<string>)
    requires col >= 1
    ensures var r := Overwrite(cells, col, vals);
      && |r| == (if |cells| >= col - 1 + |vals| then |cells| else col - 1 + |vals|)
      && forall i :: 0 <= i < |r| ==>
           r[i] == if col - 1 <= i < col - 1 + |vals| then vals[i - (col - 1)]
                   else if i < |cells| then cells[i] else ""
  {
  }

  /** `sheet.getRange(1, col, 1, |vals|).setValues([vals])`: the header row's
      cells from `col` on take `vals`; every other cell keeps its value. */
  function SetHeaderCells(s: Sheet, col: int, vals: seq<string>): (r: Sheet)
    requires col >= 1
    ensures |r| == if |s| == 0 then 1 else |s|
    ensures forall c :: col <= c < col + |vals| ==> Cell(r, 1, c) == vals[c - col]
    ensures forall c :: !(col <= c < col + |vals|) ==> Cell(r, 1, c) == Cell(s, 1, c)
    ensures forall row, c :: row != 1 ==> Cell(r, row, c) == Cell(s, row, c)
  {
    var first := if |s| == 0 then [] else s[0];
    OverwriteCells(first, col, vals);
    [Overwrite(first, col, vals)] + (if |s| == 0 then [] else s[1..])
  }
}
