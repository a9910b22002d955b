/** The two maintenance helpers that are run by hand: `initializeSheet`,
    which writes the nine-column header row once, and `updateExistingSheet`,
    which adds header names for the columns an older eight- or six-column
    sheet lacks.  Cell formatting (bold, colours) is not modelled. */
module Headers {
  import opened Sheets

  /** The header row, in the order `doPost` fills the columns. */
  const HeaderNames: seq<string> :=
    ["UID", "Timestamp", "Latitude", "Longitude", "Address", "City",
     "User Name", "User Class", "Device Info"]

  function Min(a: int, b: int): int {
    if a <= b then a else b
  }

  /** `initializeSheet`: when cell A1 is empty the header row is appended,
      otherwise the sheet is left alone. */
  function InitializeSheet(s: Sheet): (r: Sheet)
    ensures Cell(s, 1, 1) != "" ==> r == s
    ensures Cell(s, 1, 1) == "" ==> s <= r && |r| == |s| + 1 && r[|s|] == HeaderNames
  {
    if Cell(s, 1, 1) != "" then s else AppendRow(s, HeaderNames)
  }

  /** A second run changes nothing exactly when the first one found A1
      filled or the sheet empty; a sheet whose A1 is empty but which already
      has rows gets one more header row on every run.  A sheet holding only
      a blank row counts as having rows here, because `AppendRow` appends
      after the last stored row (see `InitializeAfterBlankRow`). */
  lemma InitializeIdempotentIff(s: Sheet)
    ensures InitializeSheet(InitializeSheet(s)) == InitializeSheet(s)
        <==> |s| == 0 || Cell(s, 1, 1) != ""
  {
    var once := InitializeSheet(s);
    if |s| == 0 {
      assert once == [HeaderNames];
      assert Cell(once, 1, 1) == "UID";
    } else if Cell(s, 1, 1) == "" {
      assert Cell(once, 1, 1) == "";
      assert |InitializeSheet(once)| == |once| + 1;
    }
  }

  /** Running `initializeSheet` twice on a blank sheet leaves exactly one
      header row. */
  lemma InitializeTwiceOnEmpty()
    ensures InitializeSheet(InitializeSheet([])) == [HeaderNames]
  {
    InitializeIdempotentIff([]);
  }

  /** A sheet whose only row is blank, as left behind by posting `{}`:
      the header goes to row 2, A1 stays empty, and every further run
      appends the header again. */
  lemma InitializeAfterBlankRow()
    ensures InitializeSheet([[""]]) == [[""], HeaderNames]
    ensures InitializeSheet(InitializeSheet([[""]])) == [[""], HeaderNames, HeaderNames]
  {
  }

  /** The names `updateExistingSheet` collects: each of the last three
      header names whose 1-based column lies beyond `lastColumn`.  The first
      six names are never considered. */
  function MissingHeaders(lastColumn: int): (names: seq<string>)
    ensures lastColumn >= 9 ==> names == []
    ensures lastColumn < 9 ==> |names| == Min(3, 9 - lastColumn)
    ensures names == HeaderNames[9 - |names|..]
    ensures forall name :: name in names ==> name !in HeaderNames[..6]
  {
    var userName := if lastColumn < 7 then ["User Name"] else [];
    var userClass := if lastColumn < 8 then ["User Class"] else [];
    var deviceInfo := if lastColumn < 9 then ["Device Info"] else [];
    userName + userClass + deviceInfo
  }

  /** `updateExistingSheet`: with `n = getLastColumn()` below 9, the
      collected names are written into the header row from column `n + 1`
      on; with 9 or more columns nothing changes. */
  function UpdateExistingSheet(s: Sheet): (r: Sheet)
    ensures LastColumn(s) >= 9 ==> r == s
    ensures LastColumn(s) < 9 ==>
      var names := MissingHeaders(LastColumn(s));
      && (forall j :: 0 <= j < |names| ==> Cell(r, 1, LastColumn(s) + 1 + j) == names[j])
      && (forall c :: c <= LastColumn(s) || c > LastColumn(s) + |names| ==> Cell(r, 1, c) == Cell(s, 1, c))
    ensures forall row, c :: row != 1 ==> Cell(r, row, c) == Cell(s, row, c)
  {
    var lastColumn := LastColumn(s);
    if lastColumn < 9 then SetHeaderCells(s, lastColumn + 1, MissingHeaders(lastColumn)) else s
  }

  /** After an update from fewer than nine columns, the last column is the
      old one plus the number of names written. */
  lemma LastColumnAfterUpdate(s: Sheet)
    requires LastColumn(s) < 9
    ensures LastColumn(UpdateExistingSheet(s)) == LastColumn(s) + |MissingHeaders(LastColumn(s))|
  {
    var n := LastColumn(s);
    var names := MissingHeaders(n);
    var r := UpdateExistingSheet(s);
    var m := n + |names|;
    assert Cell(r, 1, m) == names[|names| - 1];
    forall row, col | Cell(r, row, col) != ""
      ensures col <= m
    {
      if row != 1 || col <= n || col > m {
        assert Cell(s, row, col) != "";
      }
    }
    LastColumnUnique(r, m);
  }

  /** From six columns on, every written name lands in its own column:
      the header row then reads the full header list from column `n + 1`
      to 9. */
  lemma UpdateFillsOwnColumnsFromSix(s: Sheet)
    requires 6 <= LastColumn(s) < 9
    ensures forall c :: LastColumn(s) < c <= 9 ==> Cell(UpdateExistingSheet(s), 1, c) == HeaderNames[c - 1]
  {
    var n := LastColumn(s);
    var names := MissingHeaders(n);
    assert |names| == 9 - n;
    forall c | n < c <= 9
      ensures Cell(UpdateExistingSheet(s), 1, c) == HeaderNames[c - 1]
    {
      assert Cell(UpdateExistingSheet(s), 1, n + 1 + (c - n - 1)) == names[c - n - 1];
    }
  }

  /** Below six columns the three names are written right after the last
      used column, not in their own columns: "User Name" lands in column
      `n + 1` and column 9 stays empty. */
  lemma UpdateMisplacesBelowSix(s: Sheet)
    requires LastColumn(s) < 6
    ensures Cell(UpdateExistingSheet(s), 1, LastColumn(s) + 1) == "User Name"
    ensures HeaderNames[LastColumn(s)] != "User Name"
    ensures Cell(UpdateExistingSheet(s), 1, 9) == ""
  {
    var n := LastColumn(s);
    var r := UpdateExistingSheet(s);
    var names := MissingHeaders(n);
    assert |names| == 3 && names[0] == "User Name";
    assert Cell(r, 1, n + 1 + 0) == names[0];
    assert HeaderNames[n] in HeaderNames[..6];
    assert Cell(s, 1, 9) == "";
    assert Cell(r, 1, 9) == Cell(s, 1, 9);
  }

  /** A second update changes nothing exactly when the first started from
      six or more columns; below six, the second run writes more names
      (`SecondUpdateBelowSix`), and runs stop changing the sheet once the
      last column reaches 9 (`UpdateSettlesAfterThreeRuns`). */
  lemma UpdateIdempotentIff(s: Sheet)
    ensures UpdateExistingSheet(UpdateExistingSheet(s)) == UpdateExistingSheet(s) <==> LastColumn(s) >= 6
  {
    var n := LastColumn(s);
    var once := UpdateExistingSheet(s);
    if n >= 9 {
      assert once == s;
    } else if n >= 6 {
      LastColumnAfterUpdate(s);
      assert LastColumn(once) == 9;
      assert UpdateExistingSheet(once) == once;
    } else {
      UpdateAgainBelowSix(s);
    }
  }

  /** Below six columns a second update writes again, three columns further on. */
  lemma UpdateAgainBelowSix(s: Sheet)
    requires LastColumn(s) < 6
    ensures UpdateExistingSheet(UpdateExistingSheet(s)) != UpdateExistingSheet(s)
  {
    var once := UpdateExistingSheet(s);
    LastColumnAfterUpdate(s);
    var m := LastColumn(once);
    assert m < 9;
    assert Cell(once, 1, m + 1) == "";
    assert Cell(UpdateExistingSheet(once), 1, m + 1 + 0) == MissingHeaders(m)[0];
  }

  /** Below six columns, the first run leaves the last column at `n + 3`,
      so the second run writes `MissingHeaders(n + 3)` from column `n + 4`
      on. */
  lemma SecondUpdateBelowSix(s: Sheet)
    requires LastColumn(s) < 6
    ensures var n := LastColumn(s);
            var once := UpdateExistingSheet(s);
            var names := MissingHeaders(n + 3);
            && LastColumn(once) == n + 3
            && forall j :: 0 <= j < |names| ==> Cell(UpdateExistingSheet(once), 1, n + 4 + j) == names[j]
  {
    LastColumnAfterUpdate(s);
  }

  /** Whatever the sheet, three runs bring the last column to 9 or more,
      and from then on a run changes nothing. */
  lemma UpdateSettlesAfterThreeRuns(s: Sheet)
    ensures var thrice := UpdateExistingSheet(UpdateExistingSheet(UpdateExistingSheet(s)));
            && LastColumn(thrice) >= 9
            && UpdateExistingSheet(thrice) == thrice
  {
    var once := UpdateExistingSheet(s);
    var twice := UpdateExistingSheet(once);
    if LastColumn(s) < 9 {
      LastColumnAfterUpdate(s);
    }
    if LastColumn(once) < 9 {
      LastColumnAfterUpdate(once);
    }
    if LastColumn(twice) < 9 {
      LastColumnAfterUpdate(twice);
    }
  }
}
