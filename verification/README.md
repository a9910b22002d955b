# NFC Field Logger sync endpoint — Dafny model

The NFC Field Logger backend is one Google Apps Script file. `doPost` takes a JSON body
`{"logs": [...]}` and appends one nine-cell row per log record to the active spreadsheet. It then
answers with `{status, message, count, total}`. Two helpers are run by hand. `initializeSheet`
writes the header row once. `updateExistingSheet` adds the header names an older sheet lacks.

This project models those three operations as pure functions:

- `js_values.dfy` (module `JsValues`): JavaScript values as `JSON.parse` produces them
  (`Undefined | Null | Bool | Num | Str | Arr | Obj`). It also covers truthiness, property reads
  (which throw on `null`/`undefined`) and `toString`, including `Array.prototype.join`. Every
  JS expression finishes as a `Completion`: a value, or a thrown error.
- `sheets.dfy` (module `Sheets`): the sheet as rows of text cells, addressed from 1. It models
  `appendRow`, `getLastColumn` (the last column holding a non-empty cell) and
  `getRange(1, c, 1, n).setValues`.
- `headers.dfy` (module `Headers`): `initializeSheet` and `updateExistingSheet`.
- `batches.dfy` (module `Batches`): `Rows`, the rows a batch adds given what each element came
  to (a row or a thrown error). It is the reference definition for the loop in `doPost`.
- `ingest.dfy` (modules `Ingest` and `IngestProperties`): `doPost`. This covers validation in
  source order, the row literal with its two coercion rules, and the `forEach` with its
  per-element `try`/`catch` as a fold. `Stored` applies `Rows` to the outcome of every element.
  The fold is proved equal to it, and the properties are stated about it.

The source supplies three things from outside, and the model takes them as parameters:

- `parse`: a `JsonParser`, standing for `JSON.parse`.
- `fmt`: a `NumberFormatter`, standing for `Number.prototype.toString`.
- `accepts`: an `AppendOracle`. It says, for each position in `logs`, whether the spreadsheet
  service accepts that element's `appendRow`.

The comment at line 126 says `updateExistingSheet` adds the missing columns. Lines 137-139,
however, only ever consider the last three names, and the write at line 142 starts at column
`lastColumn + 1`, whatever that is. The model follows the code:

- From six to eight columns, each column from `lastColumn + 1` to 9 gets its own header name
  (`UpdateFillsOwnColumnsFromSix`).
- Below six columns, "User Name", "User Class" and "Device Info" land in the wrong columns and
  column 9 stays empty (`UpdateMisplacesBelowSix`).
- A second run from below six writes `MissingHeaders(n + 3)` from column `n + 4` on
  (`SecondUpdateBelowSix`).
- Runs stop changing the sheet once the last column reaches 9. That takes at most three runs
  (`UpdateSettlesAfterThreeRuns`).

`initializeSheet` checks only cell A1. A sheet whose A1 is empty but which already has rows
gets a new header row at the bottom on every run. `InitializeIdempotentIff` states exactly when
a second run is a no-op. A blank first row counts as a row here, because `Sheets.AppendRow`
appends after the last stored row. Posting `{"logs": [{}]}` to an empty sheet leaves such a
row. `initializeSheet` then puts the header in row 2, and every further run appends it again
(`InitializeAfterBlankRow`). The service would put the header in row 1 and then stop.

## Model

| member | source | states |
|---|---|---|
| `Sheets.AppendRow` | google_apps_scrips.js:53 | the row goes below all existing rows; no existing cell changes |
| `Sheets.LastColumn` | google_apps_scrips.js:131 | the result bounds the column of every non-empty cell, and some row has a non-empty cell in that column |
| `Sheets.SetHeaderCells` | google_apps_scrips.js:142-143 | header-row cells from `col` on take the given names; every other cell of every row is unchanged |
| `Headers.InitializeSheet` | google_apps_scrips.js:105-115 | A1 non-empty: sheet unchanged; A1 empty: exactly the nine header names are appended as one new last row |
| `Headers.InitializeIdempotentIff` | google_apps_scrips.js:109-115 | running it twice equals running it once iff the sheet was empty or A1 was non-empty |
| `Headers.InitializeTwiceOnEmpty` | google_apps_scrips.js:105-115 | two runs on a blank sheet leave exactly one header row |
| `Headers.InitializeAfterBlankRow` | google_apps_scrips.js:109-115 | on a sheet whose only row is blank, the header goes to row 2 and a second run appends it again |
| `Headers.MissingHeaders` | google_apps_scrips.js:136-139 | from 9 columns on: no names; otherwise `min(3, 9 - lastColumn)` names, always a suffix of the header list, never one of the first six names |
| `Headers.UpdateExistingSheet` | google_apps_scrips.js:127-151 | from 9 columns on: sheet unchanged; otherwise the collected names sit in row 1 from column `lastColumn + 1` on, and no other cell changes |
| `Headers.LastColumnAfterUpdate` | google_apps_scrips.js:131-143 | after an update from fewer than 9 columns, the last column is the old one plus the number of names written |
| `Headers.UpdateFillsOwnColumnsFromSix` | google_apps_scrips.js:134-143 | from 6 to 8 columns, every column after the old last one, up to 9, gets its own header name |
| `Headers.UpdateMisplacesBelowSix` | google_apps_scrips.js:137-143 | below 6 columns, "User Name" lands in column `lastColumn + 1`, which is not its own column, and column 9 stays empty |
| `Headers.UpdateAgainBelowSix` | google_apps_scrips.js:134-143 | below 6 columns, a second update changes the sheet again |
| `Headers.UpdateIdempotentIff` | google_apps_scrips.js:127-151 | a second update is a no-op iff the first started from 6 or more columns |
| `Headers.SecondUpdateBelowSix` | google_apps_scrips.js:131-143 | below 6 columns, the first update leaves the last column at `n + 3`, and the second writes `MissingHeaders(n + 3)` from column `n + 4` on |
| `Headers.UpdateSettlesAfterThreeRuns` | google_apps_scrips.js:127-151 | after three updates the last column is at least 9, and a further update changes nothing |
| `Ingest.CoercionRulesDiffer` | google_apps_scrips.js:42-50 | the falsy values are exactly undefined, null, false, 0, NaN and ""; the or-empty rule and the null/undefined rule differ exactly on present falsy values with non-empty text |
| `Ingest.FalsyCoercionTable` | google_apps_scrips.js:42-50 | the or-empty rule maps every falsy value to ""; the latitude/longitude rule maps only null and undefined to "", and keeps false as "false" and 0 or NaN as the number's text |
| `Ingest.BuildCells` | google_apps_scrips.js:41-51 | a built row has one cell per field, each cell the coerced field value, and only a non-null element builds one |
| `Ingest.BuildCellsThrowsIff` | google_apps_scrips.js:41-51 | building throws iff the element is null/undefined or some field's `toString` throws |
| `IngestProperties.CellsBuild` | google_apps_scrips.js:41-51 | conversely, when every field coerces to its cell, building gives exactly those cells |
| `Ingest.BuildRowColumns` | google_apps_scrips.js:41-51 | a built row has 9 cells in the order uid, timestamp, latitude, longitude, address, city, user_name, user_class, device_info; latitude and longitude use the null/undefined rule and the rest use or-empty |
| `Ingest.Attempt` | google_apps_scrips.js:40-58 | an element yields a row iff its row builds and the service accepts the append |
| `Batches.RowsSplit` | google_apps_scrips.js:39-59 | the rows of consecutive stretches of elements concatenate in element order |
| `Batches.RowsLength` | google_apps_scrips.js:38-59 | at most one row per element, and one per element iff every element came to a row |
| `Batches.RowsMembers` | google_apps_scrips.js:39-59 | every element that came to a row has it stored, and every stored row comes from such an element |
| `Batches.RowsNone` | google_apps_scrips.js:39-59 | elements that all threw add no rows |
| `Batches.RowsSkip` | google_apps_scrips.js:40-58 | a thrown element drops only its own row from the stored rows |
| `Ingest.Step` | google_apps_scrips.js:40-58 | one `try` body grows the sheet and the count by exactly the reference rows of that element's outcome |
| `Ingest.IngestFrom` | google_apps_scrips.js:38-59 | the loop only appends: the old sheet is a prefix, the count grows by at most the number of elements, and by exactly the number of rows added |
| `Ingest.IngestFromMatchesRows` | google_apps_scrips.js:38-59 | the loop appends exactly the reference rows, in order, at the end of the sheet, and counts them |
| `Ingest.Validate` | google_apps_scrips.js:11-32 | no request, no `postData` or empty `contents` gives "no data", decided before parsing; a parse error or a null document gives the catch-all; otherwise `logs` must be a non-empty array |
| `Ingest.DoPost` | google_apps_scrips.js:1-83 | the two refusals carry their fixed messages and leave the sheet alone; the catch-all carries the thrown error; success reports `total` equal to the length of `logs`, `count <= total`, and appends exactly `Stored(logs)` |
| `IngestProperties.FailedElementSkipped` | google_apps_scrips.js:39-59 | a thrown element drops only its own row; elements before and after it still contribute |
| `IngestProperties.StoredRows` | google_apps_scrips.js:39-59 | every stored row comes from an element that built and was accepted, and every such element's row is stored |
| `IngestProperties.CountEqualsTotalIff` | google_apps_scrips.js:38-69 | `count == total` iff every element builds and is accepted |
| `IngestProperties.ResubmissionAppendsTwice` | google_apps_scrips.js:38-69 | the same batch posted again succeeds with the same total and appends its rows again under the second post's append outcomes (no deduplication); when the service accepts the same appends both times, the rows are stored twice and the replies are equal |
| `IngestProperties.NullElementsStillSucceed` | google_apps_scrips.js:39-69 | a batch of null elements answers success with count 0 and leaves the sheet unchanged |
| `IngestProperties.UidOnlyRow` | google_apps_scrips.js:41-51 | a record with only `uid` gives its text followed by eight empty cells |
| `IngestProperties.NullUidRow` | google_apps_scrips.js:41-51 | `{uid: null}` gives nine empty cells |
| `IngestProperties.FullRecordRow` | google_apps_scrips.js:41-51 | a fully populated record reads back as its nine texts in column order |
| `IngestProperties.SecondAppendRefused` | google_apps_scrips.js:39-69 | first append accepted and second refused: success, count 1 of 2, and only the first row is added |
| `IngestProperties.SecondAppendRefusedExample` | google_apps_scrips.js:39-69 | the same for `{uid:"a"}`, `{uid:"b"}` |
| `IngestProperties.EmptyLogsRefused` | google_apps_scrips.js:26-32 | `{"logs": []}` gets "No logs provided or logs is not an array" and the sheet is unchanged |

## Left out

- `doGet` (lines 86-102): a constant reply plus the wall-clock time, with nothing to prove.
- Header formatting (lines 117-121 and 144-146): bold text and colours are cosmetic.
- `Logger.log` calls and the `JSON.stringify` used only for logging (line 21): they have no
  effect on the reply or the sheet.
- `SpreadsheetApp.getActiveSpreadsheet().getActiveSheet()` (lines 7-8) is assumed to succeed.
  The sheet is passed in, and a failure there, which would reach the catch-all, is not modelled.
- `JSON.parse` and `Number.prototype.toString` are parameters (`JsonParser`,
  `NumberFormatter`). The JSON grammar and float formatting are not modelled.
- The catch-all reply's `message` is `error.toString()` and its `stack` is a trace. `Failed`
  carries the thrown `JsError` instead. Error texts and stack traces are not modelled.
- `Ingest.DoPost`: the outcome of each `appendRow` comes from an oracle indexed by the element's
  position. Failures that depend on the service's state (quotas, locks) are not modelled, and
  the oracle is not consulted for an element whose row failed to build.
- `Sheets.AppendRow` places the new row after the last stored row. The real service places it
  after the last row with content. A row of empty strings therefore counts as a row here.
- `Sheets.Cell`: cells hold text only. A1 holding a number or a date is modelled as its text.
- `JsValues.Get` gives `undefined` for a key that an object does not own. That is right for
  every key this program reads ("logs" and the nine field names), because no prototype supplies
  them. Inherited properties in general are not modelled.
- Concurrent requests: the source has no locking, and the model treats each call on its own.
