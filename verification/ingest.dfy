/** `doPost`: validate the request, turn each element of `logs` into a
    nine-cell row, append the rows one by one (a failing element is skipped
    and not counted) and answer with the count.  JSON parsing, number
    formatting and the spreadsheet service's verdict on each append are
    parameters. */
module Ingest {
  import opened JsValues
  import opened Sheets
  import opened Batches

  /** `JSON.parse`: a value, or a thrown SyntaxError. */
  type JsonParser = string -> Completion<JsValue>

  /** Whether the spreadsheet service accepts `appendRow` for the element
      at the given 0-based position of `logs`. */
  type AppendOracle = nat -> bool

  /** The `e` argument: absent when the function is run from the editor. */
  datatype Event = NoEvent | Event(postData: PostData)
  datatype PostData = NoPostData | PostData(contents: string)

  /** The JSON object sent back.  `Rejected` and `Failed` carry status
      "error"; `Failed` is the catch-all, whose message is the error's text
      (and whose stack trace is not modelled).  `Saved` carries status
      "success" and the message "Data saved successfully". */
  datatype Response =
    | Rejected(message: string)
    | Failed(error: JsError)
    | Saved(count: nat, total: nat)
  {
    function Status(): string {
      if Saved? then "success" else "error"
    }
  }

  const NoDataMessage := "No data received"
  const NoLogsMessage := "No logs provided or logs is not an array"

  /** The nine log fields, in column order. */
  const LogFields: seq<string> :=
    ["uid", "timestamp", "latitude", "longitude", "address", "city",
     "user_name", "user_class", "device_info"]

  /** Latitude and longitude keep falsy values that are present (0, false);
      the other fields drop every falsy value. */
  predicate KeepsFalsy(field: string) {
    field == "latitude" || field == "longitude"
  }

  /** `(v || '').toString()` */
  function TruthyText(v: JsValue, fmt: NumberFormatter): Completion<string> {
    if Truthy(v) then ToText(v, fmt) else Normal("")
  }

  /** `(v !== null && v !== undefined) ? v.toString() : ''` */
  function PresentText(v: JsValue, fmt: NumberFormatter): Completion<string> {
    if Nullish(v) then Normal("") else ToText(v, fmt)
  }

  function CellText(field: string, v: JsValue, fmt: NumberFormatter): Completion<string> {
    if KeepsFalsy(field) then PresentText(v, fmt) else TruthyText(v, fmt)
  }

  /** The two coercion rules disagree exactly on falsy values that are
      present and whose text is not empty: `false`, `0`, `-0` and `NaN`. */
  lemma CoercionRulesDiffer(v: JsValue, fmt: NumberFormatter)
    ensures TruthyText(v, fmt) != PresentText(v, fmt)
        <==> !Truthy(v) && !Nullish(v) && ToText(v, fmt) != Normal("")
    ensures !Truthy(v) <==> v in {Undefined, Null, Bool(false), Num(Finite(0.0)), Num(NaN), Str("")}
  {
  }

  /** The coercion table for every falsy value. */
  lemma FalsyCoercionTable(fmt: NumberFormatter)
    ensures forall v :: !Truthy(v) ==> TruthyText(v, fmt) == Normal("")
    ensures PresentText(Undefined, fmt) == Normal("") && PresentText(Null, fmt) == Normal("")
    ensures PresentText(Bool(false), fmt) == Normal("false")
    ensures PresentText(Num(Finite(0.0)), fmt) == Normal(fmt(Finite(0.0)))
    ensures PresentText(Num(NaN), fmt) == Normal(fmt(NaN))
    ensures PresentText(Str(""), fmt) == Normal("")
  {
  }

  /** The cells for `fields`, read from `log` left to right; the first read
      or `toString` that throws ends the row. */
  function BuildCells(log: JsValue, fields: seq<string>, fmt: NumberFormatter): (r: Completion<Row>)
    ensures r.Normal? ==> |r.value| == |fields|
    ensures r.Normal? && |fields| > 0 ==> !Nullish(log)
    ensures r.Normal? ==> forall i :: 0 <= i < |fields| ==>
      CellText(fields[i], Get(log, fields[i]).value, fmt) == Normal(r.value[i])
  {
    if |fields| == 0 then Normal([])
    else
      match Get(log, fields[0])
      case Thrown(e) => Thrown(e)
      case Normal(v) =>
        match CellText(fields[0], v, fmt)
        case Thrown(e) => Thrown(e)
        case Normal(cell) =>
          match BuildCells(log, fields[1..], fmt)
          case Thrown(e) => Thrown(e)
          case Normal(rest) =>
            assert forall i :: 1 <= i < |fields| ==> fields[i] == fields[1..][i - 1];
            Normal([cell] + rest)
  }

  /** Building throws exactly when the element is null or undefined, or
      one of the fields' coercions throws. */
  lemma {:induction false} BuildCellsThrowsIff(log: JsValue, fields: seq<string>, fmt: NumberFormatter)
    ensures BuildCells(log, fields, fmt).Thrown? <==>
      && |fields| > 0
      && (Nullish(log) || exists i :: 0 <= i < |fields| && CellText(fields[i], Get(log, fields[i]).value, fmt).Thrown?)
  {
    if |fields| > 0 && !Nullish(log) {
      BuildCellsThrowsIff(log, fields[1..], fmt);
      assert forall i :: 1 <= i < |fields| ==> fields[i] == fields[1..][i - 1];
      if CellText(fields[0], Get(log, fields[0]).value, fmt).Normal? && BuildCells(log, fields[1..], fmt).Thrown? {
        var i :| 0 <= i < |fields[1..]| && CellText(fields[1..][i], Get(log, fields[1..][i]).value, fmt).Thrown?;
        assert CellText(fields[i + 1], Get(log, fields[i + 1]).value, fmt).Thrown?;
      }
    }
  }

  /** The row literal of lines 41-51. */
  function BuildRow(log: JsValue, fmt: NumberFormatter): Completion<Row> {
    BuildCells(log, LogFields, fmt)
  }

  /** A built row has nine cells in the order uid, timestamp, latitude,
      longitude, address, city, user_name, user_class, device_info, each
      coerced by its field's rule; building throws exactly when the element
      is null or undefined, or one of its fields' `toString` throws. */
  lemma BuildRowColumns(log: JsValue, fmt: NumberFormatter)
    ensures BuildRow(log, fmt).Thrown? <==>
      Nullish(log) || exists i :: 0 <= i < 9 && CellText(LogFields[i], Get(log, LogFields[i]).value, fmt).Thrown?
    ensures BuildRow(log, fmt).Normal? ==>
      var row := BuildRow(log, fmt).value;
      && |row| == 9
      && Normal(row[0]) == TruthyText(Get(log, "uid").value, fmt)
      && Normal(row[1]) == TruthyText(Get(log, "timestamp").value, fmt)
      && Normal(row[2]) == PresentText(Get(log, "latitude").value, fmt)
      && Normal(row[3]) == PresentText(Get(log, "longitude").value, fmt)
      && Normal(row[4]) == TruthyText(Get(log, "address").value, fmt)
      && Normal(row[5]) == TruthyText(Get(log, "city").value, fmt)
      && Normal(row[6]) == TruthyText(Get(log, "user_name").value, fmt)
      && Normal(row[7]) == TruthyText(Get(log, "user_class").value, fmt)
      && Normal(row[8]) == TruthyText(Get(log, "device_info").value, fmt)
  {
    BuildCellsThrowsIff(log, LogFields, fmt);
    var r := BuildRow(log, fmt);
    if r.Normal? {
      forall i | 0 <= i < 9
        ensures CellText(LogFields[i], Get(log, LogFields[i]).value, fmt) == Normal(r.value[i])
      {
      }
    }
  }

  /** One element of the `forEach`: build the row, then append it.  Either
      step may throw; the row is kept only when both succeed. */
  function Attempt(log: JsValue, index: nat, fmt: NumberFormatter, accepts: AppendOracle): (r: Completion<Row>)
    ensures r.Normal? <==> BuildRow(log, fmt).Normal? && accepts(index)
    ensures r.Normal? ==> r == BuildRow(log, fmt)
  {
    match BuildRow(log, fmt)
    case Thrown(e) => Thrown(e)
    case Normal(row) => if accepts(index) then Normal(row) else Thrown(AppendRejected)
  }

  /** The sheet and `successCount` as the loop goes. */
  datatype Progress = Progress(sheet: Sheet, count: nat)

  /** The `forEach` over `logs[i..]` with its per-element `try`/`catch`:
      a thrown element leaves sheet and count alone and the loop goes on. */
  function IngestFrom(logs: seq<JsValue>, i: nat, p: Progress, fmt: NumberFormatter, accepts: AppendOracle): (q: Progress)
    requires i <= |logs|
    ensures p.sheet <= q.sheet
    ensures p.count <= q.count <= p.count + (|logs| - i)
    ensures |q.sheet| - |p.sheet| == q.count - p.count
    decreases |logs| - i
  {
    if i == |logs| then p
    else IngestFrom(logs, i + 1, Step(p, Attempt(logs[i], i, fmt, accepts)), fmt, accepts)
  }

  /** What each element of a batch comes to, in order. */
  function Outcomes(logs: seq<JsValue>, fmt: NumberFormatter, accepts: AppendOracle): (outs: seq<Completion<Row>>)
    ensures |outs| == |logs|
    ensures forall k :: 0 <= k < |logs| ==> outs[k] == Attempt(logs[k], k, fmt, accepts)
  {
    seq(|logs|, k requires 0 <= k < |logs| => Attempt(logs[k], k, fmt, accepts))
  }

  /** The rows a batch adds to the sheet. */
  function Stored(logs: seq<JsValue>, fmt: NumberFormatter, accepts: AppendOracle): seq<Row> {
    Rows(Outcomes(logs, fmt, accepts))
  }

  /** The body of the `try`: a row that completed is appended and counted;
      a thrown one leaves sheet and count alone.  Either way the sheet grows
      by the reference rows of that one outcome. */
  function Step(p: Progress, o: Completion<Row>): (q: Progress)
    ensures q == Progress(p.sheet + Rows([o]), p.count + |Rows([o])|)
  {
    RowsSingle(o);
    match o
    case Thrown(_) => assert p.sheet + [] == p.sheet; p
    case Normal(row) => Progress(AppendRow(p.sheet, row), p.count + 1)
  }

  /** The fold adds exactly the reference rows of the remaining elements,
      at the end of the sheet, and counts them. */
  lemma {:induction false} IngestFromMatchesRows(logs: seq<JsValue>, i: nat, p: Progress, fmt: NumberFormatter, accepts: AppendOracle)
    requires i <= |logs|
    ensures var rows := Rows(Outcomes(logs, fmt, accepts)[i..]);
      IngestFrom(logs, i, p, fmt, accepts) == Progress(p.sheet + rows, p.count + |rows|)
    decreases |logs| - i
  {
    var outs := Outcomes(logs, fmt, accepts);
    if i < |logs| {
      var next := Step(p, outs[i]);
      IngestFromUnfold(logs, i, p, fmt, accepts);
      IngestFromMatchesRows(logs, i + 1, next, fmt, accepts);
      RowsFrom(outs, i);
      var head, rest := Rows([outs[i]]), Rows(outs[i + 1..]);
      assert (p.sheet + head) + rest == p.sheet + (head + rest);
    }
  }

  /** One turn of the loop handles element `i` as its outcome says. */
  lemma IngestFromUnfold(logs: seq<JsValue>, i: nat, p: Progress, fmt: NumberFormatter, accepts: AppendOracle)
    requires i < |logs|
    ensures IngestFrom(logs, i, p, fmt, accepts)
         == IngestFrom(logs, i + 1, Step(p, Outcomes(logs, fmt, accepts)[i]), fmt, accepts)
  {
  }

  /** The outcome of validation, lines 11-32. */
  datatype Verdict = NoData | Crashed(error: JsError) | NoLogs | Batch(logs: seq<JsValue>)

  /** `!e || !e.postData || !e.postData.contents` fails. */
  predicate HasContents(e: Event) {
    e.Event? && e.postData.PostData? && e.postData.contents != ""
  }

  predicate NonEmptyArray(v: JsValue) {
    v.Arr? && |v.elems| > 0
  }

  /** The checks in source order: the body's presence before any parsing,
      then `JSON.parse`, then the read of `data.logs` (which throws for a
      null document), then `logs` being a non-empty array. */
  function Validate(e: Event, parse: JsonParser): (v: Verdict)
    ensures v.NoData? <==> !HasContents(e)
    ensures v.Crashed? <==>
      && HasContents(e)
      && (parse(e.postData.contents).Thrown? || Nullish(parse(e.postData.contents).value))
    ensures v.Crashed? && parse(e.postData.contents).Thrown? ==> v.error == parse(e.postData.contents).error
    ensures v.NoLogs? <==>
      && HasContents(e)
      && parse(e.postData.contents).Normal?
      && !Nullish(parse(e.postData.contents).value)
      && !NonEmptyArray(Get(parse(e.postData.contents).value, "logs").value)
    ensures v.Batch? ==>
      && HasContents(e)
      && parse(e.postData.contents).Normal?
      && Get(parse(e.postData.contents).value, "logs") == Normal(Arr(v.logs))
      && |v.logs| > 0
  {
    if !HasContents(e) then NoData
    else
      match parse(e.postData.contents)
      case Thrown(err) => Crashed(err)
      case Normal(data) =>
        match Get(data, "logs")
        case Thrown(err) => Crashed(err)
        case Normal(logs) =>
          if !Truthy(logs) || !logs.Arr? || |logs.elems| == 0 then NoLogs
          else Batch(logs.elems)
  }

  /** What `doPost` returns, and the sheet after it. */
  datatype Reply = Reply(response: Response, sheet: Sheet)

  /** `doPost(e)` against `sheet`. */
  function DoPost(e: Event, sheet: Sheet, parse: JsonParser, fmt: NumberFormatter, accepts: AppendOracle): (r: Reply)
    ensures !HasContents(e) ==> r == Reply(Rejected(NoDataMessage), sheet)
    ensures Validate(e, parse).NoLogs? <==> r == Reply(Rejected(NoLogsMessage), sheet)
    ensures Validate(e, parse).Crashed? <==> r.response.Failed?
    ensures r.response.Failed? ==> r.response.error == Validate(e, parse).error
    ensures r.response.Saved? <==> Validate(e, parse).Batch?
    ensures !r.response.Saved? ==> r.sheet == sheet
    ensures r.response.Saved? ==>
      var logs := Validate(e, parse).logs;
      && r.response.total == |logs|
      && r.response.count <= r.response.total
      && r.response.count == |Stored(logs, fmt, accepts)|
      && r.sheet == sheet + Stored(logs, fmt, accepts)
  {
    match Validate(e, parse)
    case NoData => Reply(Rejected(NoDataMessage), sheet)
    case Crashed(err) => Reply(Failed(err), sheet)
    case NoLogs => Reply(Rejected(NoLogsMessage), sheet)
    case Batch(logs) =>
      var done := IngestFrom(logs, 0, Progress(sheet, 0), fmt, accepts);
      IngestFromMatchesRows(logs, 0, Progress(sheet, 0), fmt, accepts);
      assert Outcomes(logs, fmt, accepts)[0..] == Outcomes(logs, fmt, accepts);
      RowsLength(Outcomes(logs, fmt, accepts));
      Reply(Saved(done.count, |logs|), done.sheet)
  }
}

/** Properties of `doPost` that relate several elements or several calls. */
module IngestProperties {
  import opened JsValues
  import opened Sheets
  import opened Batches
  import opened Ingest

  /** One step of `BuildCells`: a cell that coerces, then the rest. */
  lemma BuildCellsCons(log: JsValue, fields: seq<string>, cell: string, rest: Row, fmt: NumberFormatter)
    requires |fields| > 0 && !Nullish(log)
    requires CellText(fields[0], Get(log, fields[0]).value, fmt) == Normal(cell)
    requires BuildCells(log, fields[1..], fmt) == Normal(rest)
    ensures BuildCells(log, fields, fmt) == Normal([cell] + rest)
  {
  }

  /** Conversely to `BuildCells`'s contract: when every field coerces, the
      row is exactly the coerced cells. */
  lemma {:induction false} CellsBuild(log: JsValue, fields: seq<string>, cells: Row, fmt: NumberFormatter)
    requires !Nullish(log) && |cells| == |fields|
    requires forall i :: 0 <= i < |fields| ==> CellText(fields[i], Get(log, fields[i]).value, fmt) == Normal(cells[i])
    ensures BuildCells(log, fields, fmt) == Normal(cells)
  {
    if |fields| > 0 {
      assert forall i :: 0 <= i < |fields| - 1 ==> fields[1..][i] == fields[i + 1] && cells[1..][i] == cells[i + 1];
      CellsBuild(log, fields[1..], cells[1..], fmt);
      BuildCellsCons(log, fields, cells[0], cells[1..], fmt);
      assert [cells[0]] + cells[1..] == cells;
    }
  }

  /** A thrown element only drops its own row: the elements before and
      after it still contribute theirs. */
  lemma FailedElementSkipped(logs: seq<JsValue>, j: nat, fmt: NumberFormatter, accepts: AppendOracle)
    requires j < |logs|
    requires Attempt(logs[j], j, fmt, accepts).Thrown?
    ensures var outs := Outcomes(logs, fmt, accepts);
      Stored(logs, fmt, accepts) == Rows(outs[..j]) + Rows(outs[j + 1..])
  {
    RowsSkip(Outcomes(logs, fmt, accepts), j);
  }

  /** The stored rows are exactly the rows of the elements that build and
      are accepted. */
  lemma StoredRows(logs: seq<JsValue>, fmt: NumberFormatter, accepts: AppendOracle)
    ensures forall k :: 0 <= k < |logs| && Attempt(logs[k], k, fmt, accepts).Normal? ==>
      Attempt(logs[k], k, fmt, accepts).value in Stored(logs, fmt, accepts)
    ensures forall row :: row in Stored(logs, fmt, accepts) ==>
      exists k :: 0 <= k < |logs| && Attempt(logs[k], k, fmt, accepts) == Normal(row)
  {
    var outs := Outcomes(logs, fmt, accepts);
    RowsMembers(outs);
    forall row | row in Stored(logs, fmt, accepts)
      ensures exists k :: 0 <= k < |logs| && Attempt(logs[k], k, fmt, accepts) == Normal(row)
    {
      var k :| 0 <= k < |outs| && outs[k] == Normal(row);
      assert Attempt(logs[k], k, fmt, accepts) == Normal(row);
    }
  }

  /** Every element's row is in the sheet exactly when the reply's count
      equals its total. */
  lemma CountEqualsTotalIff(e: Event, sheet: Sheet, parse: JsonParser, fmt: NumberFormatter, accepts: AppendOracle)
    requires DoPost(e, sheet, parse, fmt, accepts).response.Saved?
    ensures var r := DoPost(e, sheet, parse, fmt, accepts).response;
            var logs := Validate(e, parse).logs;
            r.count == r.total <==> forall k :: 0 <= k < |logs| ==> Attempt(logs[k], k, fmt, accepts).Normal?
  {
    var logs := Validate(e, parse).logs;
    var outs := Outcomes(logs, fmt, accepts);
    RowsLength(outs);
    if forall k :: 0 <= k < |outs| ==> outs[k].Normal? {
    } else {
      var k :| 0 <= k < |outs| && !outs[k].Normal?;
      assert !Attempt(logs[k], k, fmt, accepts).Normal?;
    }
  }

  /** Sending the same batch twice stores its rows again: there is no
      deduplication.  The second post is answered by the service's second
      set of append outcomes, `accepts2`; when the service accepts the same
      appends both times, the rows are stored twice and both replies are
      the same. */
  lemma ResubmissionAppendsTwice(e: Event, sheet: Sheet, parse: JsonParser, fmt: NumberFormatter,
                                 accepts: AppendOracle, accepts2: AppendOracle)
    requires DoPost(e, sheet, parse, fmt, accepts).response.Saved?
    ensures var first := DoPost(e, sheet, parse, fmt, accepts);
            var second := DoPost(e, first.sheet, parse, fmt, accepts2);
            var logs := Validate(e, parse).logs;
            && second.response.Saved?
            && second.response.total == first.response.total
            && second.sheet == first.sheet + Stored(logs, fmt, accepts2)
    ensures accepts2 == accepts ==>
            var first := DoPost(e, sheet, parse, fmt, accepts);
            var second := DoPost(e, first.sheet, parse, fmt, accepts2);
            var rows := Stored(Validate(e, parse).logs, fmt, accepts);
            && second.response == first.response
            && second.sheet == sheet + rows + rows
  {
  }

  /** A batch of null elements: every row throws, yet the status is
      "success" with a count of 0, and the sheet is unchanged. */
  lemma NullElementsStillSucceed(e: Event, sheet: Sheet, parse: JsonParser, fmt: NumberFormatter, accepts: AppendOracle)
    requires Validate(e, parse).Batch?
    requires forall k :: 0 <= k < |Validate(e, parse).logs| ==> Validate(e, parse).logs[k] == Null
    ensures DoPost(e, sheet, parse, fmt, accepts) == Reply(Saved(0, |Validate(e, parse).logs|), sheet)
    ensures DoPost(e, sheet, parse, fmt, accepts).response.Status() == "success"
  {
    var logs := Validate(e, parse).logs;
    var outs := Outcomes(logs, fmt, accepts);
    assert forall k :: 0 <= k < |logs| ==> BuildRow(logs[k], fmt).Thrown?;
    RowsNone(outs);
    assert sheet + [] == sheet;
  }

  /** A fully populated record reads back as its nine texts in column order;
      numbers go through the number formatter. */
  lemma FullRecordRow(fmt: NumberFormatter)
    ensures BuildRow(Obj(map["uid" := Str("A1"), "timestamp" := Str("T"),
                             "latitude" := Num(Finite(12.5)), "longitude" := Num(Finite(-7.0)),
                             "address" := Str("X"), "city" := Str("Y"), "user_name" := Str("N"),
                             "user_class" := Str("C"), "device_info" := Str("D")]), fmt)
         == Normal(["A1", "T", fmt(Finite(12.5)), fmt(Finite(-7.0)), "X", "Y", "N", "C", "D"])
  {
    var log := Obj(map["uid" := Str("A1"), "timestamp" := Str("T"),
                       "latitude" := Num(Finite(12.5)), "longitude" := Num(Finite(-7.0)),
                       "address" := Str("X"), "city" := Str("Y"), "user_name" := Str("N"),
                       "user_class" := Str("C"), "device_info" := Str("D")]);
    var cells := ["A1", "T", fmt(Finite(12.5)), fmt(Finite(-7.0)), "X", "Y", "N", "C", "D"];
    forall i | 0 <= i < 9
      ensures CellText(LogFields[i], Get(log, LogFields[i]).value, fmt) == Normal(cells[i])
    {
      if i == 0 {} else if i == 1 {} else if i == 2 {} else if i == 3 {} else if i == 4 {}
      else if i == 5 {} else if i == 6 {} else if i == 7 {} else {}
    }
    CellsBuild(log, LogFields, cells, fmt);
  }

  /** `{uid: null}` with every other field absent gives nine empty cells. */
  lemma NullUidRow(fmt: NumberFormatter)
    ensures BuildRow(Obj(map["uid" := Null]), fmt) == Normal(Blank(9))
  {
    UidOnlyRow(Null, "", fmt);
    assert [""] + Blank(8) == Blank(9);
  }

  /** A record holding only a `uid` fills the first cell and leaves eight
      empty ones. */
  lemma UidOnlyRow(uid: JsValue, text: string, fmt: NumberFormatter)
    requires TruthyText(uid, fmt) == Normal(text)
    ensures BuildRow(Obj(map["uid" := uid]), fmt) == Normal([text] + Blank(8))
  {
    var log := Obj(map["uid" := uid]);
    AbsentFieldsBlank(log, LogFields[1..], fmt);
    BuildCellsCons(log, LogFields, text, Blank(8), fmt);
  }

  /** Fields an object does not have all read as undefined and give empty
      cells. */
  lemma {:induction false} AbsentFieldsBlank(log: JsValue, fields: seq<string>, fmt: NumberFormatter)
    requires log.Obj?
    requires forall i :: 0 <= i < |fields| ==> fields[i] !in log.props
    ensures BuildCells(log, fields, fmt) == Normal(Blank(|fields|))
  {
    if |fields| > 0 {
      AbsentFieldsBlank(log, fields[1..], fmt);
      BuildCellsCons(log, fields, "", Blank(|fields| - 1), fmt);
      assert [""] + Blank(|fields| - 1) == Blank(|fields|);
    }
  }

  /** Two records where the service accepts the first append and refuses
      the second: the reply is a success with count 1 of 2, and only the
      first row is added. */
  lemma SecondAppendRefused(e: Event, sheet: Sheet, parse: JsonParser, fmt: NumberFormatter, accepts: AppendOracle,
                            first: JsValue, second: JsValue, row: Row)
    requires Validate(e, parse) == Batch([first, second])
    requires BuildRow(first, fmt) == Normal(row)
    requires accepts(0) && !accepts(1)
    ensures DoPost(e, sheet, parse, fmt, accepts) == Reply(Saved(1, 2), sheet + [row])
  {
    var logs := [first, second];
    var outs := Outcomes(logs, fmt, accepts);
    assert outs[0] == Normal(row) && outs[1].Thrown?;
    assert outs[..1] == [outs[0]];
    RowsSingle(outs[0]);
  }

  /** The same with two concrete records, `{uid: "a"}` and `{uid: "b"}`. */
  lemma SecondAppendRefusedExample(sheet: Sheet, fmt: NumberFormatter)
    ensures var parse: JsonParser := _ => Normal(Obj(map["logs" := Arr([Obj(map["uid" := Str("a")]), Obj(map["uid" := Str("b")])])]));
            DoPost(Event(PostData("{...}")), sheet, parse, fmt, k => k == 0)
              == Reply(Saved(1, 2), sheet + [["a"] + Blank(8)])
  {
    var first := Obj(map["uid" := Str("a")]);
    var second := Obj(map["uid" := Str("b")]);
    var doc := Obj(map["logs" := Arr([first, second])]);
    var parse: JsonParser := _ => Normal(doc);
    var e := Event(PostData("{...}"));
    assert Get(doc, "logs") == Normal(Arr([first, second]));
    assert Validate(e, parse) == Batch([first, second]);
    UidOnlyRow(Str("a"), "a", fmt);
    SecondAppendRefused(e, sheet, parse, fmt, k => k == 0, first, second, ["a"] + Blank(8));
  }

  /** `{"logs": []}` is refused without touching the sheet. */
  lemma EmptyLogsRefused(sheet: Sheet, fmt: NumberFormatter, accepts: AppendOracle)
    ensures var parse: JsonParser := _ => Normal(Obj(map["logs" := Arr([])]));
            DoPost(Event(PostData("{\"logs\":[]}")), sheet, parse, fmt, accepts)
              == Reply(Rejected(NoLogsMessage), sheet)
  {
  }
}
