/** The rows a batch of elements adds, given what each element came to.
    This is the reference the `forEach` in `doPost` is proved against: it
    looks only at the sequence of outcomes, never at how an outcome arose. */
module Batches {
  import opened JsValues
  import opened Sheets

  /** Reference definition: the rows of the outcomes that completed
      normally, in order. */
  function Rows(outs: seq<Completion<Row>>): seq<Row> {
    if |outs| == 0 then []
    else
      var last := outs[|outs| - 1];
      Rows(outs[..|outs| - 1]) + (if last.Normal? then [last.value] else [])
  }

  /** One outcome contributes its row, or nothing. */
  lemma RowsSingle(o: Completion<Row>)
    ensures Rows([o]) == if o.Normal? then [o.value] else []
  {
    assert [o][..0] == [];
  }

  /** The rows of consecutive stretches of elements concatenate in element
      order. */
  lemma {:induction false} RowsSplit(a: seq<Completion<Row>>, b: seq<Completion<Row>>)
    ensures Rows(a + b) == Rows(a) + Rows(b)
    decreases |b|
  {
    if |b| == 0 {
      assert a + b == a;
    } else {
      RowsSplit(a, b[..|b| - 1]);
      assert (a + b)[..|a + b| - 1] == a + b[..|b| - 1];
    }
  }

  /** At most one row per outcome, and one per outcome exactly when every
      outcome is normal. */
  lemma {:induction false} RowsLength(outs: seq<Completion<Row>>)
    ensures |Rows(outs)| <= |outs|
    ensures |Rows(outs)| == |outs| <==> forall k :: 0 <= k < |outs| ==> outs[k].Normal?
  {
    if |outs| > 0 {
      RowsLength(outs[..|outs| - 1]);
    }
  }

  /** Every normal outcome's row is among the rows, and every row comes
      from a normal outcome. */
  lemma {:induction false} RowsMembers(outs: seq<Completion<Row>>)
    ensures forall k :: 0 <= k < |outs| && outs[k].Normal? ==> outs[k].value in Rows(outs)
    ensures forall row :: row in Rows(outs) ==> exists k :: 0 <= k < |outs| && outs[k] == Normal(row)
  {
    if |outs| > 0 {
      var front := outs[..|outs| - 1];
      RowsMembers(front);
      forall row | row in Rows(outs)
        ensures exists k :: 0 <= k < |outs| && outs[k] == Normal(row)
      {
        if row in Rows(front) {
          var k :| 0 <= k < |front| && front[k] == Normal(row);
          assert outs[k] == Normal(row);
        }
      }
    }
  }

  /** A stretch of thrown outcomes contributes no rows. */
  lemma {:induction false} RowsNone(outs: seq<Completion<Row>>)
    requires forall k :: 0 <= k < |outs| ==> outs[k].Thrown?
    ensures Rows(outs) == []
  {
    if |outs| > 0 {
      RowsNone(outs[..|outs| - 1]);
    }
  }

  /** The rows from position `i` on are those of outcome `i` followed by
      those after it. */
  lemma RowsFrom(outs: seq<Completion<Row>>, i: nat)
    requires i < |outs|
    ensures Rows(outs[i..]) == Rows([outs[i]]) + Rows(outs[i + 1..])
  {
    assert outs[i..] == [outs[i]] + outs[i + 1..];
    RowsSplit([outs[i]], outs[i + 1..]);
  }

  /** Dropping a thrown outcome from the middle loses no row. */
  lemma RowsSkip(outs: seq<Completion<Row>>, j: nat)
    requires j < |outs|
    requires outs[j].Thrown?
    ensures Rows(outs) == Rows(outs[..j]) + Rows(outs[j + 1..])
  {
    assert outs == outs[..j] + outs[j..];
    RowsSplit(outs[..j], outs[j..]);
    RowsFrom(outs, j);
    RowsSingle(outs[j]);
  }
}
