/** Runs of `updateIf` statements against one row. PostgreSQL serialises the statements on the row
    lock and re-reads the WHERE clause, so an interleaving is a sequence of atomic statements. */
module CompareAndSwap {
  import opened Rows
  import opened Tables

  datatype Call = Call(expected: map<Field, Value>, payload: Fields, now: int)

  /** The call's statement hits the row. A call without a field to write sends none: it compares nothing, and
      is answered with the row as the collection has it. */
  predicate Wins(row: RowData, call: Call) {
    call.payload != map[] && DbExpects(row, call.expected)
  }

  /** The row after one statement. */
  function Next(row: RowData, call: Call): RowData {
    if Wins(row, call) then Patch(call.payload).Apply(row, call.now) else row
  }

  /** The row before statement k. */
  function Before(row: RowData, calls: seq<Call>, k: nat): RowData
    requires k <= |calls|
  {
    if k == 0 then row else Next(Before(row, calls, k - 1), calls[k - 1])
  }

  predicate Won(row: RowData, calls: seq<Call>, k: nat)
    requires k < |calls|
  {
    Wins(Before(row, calls, k), calls[k])
  }

  /** One call of the run is one `updateIf` of the store, which does nothing for an empty payload. */
  lemma {:induction false} NextIsUpdateIf(rows: map<int, RowData>, id: int, call: Call)
    requires id in rows && rows[id].id == id
    ensures rows[id := Next(rows[id], call)] ==
            if call.payload == map[] then rows else DbUpdateIf(rows, id, call.expected, call.payload, call.now)
  {
    assert rows == rows[id := rows[id]];
  }

  lemma {:induction false} Lull(row: RowData, calls: seq<Call>, from: nat, to: nat)
    requires from <= to <= |calls|
    requires forall k :: from <= k < to ==> !Won(row, calls, k)
    ensures Before(row, calls, to) == Before(row, calls, from)
  {
    if from < to {
      Lull(row, calls, from, to - 1);
      assert !Won(row, calls, to - 1);
    }
  }

  lemma Link(row: RowData, calls: seq<Call>, i: nat, j: nat)
    requires i < j < |calls| && Won(row, calls, i) && Won(row, calls, j)
    requires Before(row, calls, j) == Before(row, calls, i + 1)
    ensures Before(row, calls, j) == Patch(calls[i].payload).Apply(Before(row, calls, i), calls[i].now)
  {
    assert Before(row, calls, i + 1) == Next(Before(row, calls, i), calls[i]);
  }

  /** Successful calls form a chain: each winner finds the row as the winner before it wrote it, and there
      its expectation is met. */
  lemma WinnersChain(row: RowData, calls: seq<Call>, i: nat, j: nat)
    requires i < j < |calls| && Won(row, calls, i) && Won(row, calls, j)
    requires forall k :: i < k < j ==> !Won(row, calls, k)
    ensures Before(row, calls, j) == Patch(calls[i].payload).Apply(Before(row, calls, i), calls[i].now)
    ensures DbExpects(Before(row, calls, j), calls[j].expected)
  {
    Lull(row, calls, i + 1, j);
    Link(row, calls, i, j);
  }

  /** Between two points of a run no winner wrote `v` into `f`. */
  predicate NotRestored(row: RowData, calls: seq<Call>, f: string, v: Value, from: nat, to: nat)
    requires to <= |calls|
  {
    forall k :: from <= k < to && Won(row, calls, k) && f in calls[k].payload ==> calls[k].payload[f] != v
  }

  lemma {:induction false} StaysAway(row: RowData, calls: seq<Call>, f: string, v: Value, from: nat, to: nat)
    requires from <= to <= |calls|
    requires Before(row, calls, from).Get(Business(f)) != v
    requires NotRestored(row, calls, f, v, from, to)
    ensures Before(row, calls, to).Get(Business(f)) != v
  {
    if from < to {
      StaysAway(row, calls, f, v, from, to - 1);
    }
  }

  /** Once a call took `f` away from `v`, no later call that expects `v` wins until someone writes `v`
      back. What the calls say about `updatedAt` plays no part. */
  lemma LaterExpectationFails(row: RowData, calls: seq<Call>, f: string, v: Value, i: nat, j: nat)
    requires i < j < |calls| && v != Undefined
    requires Won(row, calls, i) && f in calls[i].payload && calls[i].payload[f] != v
    requires NotRestored(row, calls, f, v, i + 1, j)
    requires Business(f) in calls[j].expected && calls[j].expected[Business(f)] == v
    ensures !Won(row, calls, j)
  {
    assert Before(row, calls, i + 1).Get(Business(f)) == calls[i].payload[f];
    StaysAway(row, calls, f, v, i + 1, j);
  }

  /** Callers who all expect `v` in `f` and all write something else. */
  predicate Rivals(calls: seq<Call>, f: string, v: Value) {
    v != Undefined && forall k :: 0 <= k < |calls| ==>
      && Business(f) in calls[k].expected && calls[k].expected[Business(f)] == v
      && f in calls[k].payload && calls[k].payload[f] != v
  }

  /** Among rivals exactly the first whose whole expectation the row meets wins, and nobody else. */
  lemma {:induction false} ExactlyTheFirstWins(row: RowData, calls: seq<Call>, f: string, v: Value, k: nat)
    requires k < |calls| && Rivals(calls, f, v)
    ensures Won(row, calls, k) <==> Wins(row, calls[k]) && forall j :: 0 <= j < k ==> !Wins(row, calls[j])
  {
    if j :| 0 <= j < k && Wins(row, calls[j]) {
      var first := FirstWinner(row, calls, j);
      Lull(row, calls, 0, first);
      LaterExpectationFails(row, calls, f, v, first, k);
    } else {
      NoWinners(row, calls, k);
    }
  }

  lemma {:induction false} NoWinners(row: RowData, calls: seq<Call>, k: nat)
    requires k <= |calls| && forall j :: 0 <= j < k ==> !Wins(row, calls[j])
    ensures Before(row, calls, k) == row
  {
    if k > 0 {
      NoWinners(row, calls, k - 1);
    }
  }

  lemma {:induction false} FirstWinner(row: RowData, calls: seq<Call>, j: nat) returns (first: nat)
    requires j < |calls| && Wins(row, calls[j])
    ensures first <= j && Won(row, calls, first) && forall k :: 0 <= k < first ==> !Won(row, calls, k)
  {
    if i :| 0 <= i < j && Wins(row, calls[i]) {
      first := FirstWinner(row, calls, i);
    } else {
      NoWinners(row, calls, j);
      forall k | 0 <= k < j
        ensures !Won(row, calls, k)
      {
        NoWinners(row, calls, k);
      }
      first := j;
    }
  }

  /** A null expectation never wins. */
  lemma {:induction false} NullNeverWins(row: RowData, call: Call, f: Field)
    requires f in call.expected && call.expected[f] == Null
    ensures !Wins(row, call)
  {
    assert !SqlEquals(row, f, Null);
  }

  /** Callers who all expect one `updatedAt` and nothing else, and have something to write. */
  predicate StampRivals(calls: seq<Call>, t: int) {
    forall k :: 0 <= k < |calls| ==> calls[k].expected == map[UpdatedAt := Num(t)] && calls[k].payload != map[]
  }

  lemma StampWinsIff(row: RowData, call: Call, t: int)
    requires call.expected == map[UpdatedAt := Num(t)] && call.payload != map[]
    ensures Wins(row, call) <==> row.Active() && Ms(row.updatedAt) == Ms(t)
  {
    assert call.expected[UpdatedAt] == Num(t);
  }

  /** After a winner, the next of such callers wins, too, exactly when the winner's clock lay in the
      millisecond that all of them expect. */
  lemma NextRivalWinsIff(row: RowData, calls: seq<Call>, t: int, i: nat, j: nat)
    requires i < j < |calls| && StampRivals(calls, t) && Won(row, calls, i)
    requires forall k :: i < k < j ==> !Won(row, calls, k)
    ensures Won(row, calls, j) <==> Ms(calls[i].now) == Ms(t)
  {
    Lull(row, calls, i + 1, j);
    assert Before(row, calls, i + 1) == Next(Before(row, calls, i), calls[i]);
    StampWinsIff(Before(row, calls, i), calls[i], t);
    StampWinsIff(Before(row, calls, j), calls[j], t);
  }

  /** An expectation of `updatedAt` alone does not exclude a rival: the domain field is what makes the swap
      safe. */
  lemma SameMillisecondRivalsBothWin()
    ensures exists row, calls: seq<Call> ::
      && |calls| == 2 && Won(row, calls, 0) && Won(row, calls, 1)
      && calls[0].expected == calls[1].expected == map[UpdatedAt := Num(1000)]
      && calls[0].payload != calls[1].payload
  {
    var row := RowData(1, map["status" := Text("open")], 0, 1200, Null, Null);
    var first := Call(map[UpdatedAt := Num(1000)], map["status" := Text("paid")], 1500);
    var second := Call(map[UpdatedAt := Num(1000)], map["status" := Text("void")], 1900);
    var calls := [first, second];
    assert Before(row, calls, 0) == row && Before(row, calls, 1) == Next(row, first);
    assert first.payload["status"] != second.payload["status"] by {
      assert "paid"[0] != "void"[0];
    }
    assert Won(row, calls, 0) && Won(row, calls, 1);
  }
}
