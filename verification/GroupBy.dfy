/** Grouping and aggregation (src/operators/GroupBy.cpp) over one table: SUM, COUNT, MIN and MAX as folds,
    the groups of a table, and the two loops that compute them.

    An aggregate over rows is what the rows' own values combine to. Combining is associative and does not
    mind the order, and null is the value of no row at all (0 for COUNT), so that tables may be cut up,
    shuffled and put together again without changing it; that is what merging relies on. */
module GroupBy {
  import opened Collections
  import opened Tables
  import opened RangePartition
  import opened Shuffle

  datatype Op = SUM | COUNT | MIN | MAX

  /** An aggregation of the values in one column. */
  datatype Aggregation = Aggregation(op: Op, column: nat)

  /** Two partial results as one. Nulls count for nothing. */
  function Combine(op: Op, a: Value, b: Value): Value {
    if a.Null? then b
    else if b.Null? then a
    else
      match op
      case SUM => Num(a.n + b.n)
      case COUNT => Num(a.n + b.n)
      case MIN => if a.n <= b.n then a else b
      case MAX => if a.n <= b.n then b else a
  }

  /** The result over no row at all. */
  function Unit(op: Op): Value {
    if op == COUNT then Num(0) else Null
  }

  /** The result over one row. */
  function Lift(op: Op, v: Value): Value {
    if op == COUNT then Num(if v.Null? then 0 else 1) else v
  }

  /** The result over the rows with the given key. */
  function GroupResult(rows: Table, cols: seq<nat>, key: Key, agg: Aggregation): Value {
    if rows == [] then Unit(agg.op)
    else
      var row := rows[|rows| - 1];
      var before := GroupResult(rows[..|rows| - 1], cols, key, agg);
      if KeyOf(row, cols) == key then Combine(agg.op, before, Lift(agg.op, CellOf(row, agg.column))) else before
  }

  /** One row of the result: the key, then its aggregates. */
  function OutputRow(rows: Table, cols: seq<nat>, aggs: seq<Aggregation>, key: Key): (row: Row)
    ensures |row| == |key| + |aggs| && row[..|key|] == key
    ensures forall s :: 0 <= s < |aggs| ==> row[|key| + s] == GroupResult(rows, cols, key, aggs[s])
  {
    key + seq(|aggs|, s requires 0 <= s < |aggs| => GroupResult(rows, cols, key, aggs[s]))
  }

  function Groups(rows: Table, cols: seq<nat>, aggs: seq<Aggregation>): set<Row> {
    set row | row in rows :: OutputRow(rows, cols, aggs, KeyOf(row, cols))
  }

  /** Each group once. */
  ghost predicate IsGroupBy(out: Table, rows: Table, cols: seq<nat>, aggs: seq<Aggregation>) {
    multiset(out) == multiset(Groups(rows, cols, aggs))
  }

  // ----- the folds ------------------------------------------------------------------------------

  lemma CombineAssociates(op: Op, a: Value, b: Value, c: Value)
    ensures Combine(op, Combine(op, a, b), c) == Combine(op, a, Combine(op, b, c))
  {
  }

  lemma CombineSwaps(op: Op, a: Value, b: Value, c: Value)
    ensures Combine(op, Combine(op, a, b), c) == Combine(op, Combine(op, a, c), b)
  {
  }

  /** Counts are numbers, so that the unit of COUNT is one. */
  predicate Proper(op: Op, v: Value) {
    op == COUNT ==> v.Num?
  }

  lemma {:induction false} ResultProper(rows: Table, cols: seq<nat>, key: Key, agg: Aggregation)
    ensures Proper(agg.op, GroupResult(rows, cols, key, agg))
  {
    if rows != [] { ResultProper(rows[..|rows| - 1], cols, key, agg); }
  }

  lemma {:induction false} ResultConcat(a: Table, b: Table, cols: seq<nat>, key: Key, agg: Aggregation)
    ensures GroupResult(a + b, cols, key, agg)
         == Combine(agg.op, GroupResult(a, cols, key, agg), GroupResult(b, cols, key, agg))
  {
    if b == [] {
      assert a + b == a;
      ResultProper(a, cols, key, agg);
    } else {
      var last := |b| - 1;
      ResultConcat(a, b[..last], cols, key, agg);
      assert (a + b)[..|a + b| - 1] == a + b[..last];
      CombineAssociates(agg.op, GroupResult(a, cols, key, agg), GroupResult(b[..last], cols, key, agg),
                        Lift(agg.op, CellOf(b[last], agg.column)));
    }
  }

  lemma ResultWithout(rows: Table, p: nat, cols: seq<nat>, key: Key, agg: Aggregation)
    requires p < |rows|
    ensures GroupResult(rows, cols, key, agg)
         == Combine(agg.op, GroupResult(Without(rows, p), cols, key, agg), GroupResult([rows[p]], cols, key, agg))
  {
    var low, row, high := rows[..p], [rows[p]], rows[p + 1..];
    assert rows == (low + row) + high;
    ResultConcat(low + row, high, cols, key, agg);
    ResultConcat(low, row, cols, key, agg);
    ResultConcat(low, high, cols, key, agg);
    CombineSwaps(agg.op, GroupResult(low, cols, key, agg), GroupResult(row, cols, key, agg),
                 GroupResult(high, cols, key, agg));
  }

  /** The order of the rows does not matter. */
  lemma {:induction false} ResultInAnyOrder(a: Table, b: Table, cols: seq<nat>, key: Key, agg: Aggregation)
    requires multiset(a) == multiset(b)
    ensures GroupResult(a, cols, key, agg) == GroupResult(b, cols, key, agg)
    decreases |a|
  {
    if a == [] {
      assert |multiset(b)| == |b|;
    } else {
      var last := |a| - 1;
      var rest := Without(a, last);
      assert a == rest + [a[last]];
      var p := Find(b, a[last], multiset(rest));
      ResultInAnyOrder(rest, Without(b, p), cols, key, agg);
      ResultWithout(a, last, cols, key, agg);
      ResultWithout(b, p, cols, key, agg);
    }
  }

  lemma GroupsInAnyOrder(a: Table, b: Table, cols: seq<nat>, aggs: seq<Aggregation>)
    requires multiset(a) == multiset(b)
    ensures Groups(a, cols, aggs) == Groups(b, cols, aggs)
  {
    SameRows(a, b);
    forall key: Key
      ensures OutputRow(a, cols, aggs, key) == OutputRow(b, cols, aggs, key)
    {
      SameOutputRow(a, b, cols, aggs, key);
    }
  }

  lemma SameOutputRow(a: Table, b: Table, cols: seq<nat>, aggs: seq<Aggregation>, key: Key)
    requires multiset(a) == multiset(b)
    ensures OutputRow(a, cols, aggs, key) == OutputRow(b, cols, aggs, key)
  {
    forall s | 0 <= s < |aggs|
      ensures GroupResult(a, cols, key, aggs[s]) == GroupResult(b, cols, key, aggs[s])
    {
      ResultInAnyOrder(a, b, cols, key, aggs[s]);
    }
  }

  lemma {:induction false} ResultOfNone(rows: Table, cols: seq<nat>, key: Key, agg: Aggregation)
    requires forall row :: row in rows ==> KeyOf(row, cols) != key
    ensures GroupResult(rows, cols, key, agg) == Unit(agg.op)
  {
    if rows != [] { ResultOfNone(rows[..|rows| - 1], cols, key, agg); }
  }

  // ----- what the folds mean --------------------------------------------------------------------

  /** The rows of a group that have a value in the column. */
  ghost function Valued(rows: Table, cols: seq<nat>, key: Key, column: nat): Table {
    if rows == [] then []
    else
      var row := rows[|rows| - 1];
      Valued(rows[..|rows| - 1], cols, key, column)
      + (if KeyOf(row, cols) == key && CellOf(row, column).Num? then [row] else [])
  }

  lemma {:induction false} CountMeans(rows: Table, cols: seq<nat>, key: Key, column: nat)
    ensures GroupResult(rows, cols, key, Aggregation(COUNT, column)) == Num(|Valued(rows, cols, key, column)|)
  {
    if rows != [] { CountMeans(rows[..|rows| - 1], cols, key, column); }
  }

  /** The sum of a column over rows that have a value in it. */
  ghost function ColumnSum(rows: Table, column: nat): int {
    if rows == [] then 0
    else
      var cell := CellOf(rows[|rows| - 1], column);
      ColumnSum(rows[..|rows| - 1], column) + (if cell.Num? then cell.n else 0)
  }

  lemma ColumnSumSnoc(rows: Table, row: Row, column: nat)
    ensures ColumnSum(rows + [row], column)
         == ColumnSum(rows, column) + (if CellOf(row, column).Num? then CellOf(row, column).n else 0)
  {
    assert (rows + [row])[..|rows|] == rows;
  }

  /** SUM is null for a group without values, and else the sum of its values. */
  lemma {:induction false} SumMeans(rows: Table, cols: seq<nat>, key: Key, column: nat)
    ensures GroupResult(rows, cols, key, Aggregation(SUM, column))
         == var valued := Valued(rows, cols, key, column);
            if valued == [] then Null else Num(ColumnSum(valued, column))
  {
    if rows != [] {
      var before, row := Valued(rows[..|rows| - 1], cols, key, column), rows[|rows| - 1];
      SumMeans(rows[..|rows| - 1], cols, key, column);
      ColumnSumSnoc(before, row, column);
      assert before + [] == before;
    }
  }

  /** MIN and MAX are null for a group without values, and else one of its values that none goes beyond. */
  lemma {:induction false} ExtremeMeans(rows: Table, cols: seq<nat>, key: Key, column: nat, op: Op)
    requires op == MIN || op == MAX
    ensures var r := GroupResult(rows, cols, key, Aggregation(op, column));
            var valued := Valued(rows, cols, key, column);
            && (r.Null? <==> valued == [])
            && (r.Num? ==> exists row :: row in valued && CellOf(row, column) == r)
            && (forall row :: row in valued ==>
                  if op == MIN then ValueLe(r, CellOf(row, column)) else ValueLe(CellOf(row, column), r))
  {
    if rows != [] {
      ExtremeMeans(rows[..|rows| - 1], cols, key, column, op);
    }
  }

  // ----- the loops ------------------------------------------------------------------------------

  /** The accumulators after some rows: one output row per key met so far. */
  ghost predicate Accumulated(out: Table, keys: seq<Key>, rows: Table, cols: seq<nat>, aggs: seq<Aggregation>) {
    KeysMet(keys, rows, cols) && RowsMatch(out, keys, rows, cols, aggs)
  }

  ghost predicate KeysMet(keys: seq<Key>, rows: Table, cols: seq<nat>) {
    && (forall i, j :: 0 <= i < j < |keys| ==> keys[i] != keys[j])
    && (forall row :: row in rows ==> KeyOf(row, cols) in keys)
    && (forall key :: key in keys ==> |key| == |cols| && exists row :: row in rows && KeyOf(row, cols) == key)
  }

  lemma KeyMetAgain(keys: seq<Key>, rows: Table, row: Row, cols: seq<nat>)
    requires KeysMet(keys, rows, cols) && KeyOf(row, cols) in keys
    ensures KeysMet(keys, rows + [row], cols)
  {
    forall key | key in keys
      ensures exists r :: r in rows + [row] && KeyOf(r, cols) == key
    {
      var r :| r in rows && KeyOf(r, cols) == key;
      assert r in rows + [row];
    }
  }

  /** What one more row does to the output row of a key. */
  lemma ElsewhereSame(rows: Table, row: Row, cols: seq<nat>, aggs: seq<Aggregation>, key: Key)
    requires KeyOf(row, cols) != key
    ensures OutputRow(rows + [row], cols, aggs, key) == OutputRow(rows, cols, aggs, key)
  {
    assert (rows + [row])[..|rows|] == rows;
  }

  lemma HereUpdated(rows: Table, row: Row, cols: seq<nat>, aggs: seq<Aggregation>, key: Key)
    requires KeyOf(row, cols) == key
    ensures OutputRow(rows + [row], cols, aggs, key) == Updated(OutputRow(rows, cols, aggs, key), key, row, aggs)
  {
    assert (rows + [row])[..|rows|] == rows;
  }

  /** The accumulators of a key with one more row taken in. */
  function Updated(acc: Row, key: Key, row: Row, aggs: seq<Aggregation>): Row
    requires |acc| == |key| + |aggs|
  {
    key + seq(|aggs|, s requires 0 <= s < |aggs| =>
                Combine(aggs[s].op, acc[|key| + s], Lift(aggs[s].op, CellOf(row, aggs[s].column))))
  }

  function Units(key: Key, aggs: seq<Aggregation>): (row: Row)
    ensures |row| == |key| + |aggs|
  {
    key + seq(|aggs|, s requires 0 <= s < |aggs| => Unit(aggs[s].op))
  }

  method FindKey(keys: seq<Key>, key: Key) returns (at: nat)
    ensures at <= |keys| && (at < |keys| ==> keys[at] == key) && (at == |keys| ==> key !in keys)
  {
    at := 0;
    while at < |keys| && keys[at] != key
      invariant at <= |keys| && key !in keys[..at]
    {
      at := at + 1;
    }
  }

  ghost predicate RowsMatch(out: Table, keys: seq<Key>, rows: Table, cols: seq<nat>, aggs: seq<Aggregation>) {
    |out| == |keys| && forall i :: 0 <= i < |keys| ==> out[i] == OutputRow(rows, cols, aggs, keys[i])
  }

  lemma AllElsewhere(out: Table, keys: seq<Key>, rows: Table, row: Row, cols: seq<nat>, aggs: seq<Aggregation>)
    requires RowsMatch(out, keys, rows, cols, aggs) && KeyOf(row, cols) !in keys
    ensures RowsMatch(out, keys, rows + [row], cols, aggs)
  {
    forall i | 0 <= i < |keys|
      ensures out[i] == OutputRow(rows + [row], cols, aggs, keys[i])
    {
      ElsewhereSame(rows, row, cols, aggs, keys[i]);
    }
  }

  lemma Accumulate(low: Table, acc: Row, high: Table, lowKeys: seq<Key>, key: Key, highKeys: seq<Key>, rows: Table,
                   row: Row, cols: seq<nat>, aggs: seq<Aggregation>)
    requires RowsMatch(low, lowKeys, rows, cols, aggs) && RowsMatch(high, highKeys, rows, cols, aggs)
    requires KeyOf(row, cols) == key && key !in lowKeys && key !in highKeys && acc == OutputRow(rows, cols, aggs, key)
    ensures RowsMatch(low + [Updated(acc, key, row, aggs)] + high, lowKeys + [key] + highKeys, rows + [row], cols, aggs)
  {
    AllElsewhere(low, lowKeys, rows, row, cols, aggs);
    AllElsewhere(high, highKeys, rows, row, cols, aggs);
    HereUpdated(rows, row, cols, aggs, key);
  }

  lemma StartGroup(rows: Table, row: Row, cols: seq<nat>, aggs: seq<Aggregation>, key: Key)
    requires forall r :: r in rows ==> KeyOf(r, cols) != key
    ensures OutputRow(rows, cols, aggs, key) == Units(key, aggs)
  {
    forall s | 0 <= s < |aggs|
      ensures GroupResult(rows, cols, key, aggs[s]) == Unit(aggs[s].op)
    {
      ResultOfNone(rows, cols, key, aggs[s]);
    }
  }

  lemma NewKeyMet(keys: seq<Key>, rows: Table, row: Row, cols: seq<nat>)
    requires KeysMet(keys, rows, cols) && KeyOf(row, cols) !in keys
    ensures KeysMet(keys + [KeyOf(row, cols)], rows + [row], cols)
  {
    forall key | key in keys + [KeyOf(row, cols)]
      ensures exists r :: r in rows + [row] && KeyOf(r, cols) == key
    {
      if key in keys {
        var r :| r in rows && KeyOf(r, cols) == key;
        assert r in rows + [row];
      } else {
        assert row in rows + [row];
      }
    }
  }

  lemma {:induction false} EachOnce(out: Table, all: set<Row>)
    requires forall i, j :: 0 <= i < j < |out| ==> out[i] != out[j]
    requires forall row :: row in out <==> row in all
    ensures multiset(out) == multiset(all)
    decreases |out|
  {
    if out == [] {
      assert all == {};
    } else {
      var last := out[|out| - 1];
      EachOnce(out[..|out| - 1], all - {last});
      assert out == out[..|out| - 1] + [last];
      assert multiset(all) == multiset(all - {last}) + multiset{last};
    }
  }

  lemma AccumulatedIsGroupBy(out: Table, keys: seq<Key>, rows: Table, cols: seq<nat>, aggs: seq<Aggregation>)
    requires Accumulated(out, keys, rows, cols, aggs)
    ensures IsGroupBy(out, rows, cols, aggs)
  {
    forall i, j | 0 <= i < j < |out|
      ensures out[i] != out[j]
    {
      assert out[i][..|cols|] == keys[i] && out[j][..|cols|] == keys[j];
    }
    forall row
      ensures row in out <==> row in Groups(rows, cols, aggs)
    {
      if row in out {
        var i :| 0 <= i < |out| && out[i] == row;
        assert keys[i] in keys;
        var r :| r in rows && KeyOf(r, cols) == keys[i];
        assert row == OutputRow(rows, cols, aggs, KeyOf(r, cols));
      }
      if row in Groups(rows, cols, aggs) {
        var r :| r in rows && row == OutputRow(rows, cols, aggs, KeyOf(r, cols));
        var i :| 0 <= i < |keys| && keys[i] == KeyOf(r, cols);
        assert row == out[i];
      }
    }
    EachOnce(out, Groups(rows, cols, aggs));
  }

  lemma MatchesSlice(out: Table, keys: seq<Key>, rows: Table, cols: seq<nat>, aggs: seq<Aggregation>, from: nat, to: nat)
    requires RowsMatch(out, keys, rows, cols, aggs) && from <= to <= |out|
    ensures RowsMatch(out[from..to], keys[from..to], rows, cols, aggs)
  {
  }

  lemma ThreeSlices<T>(low: seq<T>, x: T, high: seq<T>)
    ensures var s := low + [x] + high;
            && s[0..|low|] == low && s[|low|] == x && s[|low| + 1..|s|] == high
  {
  }

  lemma MatchesInParts(low: Table, acc: Row, high: Table, lowKeys: seq<Key>, key: Key, highKeys: seq<Key>, rows: Table,
                       cols: seq<nat>, aggs: seq<Aggregation>)
    requires RowsMatch(low + [acc] + high, lowKeys + [key] + highKeys, rows, cols, aggs) && |low| == |lowKeys|
    ensures RowsMatch(low, lowKeys, rows, cols, aggs) && RowsMatch(high, highKeys, rows, cols, aggs)
    ensures acc == OutputRow(rows, cols, aggs, key)
  {
    var out, keys := low + [acc] + high, lowKeys + [key] + highKeys;
    ThreeSlices(low, acc, high);
    ThreeSlices(lowKeys, key, highKeys);
    MatchesSlice(out, keys, rows, cols, aggs, 0, |low|);
    MatchesSlice(out, keys, rows, cols, aggs, |low| + 1, |out|);
  }

  lemma DistinctParts(lowKeys: seq<Key>, key: Key, highKeys: seq<Key>, rows: Table, cols: seq<nat>)
    requires KeysMet(lowKeys + [key] + highKeys, rows, cols)
    ensures key !in lowKeys && key !in highKeys
  {
    var keys := lowKeys + [key] + highKeys;
    assert keys[|lowKeys|] == key;
    assert forall i :: 0 <= i < |lowKeys| ==> lowKeys[i] == keys[i];
    assert forall i :: 0 <= i < |highKeys| ==> highKeys[i] == keys[|lowKeys| + 1 + i];
  }

  lemma TakeKnown(low: Table, acc: Row, high: Table, lowKeys: seq<Key>, key: Key, highKeys: seq<Key>, rows: Table,
                  row: Row, cols: seq<nat>, aggs: seq<Aggregation>)
    requires Accumulated(low + [acc] + high, lowKeys + [key] + highKeys, rows, cols, aggs) && |low| == |lowKeys|
    requires key == KeyOf(row, cols)
    ensures |acc| == |key| + |aggs|
    ensures Accumulated(low + [Updated(acc, key, row, aggs)] + high, lowKeys + [key] + highKeys, rows + [row], cols, aggs)
  {
    MatchesInParts(low, acc, high, lowKeys, key, highKeys, rows, cols, aggs);
    DistinctParts(lowKeys, key, highKeys, rows, cols);
    Accumulate(low, acc, high, lowKeys, key, highKeys, rows, row, cols, aggs);
    KeyMetAgain(lowKeys + [key] + highKeys, rows, row, cols);
  }

  lemma TakeNew(out: Table, keys: seq<Key>, rows: Table, row: Row, cols: seq<nat>, aggs: seq<Aggregation>, key: Key)
    requires Accumulated(out, keys, rows, cols, aggs) && key == KeyOf(row, cols) && key !in keys
    ensures Accumulated(out + [Updated(Units(key, aggs), key, row, aggs)], keys + [key], rows + [row], cols, aggs)
  {
    StartGroup(rows, row, cols, aggs, key);
    Accumulate(out, Units(key, aggs), [], keys, key, [], rows, row, cols, aggs);
    var out', keys' := out + [Updated(Units(key, aggs), key, row, aggs)], keys + [key];
    assert out' + [] == out' && keys' + [] == keys';
    NewKeyMet(keys, rows, row, cols);
  }

  lemma Around<T>(s: seq<T>, at: nat)
    requires at < |s|
    ensures s == s[..at] + [s[at]] + s[at + 1..]
  {
  }

  method UpdateAt(out: Table, ghost keys: seq<Key>, at: nat, key: Key, ghost rows: Table, row: Row, cols: seq<nat>,
                  aggs: seq<Aggregation>)
    returns (out': Table)
    requires Accumulated(out, keys, rows, cols, aggs) && at < |keys| && keys[at] == key == KeyOf(row, cols)
    ensures Accumulated(out', keys, rows + [row], cols, aggs)
  {
    var low, acc, high := out[..at], out[at], out[at + 1..];
    Around(out, at);
    Around(keys, at);
    TakeKnown(low, acc, high, keys[..at], key, keys[at + 1..], rows, row, cols, aggs);
    out' := low + [Updated(acc, key, row, aggs)] + high;
  }

  method TakeRow(out: Table, keys: seq<Key>, ghost rows: Table, row: Row, cols: seq<nat>, aggs: seq<Aggregation>)
    returns (out': Table, keys': seq<Key>)
    requires Accumulated(out, keys, rows, cols, aggs)
    ensures Accumulated(out', keys', rows + [row], cols, aggs)
  {
    var key := KeyOf(row, cols);
    var at := FindKey(keys, key);
    if at < |keys| {
      out' := UpdateAt(out, keys, at, key, rows, row, cols, aggs);
      keys' := keys;
    } else {
      TakeNew(out, keys, rows, row, cols, aggs, key);
      out', keys' := out + [Updated(Units(key, aggs), key, row, aggs)], keys + [key];
    }
  }

  lemma NothingYet(cols: seq<nat>, aggs: seq<Aggregation>)
    ensures Accumulated([], [], [], cols, aggs)
  {
  }

  lemma OneRowMore(rows: Table, i: nat)
    requires i < |rows|
    ensures rows[..i + 1] == rows[..i] + [rows[i]]
  {
  }

  /** One pass over the rows with one accumulator row per key. */
  method TakeRows(rows: Table, cols: seq<nat>, aggs: seq<Aggregation>) returns (out: Table, keys: seq<Key>)
    ensures Accumulated(out, keys, rows, cols, aggs)
  {
    out, keys := [], [];
    NothingYet(cols, aggs);
    ghost var seen: Table := [];
    for i := 0 to |rows|
      invariant seen == rows[..i]
      invariant Accumulated(out, keys, seen, cols, aggs)
    {
      OneRowMore(rows, i);
      out, keys := TakeRow(out, keys, seen, rows[i], cols, aggs);
      seen := seen + [rows[i]];
    }
    assert seen == rows;
  }

  method AggregationsWithGroupBy(rows: Table, cols: seq<nat>, aggs: seq<Aggregation>) returns (out: Table)
    requires HasColumns(rows, cols)
    ensures IsGroupBy(out, rows, cols, aggs)
  {
    var keys;
    out, keys := TakeRows(rows, cols, aggs);
    AccumulatedIsGroupBy(out, keys, rows, cols, aggs);
  }

  /** The reduction of a column (`cudf::reduce`), null for no value at all. */
  method Reduce(rows: Table, agg: Aggregation) returns (v: Value)
    ensures v == GroupResult(rows, [], [], agg)
  {
    v := Unit(agg.op);
    for i := 0 to |rows|
      invariant v == GroupResult(rows[..i], [], [], agg)
    {
      assert rows[..i + 1][..i] == rows[..i];
      assert KeyOf(rows[i], []) == [];
      v := Combine(agg.op, v, Lift(agg.op, CellOf(rows[i], agg.column)));
    }
    assert rows[..|rows|] == rows;
  }

  /** Without groups the result is always one row: SUM, MIN and MAX are null over an empty table. */
  method AggregationsWithoutGroupBy(rows: Table, aggs: seq<Aggregation>) returns (row: Row)
    ensures row == OutputRow(rows, [], aggs, [])
  {
    row := [];
    for s := 0 to |aggs|
      invariant |row| == s && forall t :: 0 <= t < s ==> row[t] == GroupResult(rows, [], [], aggs[t])
    {
      var v := Null;
      if aggs[s].op == COUNT || |rows| > 0 {
        v := Reduce(rows, aggs[s]);
      }
      row := row + [v];
    }
  }

  ghost predicate IsAggregation(out: Table, rows: Table, cols: seq<nat>, aggs: seq<Aggregation>) {
    if cols == [] then out == [OutputRow(rows, [], aggs, [])] else IsGroupBy(out, rows, cols, aggs)
  }

  /** `compute_aggregations`, the inputs of the aggregations being columns already. */
  method ComputeAggregations(rows: Table, cols: seq<nat>, aggs: seq<Aggregation>) returns (out: Table)
    requires HasColumns(rows, cols)
    ensures IsAggregation(out, rows, cols, aggs)
  {
    if |cols| == 0 {
      var row := AggregationsWithoutGroupBy(rows, aggs);
      out := [row];
    } else {
      out := AggregationsWithGroupBy(rows, cols, aggs);
    }
  }

  /** How partial results are merged: counts are added up, and the results follow the key columns. */
  function MergeAggs(aggs: seq<Aggregation>, keyColumns: nat): (merge: seq<Aggregation>)
    ensures |merge| == |aggs|
    ensures forall s :: 0 <= s < |aggs| ==>
              merge[s] == Aggregation(if aggs[s].op == COUNT then SUM else aggs[s].op, keyColumns + s)
  {
    seq(|aggs|, s requires 0 <= s < |aggs| =>
          Aggregation(if aggs[s].op == COUNT then SUM else aggs[s].op, keyColumns + s))
  }

  /** `aggregationsMerger`: the parts that have rows one after the other, aggregated once more. When there
      is no row at all, the first part is the result. */
  method AggregationsMerger(parts: seq<Table>, keyColumns: nat, aggs: seq<Aggregation>) returns (out: Table)
    requires |parts| > 0 && HasColumns(Flatten(parts), Columns(keyColumns))
    ensures Flatten(parts) != [] ==> IsAggregation(out, Flatten(parts), Columns(keyColumns), MergeAggs(aggs, keyColumns))
    ensures Flatten(parts) == [] ==> out == []
  {
    var concatAggregations: Table := [];
    for i := 0 to |parts|
      invariant concatAggregations == Flatten(parts[..i])
    {
      FlattenSnoc(parts[..i], parts[i]);
      assert parts[..i + 1] == parts[..i] + [parts[i]];
      if |parts[i]| == 0 { continue; }
      concatAggregations := concatAggregations + parts[i];
    }
    assert parts[..|parts|] == parts;
    if |concatAggregations| == 0 {
      NoRows(parts);
      return parts[0];
    }
    out := ComputeAggregations(concatAggregations, Columns(keyColumns), MergeAggs(aggs, keyColumns));
  }

  lemma {:induction false} NoRows(parts: seq<Table>)
    requires Flatten(parts) == []
    ensures forall p :: 0 <= p < |parts| ==> parts[p] == []
  {
    if parts != [] {
      NoRows(parts[..|parts| - 1]);
    }
  }
}
