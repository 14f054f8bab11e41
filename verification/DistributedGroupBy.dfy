/** Aggregation over a cluster (src/operators/GroupBy.cpp): every node aggregates its own rows, partitions
    the groups by key, exchanges them and aggregates the partial results once more. */
module DistributedGroupBy {
  import opened Collections
  import opened Tables
  import opened RangePartition
  import opened Exchange
  import opened Shuffle
  import opened GroupBy
  import MasterCollects

  ghost predicate Present(rows: Table, cols: seq<nat>, key: Key) {
    exists row :: row in rows && KeyOf(row, cols) == key
  }

  // ----- merging partial results ----------------------------------------------------------------

  lemma KeyOfOutput(rows: Table, cols: seq<nat>, aggs: seq<Aggregation>, key: Key)
    ensures KeyOf(OutputRow(rows, cols, aggs, key), Columns(|key|)) == key
  {
    var out := OutputRow(rows, cols, aggs, key);
    assert forall i :: 0 <= i < |key| ==> out[i] == out[..|key|][i];
  }

  /** A row of a grouped table is the output row of its key, and its key was there. */
  lemma GroupRow(local: Table, rows: Table, cols: seq<nat>, aggs: seq<Aggregation>, out: Row)
    requires IsGroupBy(local, rows, cols, aggs) && out in local
    ensures var key := KeyOf(out, Columns(|cols|));
            |key| == |cols| && out == OutputRow(rows, cols, aggs, key) && Present(rows, cols, key)
  {
    assert out in multiset(local);
    assert out in Groups(rows, cols, aggs);
    var row :| row in rows && out == OutputRow(rows, cols, aggs, KeyOf(row, cols));
    KeyOfOutput(rows, cols, aggs, KeyOf(row, cols));
  }

  lemma GroupThere(local: Table, rows: Table, cols: seq<nat>, aggs: seq<Aggregation>, key: Key)
    requires IsGroupBy(local, rows, cols, aggs) && Present(rows, cols, key)
    ensures OutputRow(rows, cols, aggs, key) in local
  {
    var row :| row in rows && KeyOf(row, cols) == key;
    assert OutputRow(rows, cols, aggs, key) in Groups(rows, cols, aggs);
    assert OutputRow(rows, cols, aggs, key) in multiset(local);
  }

  /** A group's partial result, or null if the node has no row of the group. */
  ghost function Partial(rows: Table, cols: seq<nat>, key: Key, agg: Aggregation): Value {
    if Present(rows, cols, key) then GroupResult(rows, cols, key, agg) else Null
  }

  /** Aggregating the partial results of one node gives them back. */
  lemma MergeOne(local: Table, rows: Table, cols: seq<nat>, aggs: seq<Aggregation>, key: Key, s: nat)
    requires IsGroupBy(local, rows, cols, aggs) && s < |aggs| && |key| == |cols|
    ensures GroupResult(local, Columns(|cols|), key, MergeAggs(aggs, |cols|)[s]) == Partial(rows, cols, key, aggs[s])
  {
    var merge := MergeAggs(aggs, |cols|)[s];
    var keyCols := Columns(|cols|);
    if Present(rows, cols, key) {
      var out := OutputRow(rows, cols, aggs, key);
      GroupThere(local, rows, cols, aggs, key);
      KeyOfOutput(rows, cols, aggs, key);
      var p :| 0 <= p < |local| && local[p] == out;
      ResultWithout(local, p, keyCols, key, merge);
      OthersElsewhere(local, rows, cols, aggs, key, p);
      ResultOfNone(Without(local, p), keyCols, key, merge);
      assert GroupResult([out], keyCols, key, merge) == out[|cols| + s];
    } else {
      forall r | r in local
        ensures KeyOf(r, keyCols) != key
      {
        GroupRow(local, rows, cols, aggs, r);
      }
      ResultOfNone(local, keyCols, key, merge);
    }
  }

  lemma OthersElsewhere(local: Table, rows: Table, cols: seq<nat>, aggs: seq<Aggregation>, key: Key, p: nat)
    requires IsGroupBy(local, rows, cols, aggs) && p < |local| && local[p] == OutputRow(rows, cols, aggs, key)
    ensures forall r :: r in Without(local, p) ==> KeyOf(r, Columns(|cols|)) != key
  {
    forall r | r in Without(local, p)
      ensures KeyOf(r, Columns(|cols|)) != key
    {
      GroupRow(local, rows, cols, aggs, r);
      assert local == local[..p] + [local[p]] + local[p + 1..];
      assert r in multiset(Without(local, p)) && multiset(local)[r] <= 1;
    }
  }

  lemma CombineMerge(op: Op, a: Value, b: Value)
    ensures Combine(if op == COUNT then SUM else op, a, b) == Combine(op, a, b)
    ensures Combine(op, Null, b) == b && Combine(op, a, Null) == a
    ensures Proper(op, a) ==> Combine(op, a, Unit(op)) == Combine(op, Unit(op), a) == a
  {
  }

  lemma PartialConcat(a: Table, b: Table, cols: seq<nat>, key: Key, agg: Aggregation)
    ensures Partial(a + b, cols, key, agg) == Combine(agg.op, Partial(a, cols, key, agg), Partial(b, cols, key, agg))
  {
    ResultConcat(a, b, cols, key, agg);
    ResultProper(a, cols, key, agg);
    ResultProper(b, cols, key, agg);
    assert Present(a + b, cols, key) <==> Present(a, cols, key) || Present(b, cols, key) by {
      assert forall row :: row in a + b <==> row in a || row in b;
    }
    CombineMerge(agg.op, Partial(a, cols, key, agg), Partial(b, cols, key, agg));
    if !Present(a, cols, key) { ResultOfNone(a, cols, key, agg); }
    if !Present(b, cols, key) { ResultOfNone(b, cols, key, agg); }
    CombineMerge(agg.op, GroupResult(a, cols, key, agg), GroupResult(b, cols, key, agg));
    CombineMerge(agg.op, GroupResult(b, cols, key, agg), GroupResult(a, cols, key, agg));
  }

  /** Aggregating all nodes' partial results is aggregating all rows. */
  lemma {:induction false} MergeAll(locals: seq<Table>, tables: seq<Table>, cols: seq<nat>, aggs: seq<Aggregation>,
                                    key: Key, s: nat)
    requires |locals| == |tables| && s < |aggs| && |key| == |cols|
    requires forall i :: 0 <= i < |tables| ==> IsGroupBy(locals[i], tables[i], cols, aggs)
    ensures GroupResult(Flatten(locals), Columns(|cols|), key, MergeAggs(aggs, |cols|)[s])
         == Partial(Flatten(tables), cols, key, aggs[s])
  {
    if tables == [] {
      assert !Present([], cols, key);
    } else {
      var last := |tables| - 1;
      var merge := MergeAggs(aggs, |cols|)[s];
      MergeAll(locals[..last], tables[..last], cols, aggs, key, s);
      MergeOne(locals[last], tables[last], cols, aggs, key, s);
      ResultConcat(Flatten(locals[..last]), locals[last], Columns(|cols|), key, merge);
      PartialConcat(Flatten(tables[..last]), tables[last], cols, key, aggs[s]);
      CombineMerge(aggs[s].op, Partial(Flatten(tables[..last]), cols, key, aggs[s]),
                   Partial(tables[last], cols, key, aggs[s]));
    }
  }

  // ----- the exchange brings each group together ------------------------------------------------

  /** Every node has its partial results, cut at the pivots. */
  ghost predicate Prepared(parts: seq<seq<Table>>, locals: seq<Table>, tables: seq<Table>, pivots: seq<Key>,
                           cols: seq<nat>, aggs: seq<Aggregation>) {
    && |parts| == |locals| == |tables|
    && (forall i :: 0 <= i < |tables| ==> IsGroupBy(locals[i], tables[i], cols, aggs))
    && CutAt(parts, locals, pivots, Columns(|cols|))
  }

  ghost predicate CutAt(parts: seq<seq<Table>>, locals: seq<Table>, pivots: seq<Key>, cols: seq<nat>) {
    && |parts| == |locals|
    && (forall i :: 0 <= i < |parts| ==> |parts[i]| == |pivots| + 1)
    && (forall i :: 0 <= i < |parts| ==> IsRangePartition(parts[i], locals[i], cols, pivots))
  }

  /** What all nodes have for node j. */
  ghost function PartsFor(parts: seq<seq<Table>>, j: nat): (p: seq<Table>)
    requires forall i :: 0 <= i < |parts| ==> j < |parts[i]|
    ensures |p| == |parts| && forall i :: 0 <= i < |p| ==> p[i] == parts[i][j]
  {
    seq(|parts|, i requires 0 <= i < |parts| => parts[i][j])
  }

  /** If only one part has rows of the group, the result over all parts is the result over that one. */
  lemma {:induction false} OnePart(parts: seq<Table>, j: nat, cols: seq<nat>, key: Key, agg: Aggregation)
    requires j < |parts| && agg.op != COUNT
    requires forall k :: 0 <= k < |parts| && k != j ==> !Present(parts[k], cols, key)
    ensures GroupResult(Flatten(parts), cols, key, agg) == GroupResult(parts[j], cols, key, agg)
  {
    var last := |parts| - 1;
    ResultConcat(Flatten(parts[..last]), parts[last], cols, key, agg);
    if j < last {
      OnePart(parts[..last], j, cols, key, agg);
      ResultOfNone(parts[last], cols, key, agg);
    } else {
      forall row | row in Flatten(parts[..last])
        ensures KeyOf(row, cols) != key
      {
        FlattenHas(parts[..last], row);
        var p :| 0 <= p < last && row in parts[p];
        assert !Present(parts[p], cols, key);
      }
      ResultOfNone(Flatten(parts[..last]), cols, key, agg);
    }
  }

  /** The part a key belongs to has the whole group of a table. */
  lemma PartHasGroup(parts: seq<Table>, table: Table, cols: seq<nat>, pivots: seq<Key>, key: Key, agg: Aggregation)
    requires IsRangePartition(parts, table, cols, pivots) && agg.op != COUNT
    ensures GroupResult(parts[PartOf(pivots, key)], cols, key, agg) == GroupResult(table, cols, key, agg)
  {
    OnePart(parts, PartOf(pivots, key), cols, key, agg);
    ResultInAnyOrder(Flatten(parts), table, cols, key, agg);
  }

  lemma {:induction false} SameResults(a: seq<Table>, b: seq<Table>, cols: seq<nat>, key: Key, agg: Aggregation)
    requires |a| == |b|
    requires forall i :: 0 <= i < |a| ==> GroupResult(a[i], cols, key, agg) == GroupResult(b[i], cols, key, agg)
    ensures GroupResult(Flatten(a), cols, key, agg) == GroupResult(Flatten(b), cols, key, agg)
  {
    if a != [] {
      var last := |a| - 1;
      SameResults(a[..last], b[..last], cols, key, agg);
      ResultConcat(Flatten(a[..last]), a[last], cols, key, agg);
      ResultConcat(Flatten(b[..last]), b[last], cols, key, agg);
    }
  }

  /** Node j, where the key belongs, gets what any node has of the group. */
  lemma NodeHasGroup(parts: seq<seq<Table>>, locals: seq<Table>, cols: seq<nat>, pivots: seq<Key>,
                     key: Key, agg: Aggregation)
    requires CutAt(parts, locals, pivots, cols) && agg.op != COUNT
    ensures GroupResult(Flatten(PartsFor(parts, PartOf(pivots, key))), cols, key, agg)
         == GroupResult(Flatten(locals), cols, key, agg)
  {
    var mine := PartsFor(parts, PartOf(pivots, key));
    forall i | 0 <= i < |parts|
      ensures GroupResult(mine[i], cols, key, agg) == GroupResult(locals[i], cols, key, agg)
    {
      PartHasGroup(parts[i], locals[i], cols, pivots, key, agg);
    }
    SameResults(mine, locals, cols, key, agg);
  }

  /** The pieces of a distributed aggregation: the nodes' tables, their partial results, what each cut out
      for each, and what each aggregated in the end of some run of the exchange. */
  ghost predicate IsDistributedGroupBy(q: Query<Table>, states: seq<Net<Table>>, steps: seq<Step<Table>>,
                                       tables: seq<Table>, locals: seq<Table>, pivots: seq<Key>,
                                       parts: seq<seq<Table>>, outs: seq<Table>,
                                       cols: seq<nat>, aggs: seq<Aggregation>) {
    && IsRun(q, states, steps) && q.rounds == 1 && Carries(q, 0, parts) && Finished(q, states[|steps|])
    && |tables| == |outs| == q.size == |pivots| + 1
    && Prepared(parts, locals, tables, pivots, cols, aggs)
    && (forall j :: 0 <= j < q.size ==>
          IsGroupBy(outs[j], Flatten(ToMerge(q, states[|steps|].nodes[j], 0, j)), Columns(|cols|), MergeAggs(aggs, |cols|)))
  }

  /** The groups of all rows that belong to part j. */
  ghost function GroupsOf(rows: Table, cols: seq<nat>, aggs: seq<Aggregation>, pivots: seq<Key>, j: nat): set<Row> {
    set row | row in rows && PartOf(pivots, KeyOf(row, cols)) == j :: OutputRow(rows, cols, aggs, KeyOf(row, cols))
  }

  /** The final row of a key on its node is the global one. */
  lemma FinalRow(parts: seq<seq<Table>>, locals: seq<Table>, tables: seq<Table>, pivots: seq<Key>,
                 cols: seq<nat>, aggs: seq<Aggregation>, key: Key)
    requires Prepared(parts, locals, tables, pivots, cols, aggs)
    requires |key| == |cols| && Present(Flatten(tables), cols, key)
    ensures OutputRow(Flatten(PartsFor(parts, PartOf(pivots, key))), Columns(|cols|), MergeAggs(aggs, |cols|), key)
         == OutputRow(Flatten(tables), cols, aggs, key)
  {
    var merge := MergeAggs(aggs, |cols|);
    forall s | 0 <= s < |aggs|
      ensures GroupResult(Flatten(PartsFor(parts, PartOf(pivots, key))), Columns(|cols|), key, merge[s])
           == GroupResult(Flatten(tables), cols, key, aggs[s])
    {
      NodeHasGroup(parts, locals, Columns(|cols|), pivots, key, merge[s]);
      MergeAll(locals, tables, cols, aggs, key, s);
    }
  }

  /** A row that node j merges stands for a key of some node that belongs there. */
  lemma KeyArrives(parts: seq<seq<Table>>, locals: seq<Table>, tables: seq<Table>, pivots: seq<Key>,
                   cols: seq<nat>, aggs: seq<Aggregation>, j: nat, row: Row) returns (origin: Row)
    requires Prepared(parts, locals, tables, pivots, cols, aggs)
    requires j <= |pivots|
    requires row in Flatten(PartsFor(parts, j))
    ensures origin in Flatten(tables) && KeyOf(origin, cols) == KeyOf(row, Columns(|cols|))
    ensures PartOf(pivots, KeyOf(origin, cols)) == j
  {
    FlattenHas(PartsFor(parts, j), row);
    var i :| 0 <= i < |parts| && row in parts[i][j];
    FlattenHas(parts[i], row);
    assert row in multiset(Flatten(parts[i]));
    assert row in multiset(locals[i]);
    GroupRow(locals[i], tables[i], cols, aggs, row);
    origin :| origin in tables[i] && KeyOf(origin, cols) == KeyOf(row, Columns(|cols|));
    FlattenHas(tables, origin);
  }

  /** Every key of every node arrives where it belongs. */
  lemma KeySent(parts: seq<seq<Table>>, locals: seq<Table>, tables: seq<Table>, pivots: seq<Key>,
                cols: seq<nat>, aggs: seq<Aggregation>, origin: Row) returns (row: Row)
    requires Prepared(parts, locals, tables, pivots, cols, aggs)
    requires origin in Flatten(tables)
    ensures row in Flatten(PartsFor(parts, PartOf(pivots, KeyOf(origin, cols))))
    ensures KeyOf(row, Columns(|cols|)) == KeyOf(origin, cols)
  {
    var key := KeyOf(origin, cols);
    FlattenHas(tables, origin);
    var i :| 0 <= i < |tables| && origin in tables[i];
    row := OutputRow(tables[i], cols, aggs, key);
    GroupThere(locals[i], tables[i], cols, aggs, key);
    KeyOfOutput(tables[i], cols, aggs, key);
    assert row in multiset(locals[i]);
    assert row in multiset(Flatten(parts[i]));
    FlattenHas(parts[i], row);
    var k :| 0 <= k < |parts[i]| && row in parts[i][k];
    FlattenHas(PartsFor(parts, k), row);
    assert PartsFor(parts, k)[i] == parts[i][k];
  }

  /** What node j computes: exactly the groups of the whole cluster that belong to it. */
  lemma NodeResult(parts: seq<seq<Table>>, locals: seq<Table>, tables: seq<Table>, pivots: seq<Key>,
                   cols: seq<nat>, aggs: seq<Aggregation>, j: nat)
    requires Prepared(parts, locals, tables, pivots, cols, aggs)
    requires j <= |pivots|
    ensures Groups(Flatten(PartsFor(parts, j)), Columns(|cols|), MergeAggs(aggs, |cols|))
         == GroupsOf(Flatten(tables), cols, aggs, pivots, j)
  {
    var merged, rows, keyCols, merge := Flatten(PartsFor(parts, j)), Flatten(tables), Columns(|cols|), MergeAggs(aggs, |cols|);
    forall out | out in Groups(merged, keyCols, merge)
      ensures out in GroupsOf(rows, cols, aggs, pivots, j)
    {
      var row :| row in merged && out == OutputRow(merged, keyCols, merge, KeyOf(row, keyCols));
      var origin := KeyArrives(parts, locals, tables, pivots, cols, aggs, j, row);
      FinalRow(parts, locals, tables, pivots, cols, aggs, KeyOf(origin, cols));
    }
    forall out | out in GroupsOf(rows, cols, aggs, pivots, j)
      ensures out in Groups(merged, keyCols, merge)
    {
      var origin :| origin in rows && PartOf(pivots, KeyOf(origin, cols)) == j
                    && out == OutputRow(rows, cols, aggs, KeyOf(origin, cols));
      var row := KeySent(parts, locals, tables, pivots, cols, aggs, origin);
      FinalRow(parts, locals, tables, pivots, cols, aggs, KeyOf(origin, cols));
      assert out == OutputRow(merged, keyCols, merge, KeyOf(row, keyCols));
    }
  }

  // ----- all nodes together ---------------------------------------------------------------------

  ghost function SliceOf(rows: Table, cols: seq<nat>, aggs: seq<Aggregation>, pivots: seq<Key>): nat -> multiset<Row> {
    (j: nat) => multiset(GroupsOf(rows, cols, aggs, pivots, j))
  }

  ghost function GroupsBelow(rows: Table, cols: seq<nat>, aggs: seq<Aggregation>, pivots: seq<Key>, k: nat): set<Row> {
    set row | row in rows && PartOf(pivots, KeyOf(row, cols)) < k :: OutputRow(rows, cols, aggs, KeyOf(row, cols))
  }

  lemma DisjointUnion<M>(a: set<M>, b: set<M>)
    requires a !! b
    ensures multiset(a + b) == multiset(a) + multiset(b)
  {
  }

  lemma BelowByKey(rows: Table, cols: seq<nat>, aggs: seq<Aggregation>, pivots: seq<Key>, k: nat, out: Row)
    requires out in GroupsBelow(rows, cols, aggs, pivots, k)
    ensures |out| >= |cols| && PartOf(pivots, out[..|cols|]) < k
  {
    var row :| row in rows && PartOf(pivots, KeyOf(row, cols)) < k && out == OutputRow(rows, cols, aggs, KeyOf(row, cols));
  }

  lemma OwnByKey(rows: Table, cols: seq<nat>, aggs: seq<Aggregation>, pivots: seq<Key>, k: nat, out: Row)
    requires out in GroupsOf(rows, cols, aggs, pivots, k)
    ensures |out| >= |cols| && PartOf(pivots, out[..|cols|]) == k
  {
    var row :| row in rows && PartOf(pivots, KeyOf(row, cols)) == k && out == OutputRow(rows, cols, aggs, KeyOf(row, cols));
  }

  /** No group belongs to two nodes. */
  lemma SlicesApart(rows: Table, cols: seq<nat>, aggs: seq<Aggregation>, pivots: seq<Key>, k: nat)
    ensures GroupsBelow(rows, cols, aggs, pivots, k) !! GroupsOf(rows, cols, aggs, pivots, k)
  {
    forall out | out in GroupsBelow(rows, cols, aggs, pivots, k)
      ensures out !in GroupsOf(rows, cols, aggs, pivots, k)
    {
      BelowByKey(rows, cols, aggs, pivots, k, out);
      if out in GroupsOf(rows, cols, aggs, pivots, k) { OwnByKey(rows, cols, aggs, pivots, k, out); }
    }
  }

  lemma {:induction false} SlicesAddUp(rows: Table, cols: seq<nat>, aggs: seq<Aggregation>, pivots: seq<Key>, k: nat)
    ensures Sum(SliceOf(rows, cols, aggs, pivots), k) == multiset(GroupsBelow(rows, cols, aggs, pivots, k))
  {
    if k == 0 {
      assert GroupsBelow(rows, cols, aggs, pivots, 0) == {};
    } else {
      SlicesAddUp(rows, cols, aggs, pivots, k - 1);
      SlicesApart(rows, cols, aggs, pivots, k - 1);
      DisjointUnion(GroupsBelow(rows, cols, aggs, pivots, k - 1), GroupsOf(rows, cols, aggs, pivots, k - 1));
      assert GroupsBelow(rows, cols, aggs, pivots, k)
          == GroupsBelow(rows, cols, aggs, pivots, k - 1) + GroupsOf(rows, cols, aggs, pivots, k - 1);
    }
  }

  /** In every run of the exchange, node j outputs the groups that belong to it. */
  lemma NodeOutput(q: Query<Table>, states: seq<Net<Table>>, steps: seq<Step<Table>>, tables: seq<Table>,
                   locals: seq<Table>, pivots: seq<Key>, parts: seq<seq<Table>>, outs: seq<Table>,
                   cols: seq<nat>, aggs: seq<Aggregation>, j: nat)
    requires IsDistributedGroupBy(q, states, steps, tables, locals, pivots, parts, outs, cols, aggs) && j < q.size
    ensures multiset(outs[j]) == multiset(GroupsOf(Flatten(tables), cols, aggs, pivots, j))
  {
    var merge := Flatten(ToMerge(q, states[|steps|].nodes[j], 0, j));
    OneRoundDelivers(q, states, steps, j);
    ShuffleDelivers(q, states[|steps|].nodes[j], 0, j);
    FlattenIsSum(PartsFor(parts, j), AllFor(q, 0, j));
    GroupsInAnyOrder(merge, Flatten(PartsFor(parts, j)), Columns(|cols|), MergeAggs(aggs, |cols|));
    NodeResult(parts, locals, tables, pivots, cols, aggs, j);
  }

  /** For every table on every node, every choice of pivots and every interleaving of the exchange: the
      nodes' results together are what one node would compute from all rows, each group once. */
  lemma DistributedGroupByCorrect(q: Query<Table>, states: seq<Net<Table>>, steps: seq<Step<Table>>, tables: seq<Table>,
                                  locals: seq<Table>, pivots: seq<Key>, parts: seq<seq<Table>>, outs: seq<Table>,
                                  cols: seq<nat>, aggs: seq<Aggregation>)
    requires IsDistributedGroupBy(q, states, steps, tables, locals, pivots, parts, outs, cols, aggs)
    ensures IsGroupBy(Flatten(outs), Flatten(tables), cols, aggs)
  {
    forall j: nat | j < q.size
      ensures SliceOf(Flatten(tables), cols, aggs, pivots)(j) == multiset(outs[j])
    {
      NodeOutput(q, states, steps, tables, locals, pivots, parts, outs, cols, aggs, j);
    }
    SlicesAreGroups(outs, Flatten(tables), cols, aggs, pivots);
  }

  lemma SlicesAreGroups(outs: seq<Table>, rows: Table, cols: seq<nat>, aggs: seq<Aggregation>, pivots: seq<Key>)
    requires |outs| == |pivots| + 1
    requires forall j: nat :: j < |outs| ==> SliceOf(rows, cols, aggs, pivots)(j) == multiset(outs[j])
    ensures IsGroupBy(Flatten(outs), rows, cols, aggs)
  {
    FlattenIsSum(outs, SliceOf(rows, cols, aggs, pivots));
    SlicesAddUp(rows, cols, aggs, pivots, |outs|);
    assert GroupsBelow(rows, cols, aggs, pivots, |outs|) == Groups(rows, cols, aggs);
  }

  // ----- the plan, and the local steps ----------------------------------------------------------

  /** Pivots taken from the rows of the samples, each row once. */
  ghost predicate ArePivotsOfDistinct(pivots: seq<Column>, samples: Table, nodes: nat, width: nat) {
    exists distinct ::
      multiset(distinct) == multiset(set row | row in samples) && ArePivots(pivots, distinct, nodes, width)
  }

  /** `generatePartitionPlansGroupBy`: the pivots are taken from the distinct keys of the samples. */
  method GeneratePartitionPlansGroupBy(nodes: nat, samples: seq<Table>, width: nat) returns (pivots: seq<Column>)
    requires nodes >= 1 && width > 0 && |Flatten(samples)| > 0
    requires forall row :: row in Flatten(samples) ==> |row| == width
    ensures ArePivotsOfDistinct(pivots, Flatten(samples), nodes, width)
  {
    var concatSamples := Concat(samples);
    var groupedSamples := AggregationsWithGroupBy(concatSamples, Columns(width), []);
    DistinctKeys(groupedSamples, concatSamples, width);
    assert concatSamples[0] in groupedSamples;
    pivots := SortAndPick(nodes, groupedSamples, width);
  }

  lemma KeyIsGroup(rows: Table, width: nat, row: Row)
    requires |row| == width
    ensures KeyOf(row, Columns(width)) == row
    ensures OutputRow(rows, Columns(width), [], row) == row
  {
    WholeRowIsKey(row);
    var out := OutputRow(rows, Columns(width), [], row);
    assert out == out[..width];
  }

  /** Grouping by all columns leaves each row once. */
  lemma DistinctKeys(grouped: Table, rows: Table, width: nat)
    requires IsGroupBy(grouped, rows, Columns(width), []) && forall row :: row in rows ==> |row| == width
    ensures multiset(grouped) == multiset(set row | row in rows)
    ensures forall row :: row in grouped <==> row in rows
  {
    forall row | row in rows
      ensures OutputRow(rows, Columns(width), [], KeyOf(row, Columns(width))) == row
    {
      KeyIsGroup(rows, width, row);
    }
    assert Groups(rows, Columns(width), []) == set row | row in rows;
    assert forall row :: row in grouped <==> row in multiset(grouped);
  }

  /** What a node has at hand before the exchange: its own groups, cut at the pivots. The groups' keys are
      now the leading columns. */
  method AggregateAndPartition(nodes: nat, input: Table, cols: seq<nat>, aggs: seq<Aggregation>,
                               partitionPlan: seq<Column>)
    returns (partitions: Result<seq<Table>, PivotError>, ghost local: Table)
    requires HasColumns(input, cols) && cols != []
    ensures IsGroupBy(local, input, cols, aggs)
    ensures partitions.Ok? <==> PivotsFit(nodes, Columns(|cols|), partitionPlan)
    ensures partitions.Ok? ==>
              IsRangePartition(partitions.value, local, Columns(|cols|), Needles(partitionPlan, nodes - 1))
  {
    var aggregatedTable := ComputeAggregations(input, cols, aggs);
    forall row | row in aggregatedTable
      ensures |row| >= |cols|
    {
      GroupRow(aggregatedTable, input, cols, aggs, row);
    }
    local := aggregatedTable;
    partitions := PartitionData(nodes, aggregatedTable, Columns(|cols|), partitionPlan, false);
  }

  // ----- without groups -------------------------------------------------------------------------

  /** The one row each node contributes. */
  ghost function LocalTotals(tables: seq<Table>, aggs: seq<Aggregation>): (rows: Table)
    ensures |rows| == |tables| && forall i :: 0 <= i < |rows| ==> rows[i] == OutputRow(tables[i], [], aggs, [])
  {
    seq(|tables|, i requires 0 <= i < |tables| => OutputRow(tables[i], [], aggs, []))
  }

  lemma {:induction false} TotalsMerge(tables: seq<Table>, aggs: seq<Aggregation>, s: nat)
    requires s < |aggs|
    ensures GroupResult(LocalTotals(tables, aggs), [], [], MergeAggs(aggs, 0)[s])
         == if tables == [] then Null else GroupResult(Flatten(tables), [], [], aggs[s])
  {
    if tables != [] {
      var last := |tables| - 1;
      var totals := LocalTotals(tables, aggs);
      var all, mine := GroupResult(Flatten(tables[..last]), [], [], aggs[s]), GroupResult(tables[last], [], [], aggs[s]);
      TotalsMerge(tables[..last], aggs, s);
      assert totals[..last] == LocalTotals(tables[..last], aggs);
      assert KeyOf(totals[last], []) == [] && CellOf(totals[last], s) == totals[last][s] == mine;
      ResultConcat(Flatten(tables[..last]), tables[last], [], [], aggs[s]);
      ResultProper(tables[last], [], [], aggs[s]);
      CombineMerge(aggs[s].op, all, mine);
      CombineMerge(aggs[s].op, mine, all);
    }
  }

  /** For all tables and in every interleaving of the nodes' sends with the master's receipts: the master's one
      row is that of all rows. */
  lemma DistributedTotalsCorrect(tables: seq<Table>, aggs: seq<Aggregation>, master: nat,
                                 states: seq<MasterCollects.Gathering<Row>>, steps: seq<MasterCollects.Step<Row>>)
    requires MasterCollects.IsRun(states, steps, LocalTotals(tables, aggs), master)
    requires MasterCollects.Finished(states[|steps|], LocalTotals(tables, aggs))
    ensures OutputRow(states[|steps|].got + [LocalTotals(tables, aggs)[master]], [], MergeAggs(aggs, 0), [])
         == OutputRow(Flatten(tables), [], aggs, [])
  {
    MasterCollects.MasterHasAll(states, steps, LocalTotals(tables, aggs), master);
    TotalsOfAll(tables, states[|steps|].got + [LocalTotals(tables, aggs)[master]], aggs);
  }

  lemma TotalsOfAll(tables: seq<Table>, received: Table, aggs: seq<Aggregation>)
    requires tables != [] && multiset(received) == multiset(LocalTotals(tables, aggs))
    ensures OutputRow(received, [], MergeAggs(aggs, 0), []) == OutputRow(Flatten(tables), [], aggs, [])
  {
    forall s | 0 <= s < |aggs|
      ensures GroupResult(received, [], [], MergeAggs(aggs, 0)[s]) == GroupResult(Flatten(tables), [], [], aggs[s])
    {
      ResultInAnyOrder(received, LocalTotals(tables, aggs), [], [], MergeAggs(aggs, 0)[s]);
      TotalsMerge(tables, aggs, s);
    }
  }
}
