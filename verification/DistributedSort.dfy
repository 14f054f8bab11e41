/** The distributed ascending sort (src/operators/OrderBy.cpp): every node sorts its rows, cuts them at the
    common pivots, exchanges the parts and merges what it gets. */
module DistributedSort {
  import opened Collections
  import opened Tables
  import opened RangePartition
  import opened Exchange
  import opened Shuffle

  /** What a node has at hand before the exchange: its own rows sorted, and cut at the pivots. */
  method SortAndPartition(nodes: nat, input: Table, sortColIndices: seq<nat>, partitionPlan: seq<Column>)
    returns (partitions: Result<seq<Table>, PivotError>)
    requires HasColumns(input, sortColIndices)
    ensures partitions.Ok? <==> PivotsFit(nodes, sortColIndices, partitionPlan)
    ensures partitions.Ok? ==>
              IsRangePartition(partitions.value, input, sortColIndices, Needles(partitionPlan, nodes - 1))
  {
    var sortedTable := Sort(input, sortColIndices);
    SortedHasColumns(sortedTable, input, sortColIndices);
    partitions := PartitionData(nodes, sortedTable, sortColIndices, partitionPlan, true);
  }

  lemma SortedHasColumns(sorted: Table, table: Table, cols: seq<nat>)
    requires multiset(sorted) == multiset(table) && HasColumns(table, cols)
    ensures HasColumns(sorted, cols)
  {
    assert forall row :: row in sorted ==> row in multiset(table);
  }

  ghost predicate Merged(out: Table, parts: seq<Table>, cols: seq<nat>) {
    Sorted(out, cols) && multiset(out) == multiset(Flatten(parts))
  }

  /** `sortedMerger`: the parts merged into the first one by one; empty parts are skipped. */
  method SortedMerger(parts: seq<Table>, sortColIndices: seq<nat>) returns (output: Table)
    requires |parts| > 0 && forall p :: 0 <= p < |parts| ==> Sorted(parts[p], sortColIndices)
    ensures Merged(output, parts, sortColIndices)
  {
    var leftTable := parts[0];
    FlattenSnoc([], parts[0]);
    assert parts[..1] == [] + [parts[0]];
    for i := 1 to |parts|
      invariant Merged(leftTable, parts[..i], sortColIndices)
    {
      FlattenSnoc(parts[..i], parts[i]);
      assert parts[..i + 1] == parts[..i] + [parts[i]];
      if |parts[i]| == 0 { continue; }
      leftTable := Merge(leftTable, parts[i], sortColIndices);
    }
    assert parts[..|parts|] == parts;
    output := leftTable;
  }

  /** The pieces of a distributed sort: the nodes' tables, what each cut out for each, and what each merged
      in the end of some run of the exchange. */
  ghost predicate IsDistributedSort(q: Query<Table>, states: seq<Net<Table>>, steps: seq<Step<Table>>,
                                    tables: seq<Table>, pivots: seq<Key>, parts: seq<seq<Table>>, outs: seq<Table>,
                                    cols: seq<nat>) {
    && IsRun(q, states, steps) && q.rounds == 1 && Carries(q, 0, parts) && Finished(q, states[|steps|])
    && |tables| == |outs| == q.size == |pivots| + 1
    && (forall i :: 0 <= i < q.size ==> IsRangePartition(parts[i], tables[i], cols, pivots))
    && (forall j :: 0 <= j < q.size ==> Merged(outs[j], ToMerge(q, states[|steps|].nodes[j], 0, j), cols))
  }

  /** What a node merges is sorted part by part, as `sortedMerger` needs. */
  lemma MergeReady(q: Query<Table>, states: seq<Net<Table>>, steps: seq<Step<Table>>, tables: seq<Table>,
                   pivots: seq<Key>, parts: seq<seq<Table>>, cols: seq<nat>, j: nat, p: nat)
    requires IsRun(q, states, steps) && q.rounds == 1 && Carries(q, 0, parts) && Finished(q, states[|steps|])
    requires j < q.size == |tables| == |pivots| + 1
    requires forall i :: 0 <= i < q.size ==> IsRangePartition(parts[i], tables[i], cols, pivots)
    requires p < |ToMerge(q, states[|steps|].nodes[j], 0, j)|
    ensures Sorted(ToMerge(q, states[|steps|].nodes[j], 0, j)[p], cols)
  {
    OneRoundDelivers(q, states, steps, j);
    var i := MergedPart(q, states[|steps|].nodes[j], 0, j, p);
    assert IsRangePartition(parts[i], tables[i], cols, pivots);
  }

  /** Every row that ends up on node j belongs there by its key. */
  lemma RowsInPlace(q: Query<Table>, states: seq<Net<Table>>, steps: seq<Step<Table>>, tables: seq<Table>,
                    pivots: seq<Key>, parts: seq<seq<Table>>, outs: seq<Table>, cols: seq<nat>, j: nat, row: Row)
    requires IsDistributedSort(q, states, steps, tables, pivots, parts, outs, cols)
    requires j < q.size && row in outs[j]
    ensures PartOf(pivots, KeyOf(row, cols)) == j
  {
    var merge := ToMerge(q, states[|steps|].nodes[j], 0, j);
    assert Merged(outs[j], merge, cols);
    assert row in multiset(outs[j]);
    FlattenHas(merge, row);
    var p :| 0 <= p < |merge| && row in merge[p];
    OneRoundDelivers(q, states, steps, j);
    var i := MergedPart(q, states[|steps|].nodes[j], 0, j, p);
    assert IsRangePartition(parts[i], tables[i], cols, pivots);
  }

  lemma {:induction false} NodesInOrder(outs: seq<Table>, cols: seq<nat>, pivots: seq<Key>)
    requires forall j :: 0 <= j < |outs| ==> Sorted(outs[j], cols)
    requires forall j, row :: 0 <= j < |outs| && row in outs[j] ==> PartOf(pivots, KeyOf(row, cols)) == j
    ensures Sorted(Flatten(outs), cols)
  {
    if outs != [] {
      var last := |outs| - 1;
      NodesInOrder(outs[..last], cols, pivots);
      forall x, y | x in Flatten(outs[..last]) && y in outs[last]
        ensures RowLe(x, y, cols)
      {
        FlattenHas(outs[..last], x);
        KeyTotal(KeyOf(x, cols), KeyOf(y, cols));
        if !RowLe(x, y, cols) { PartMonotone(pivots, KeyOf(y, cols), KeyOf(x, cols)); }
      }
    }
  }

  /** For every table on every node, every choice of pivots and every interleaving of the exchange: the
      nodes' results, one after the other, are a sorted permutation of all rows. */
  lemma DistributedSortCorrect(q: Query<Table>, states: seq<Net<Table>>, steps: seq<Step<Table>>, tables: seq<Table>,
                               pivots: seq<Key>, parts: seq<seq<Table>>, outs: seq<Table>, cols: seq<nat>)
    requires IsDistributedSort(q, states, steps, tables, pivots, parts, outs, cols)
    ensures Sorted(Flatten(outs), cols) && RowsAscend(Flatten(outs), cols)
    ensures multiset(Flatten(outs)) == multiset(Flatten(tables))
  {
    forall j, row | 0 <= j < q.size && row in outs[j]
      ensures PartOf(pivots, KeyOf(row, cols)) == j
    {
      RowsInPlace(q, states, steps, tables, pivots, parts, outs, cols, j, row);
    }
    assert forall j :: 0 <= j < q.size ==> Merged(outs[j], ToMerge(q, states[|steps|].nodes[j], 0, j), cols);
    NodesInOrder(outs, cols, pivots);
    SortedAscends(Flatten(outs), cols);
    forall j: nat | j < q.size
      ensures ByReceiver(q, 0)(j) == multiset(outs[j])
    {
      OneRoundDelivers(q, states, steps, j);
      ShuffleDelivers(q, states[|steps|].nodes[j], 0, j);
    }
    FlattenIsSum(outs, ByReceiver(q, 0));
    forall i: nat | i < q.size
      ensures BySender(q, 0)(i) == multiset(tables[i])
    {
      assert IsRangePartition(parts[i], tables[i], cols, pivots);
      SenderKeeps(q, 0, parts[i], i);
    }
    ShuffleConserves(q, 0, tables);
  }

  // ----- compared with a single node ------------------------------------------------------------

  ghost function Keys(t: Table, cols: seq<nat>): (keys: seq<Key>)
    ensures |keys| == |t| && forall i :: 0 <= i < |t| ==> keys[i] == KeyOf(t[i], cols)
  {
    seq(|t|, i requires 0 <= i < |t| => KeyOf(t[i], cols))
  }

  lemma KeysConcat(a: Table, b: Table, cols: seq<nat>)
    ensures Keys(a + b, cols) == Keys(a, cols) + Keys(b, cols)
  {
  }

  lemma KeysWithout(t: Table, p: nat, cols: seq<nat>)
    requires p < |t|
    ensures multiset(Keys(t, cols)) == multiset(Keys(Without(t, p), cols)) + multiset{KeyOf(t[p], cols)}
  {
    var low, high := t[..p], t[p + 1..];
    KeysConcat(low, high, cols);
    KeysConcat([t[p]], high, cols);
    KeysConcat(low, [t[p]] + high, cols);
    assert t == low + ([t[p]] + high);
    assert Keys([t[p]], cols) == [KeyOf(t[p], cols)];
  }

  lemma {:induction false} SameRowsSameKeys(a: Table, b: Table, cols: seq<nat>)
    requires multiset(a) == multiset(b)
    ensures multiset(Keys(a, cols)) == multiset(Keys(b, cols))
    decreases |a|
  {
    if a == [] {
      assert |multiset(b)| == |b|;
    } else {
      var last := |a| - 1;
      var rest := Without(a, last);
      assert a == rest + [a[last]];
      var p := Find(b, a[last], multiset(rest));
      SameRowsSameKeys(rest, Without(b, p), cols);
      KeysWithout(a, last, cols);
      KeysWithout(b, p, cols);
    }
  }

  ghost predicate InOrder(keys: seq<Key>) {
    forall i, j :: 0 <= i < j < |keys| ==> KeyLe(keys[i], keys[j])
  }

  lemma LastIsLargest(keys: seq<Key>, key: Key)
    requires InOrder(keys) && key in keys
    ensures KeyLe(key, keys[|keys| - 1])
  {
    KeyTotal(key, key);
  }

  lemma SameLast(a: seq<Key>, b: seq<Key>)
    requires InOrder(a) && InOrder(b) && multiset(a) == multiset(b) && |a| == |b| > 0
    ensures a[|a| - 1] == b[|b| - 1]
  {
    var x, y := a[|a| - 1], b[|b| - 1];
    assert x in multiset(a) && y in multiset(b);
    LastIsLargest(b, x);
    LastIsLargest(a, y);
    KeyAntisymmetric(x, y);
  }

  lemma DropLast<M>(a: seq<M>, b: seq<M>, x: M)
    requires multiset(a + [x]) == multiset(b + [x])
    ensures multiset(a) == multiset(b)
  {
    assert multiset(a) == multiset(a + [x]) - multiset{x} && multiset(b) == multiset(b + [x]) - multiset{x};
  }

  lemma {:induction false} OneOrder(a: seq<Key>, b: seq<Key>)
    requires InOrder(a) && InOrder(b) && multiset(a) == multiset(b) && |a| == |b|
    ensures a == b
    decreases |a|
  {
    if a != [] {
      SameLast(a, b);
      var x := a[|a| - 1];
      var c, d := a[..|a| - 1], b[..|b| - 1];
      assert a == c + [x] && b == d + [x];
      DropLast(c, d, x);
      OneOrder(c, d);
    }
  }

  /** The keys come out in the very order in which one node, holding all rows, would have sorted them. */
  lemma SortedAsOnOneNode(distributed: Table, single: Table, cols: seq<nat>)
    requires Sorted(distributed, cols) && Sorted(single, cols) && multiset(distributed) == multiset(single)
    ensures Keys(distributed, cols) == Keys(single, cols)
  {
    SameRowsSameKeys(distributed, single, cols);
    SameRows(distributed, single);
    OneOrder(Keys(distributed, cols), Keys(single, cols));
  }
}
