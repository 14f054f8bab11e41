/** Partitioning by ranges of keys (src/distribution/primitives.cpp): pivots are taken from a sample of all
    nodes' keys, and every node cuts its table at them. */
module RangePartition {
  import opened Basics
  import opened Collections
  import opened Tables

  type Column = seq<Value>

  /** The k-th pivot, one value from each column. */
  function Needle(pivots: seq<Column>, k: nat): Key
    requires forall c :: 0 <= c < |pivots| ==> k < |pivots[c]|
  {
    seq(|pivots|, c requires 0 <= c < |pivots| => pivots[c][k])
  }

  function Needles(pivots: seq<Column>, size: nat): seq<Key>
    requires forall c :: 0 <= c < |pivots| ==> |pivots[c]| == size
  {
    seq(size, k requires 0 <= k < size => Needle(pivots, k))
  }

  /** Where a key belongs: the number of pivots strictly below it. */
  function PartOf(pivots: seq<Key>, key: Key): (part: nat)
    ensures part <= |pivots|
  {
    if pivots == [] then 0
    else PartOf(pivots[..|pivots| - 1], key) + (if KeyLe(key, pivots[|pivots| - 1]) then 0 else 1)
  }

  lemma {:induction false} PartMonotone(pivots: seq<Key>, a: Key, b: Key)
    requires KeyLe(a, b)
    ensures PartOf(pivots, a) <= PartOf(pivots, b)
  {
    if pivots != [] {
      PartMonotone(pivots[..|pivots| - 1], a, b);
      if KeyLe(b, pivots[|pivots| - 1]) { KeyTransitive(a, b, pivots[|pivots| - 1]); }
    }
  }

  // ----- the pivots -----------------------------------------------------------------------------

  function Columns(width: nat): (cols: seq<nat>)
    ensures |cols| == width && forall i :: 0 <= i < width ==> cols[i] == i
  {
    seq(width, i => i)
  }

  lemma WholeRowIsKey(row: Row)
    ensures KeyOf(row, Columns(|row|)) == row
  {
  }

  /** The gathered positions step, 2 * step, ... lie in the sample if and only if the sample is not empty. */
  lemma PivotsInBounds(total: nat, nodes: nat, k: nat)
    requires k + 1 < nodes
    ensures (k + 1) * (total / nodes) < total <==> total > 0
  {
    var step := total / nodes;
    MulMonotone(k + 1, nodes - 1, step);
    assert nodes * step <= total;
    assert (nodes - 1) * step == nodes * step - step;
  }

  /** step, 2 * step, ..., count * step (`gdf_sequence`) */
  function GatherMap(step: nat, count: nat): (at: seq<nat>)
    ensures |at| == count
  {
    if count == 0 then [] else GatherMap(step, count - 1) + [count * step]
  }

  lemma {:induction false} GatherMapAt(step: nat, count: nat, k: nat)
    requires k < count
    ensures GatherMap(step, count)[k] == (k + 1) * step
  {
    if k < count - 1 { GatherMapAt(step, count - 1, k); }
  }

  ghost predicate Fits(at: seq<nat>, total: nat) {
    (forall k :: 0 <= k < |at| ==> at[k] < total) && (forall k, l :: 0 <= k < l < |at| ==> at[k] <= at[l])
  }

  lemma GatherMapFits(total: nat, nodes: nat)
    requires nodes >= 1 && total > 0
    ensures Fits(GatherMap(total / nodes, nodes - 1), total)
  {
    var step := total / nodes;
    var at := GatherMap(step, nodes - 1);
    forall k | 0 <= k < |at|
      ensures at[k] < total
    {
      GatherMapAt(step, nodes - 1, k);
      PivotsInBounds(total, nodes, k);
    }
    forall k, l | 0 <= k < l < |at|
      ensures at[k] <= at[l]
    {
      GatherMapAt(step, nodes - 1, k);
      GatherMapAt(step, nodes - 1, l);
      MulMonotone(k + 1, l + 1, step);
    }
  }

  /** Tables one after the other (`gdf_column_concat`). */
  method Concat(tables: seq<Table>) returns (all: Table)
    ensures all == Flatten(tables)
  {
    all := [];
    var i := 0;
    while i < |tables|
      invariant i <= |tables| && all == Flatten(tables[..i])
    {
      FlattenSnoc(tables[..i], tables[i]);
      assert tables[..i + 1] == tables[..i] + [tables[i]];
      all := all + tables[i];
      i := i + 1;
    }
    assert tables[..i] == tables;
  }

  /** `cudf::gather`: the rows at the given positions, column by column. */
  method Gather(sorted: Table, at: seq<nat>, width: nat) returns (columns: seq<Column>)
    requires Sorted(sorted, Columns(width)) && forall row :: row in sorted ==> |row| == width
    requires Fits(at, |sorted|)
    ensures |columns| == width && forall c :: 0 <= c < width ==> |columns[c]| == |at|
    ensures forall k :: 0 <= k < |at| ==> Needle(columns, k) == sorted[at[k]]
    ensures forall k, l :: 0 <= k < l < |at| ==> KeyLe(Needle(columns, k), Needle(columns, l))
  {
    assert forall k :: 0 <= k < |at| ==> |sorted[at[k]]| == width;
    columns := [];
    var c := 0;
    while c < width
      invariant c <= width && |columns| == c
      invariant forall d :: 0 <= d < c ==> |columns[d]| == |at|
      invariant forall d, k :: 0 <= d < c && 0 <= k < |at| ==> columns[d][k] == sorted[at[k]][d]
    {
      columns := columns + [seq(|at|, k requires 0 <= k < |at| => sorted[at[k]][c])];
      c := c + 1;
    }
    assert forall k :: 0 <= k < |at| ==> Needle(columns, k) == sorted[at[k]];
    forall k, l | 0 <= k < l < |at|
      ensures KeyLe(Needle(columns, k), Needle(columns, l))
    {
      SortedRows(sorted, width, at[k], at[l]);
    }
  }

  lemma SortedRows(sorted: Table, width: nat, a: nat, b: nat)
    requires a <= b < |sorted| && Sorted(sorted, Columns(width)) && |sorted[a]| == |sorted[b]| == width
    ensures KeyLe(sorted[a], sorted[b])
  {
    WholeRowIsKey(sorted[a]);
    WholeRowIsKey(sorted[b]);
    if a < b {
      assert RowLe(sorted[a], sorted[b], Columns(width));
    } else {
      KeyTotal(sorted[a], sorted[a]);
    }
  }

  /** The rows in the order of all their columns. */
  ghost predicate IsSortOf(sorted: Table, rows: Table, width: nat) {
    Sorted(sorted, Columns(width)) && multiset(sorted) == multiset(rows)
  }

  predicate IsRowAt(key: Key, sorted: Table, at: nat) {
    at < |sorted| && key == sorted[at]
  }

  /** The pivots are the rows at every step-th position, the first one excepted. */
  ghost predicate TakenFrom(pivots: seq<Column>, sorted: Table, nodes: nat)
    requires nodes >= 1 && forall c :: 0 <= c < |pivots| ==> |pivots[c]| == nodes - 1
  {
    forall k :: 0 <= k < nodes - 1 ==> IsRowAt(Needle(pivots, k), sorted, (k + 1) * (|sorted| / nodes))
  }

  ghost predicate ArePivots(pivots: seq<Column>, samples: Table, nodes: nat, width: nat) {
    && nodes >= 1 && |pivots| == width && (forall c :: 0 <= c < width ==> |pivots[c]| == nodes - 1)
    && (exists sorted :: IsSortOf(sorted, samples, width) && TakenFrom(pivots, sorted, nodes))
    && (forall k :: 0 <= k < nodes - 1 ==> Needle(pivots, k) in samples)
    && (forall k, l :: 0 <= k < l < nodes - 1 ==> KeyLe(Needle(pivots, k), Needle(pivots, l)))
  }

  lemma PickedAtMap(pivots: seq<Column>, sorted: Table, nodes: nat, gatherMap: seq<nat>)
    requires nodes >= 1 && forall c :: 0 <= c < |pivots| ==> |pivots[c]| == nodes - 1
    requires gatherMap == GatherMap(|sorted| / nodes, nodes - 1)
    requires forall k :: 0 <= k < nodes - 1 ==> IsRowAt(Needle(pivots, k), sorted, gatherMap[k])
    ensures TakenFrom(pivots, sorted, nodes)
  {
    forall k | 0 <= k < nodes - 1
      ensures IsRowAt(Needle(pivots, k), sorted, (k + 1) * (|sorted| / nodes))
    {
      GatherMapAt(|sorted| / nodes, nodes - 1, k);
    }
  }

  /** Every step-th row of the sorted sample. */
  method PickPivots(nodes: nat, sorted: Table, width: nat) returns (pivots: seq<Column>)
    requires nodes >= 1 && |sorted| > 0
    requires Sorted(sorted, Columns(width)) && forall row :: row in sorted ==> |row| == width
    ensures ArePivots(pivots, sorted, nodes, width)
  {
    var gatherMap := GatherMap(|sorted| / nodes, nodes - 1);
    GatherMapFits(|sorted|, nodes);
    pivots := Gather(sorted, gatherMap, width);
    assert forall k :: 0 <= k < nodes - 1 ==> IsRowAt(Needle(pivots, k), sorted, gatherMap[k]);
    PickedAtMap(pivots, sorted, nodes, gatherMap);
    assert IsSortOf(sorted, sorted, width) && TakenFrom(pivots, sorted, nodes);
  }

  lemma SamePivots(pivots: seq<Column>, a: Table, b: Table, nodes: nat, width: nat)
    requires ArePivots(pivots, a, nodes, width) && multiset(a) == multiset(b)
    ensures ArePivots(pivots, b, nodes, width)
  {
    assert forall row :: row in a ==> row in multiset(a);
    var sorted :| IsSortOf(sorted, a, width) && TakenFrom(pivots, sorted, nodes);
    assert IsSortOf(sorted, b, width);
  }

  lemma SameRows(a: Table, b: Table)
    requires multiset(a) == multiset(b)
    ensures |a| == |b| && forall row :: row in a <==> row in b
  {
    assert |a| == |multiset(a)| && |b| == |multiset(b)|;
    assert forall row :: row in a <==> row in multiset(a);
  }

  /** Sorts the samples of all nodes and takes N - 1 of them at equal distances. The source gathers out of
      bounds when there is no sample row at all. */
  method GeneratePartitionPlans(nodes: nat, samples: seq<Table>, width: nat) returns (pivots: seq<Column>)
    requires nodes >= 1 && |Flatten(samples)| > 0
    requires forall row :: row in Flatten(samples) ==> |row| == width
    ensures ArePivots(pivots, Flatten(samples), nodes, width)
  {
    var concatSamples := Concat(samples);
    pivots := SortAndPick(nodes, concatSamples, width);
  }

  method SortAndPick(nodes: nat, samples: Table, width: nat) returns (pivots: seq<Column>)
    requires nodes >= 1 && |samples| > 0 && forall row :: row in samples ==> |row| == width
    ensures ArePivots(pivots, samples, nodes, width)
  {
    var sortedSamples := Sort(samples, Columns(width));
    SameRows(sortedSamples, samples);
    pivots := PickPivots(nodes, sortedSamples, width);
    SamePivots(pivots, sortedSamples, samples, nodes, width);
  }

  // ----- cutting a table ------------------------------------------------------------------------

  /** How many of the indexes are not beyond r. */
  ghost function CountUpTo(indexes: seq<nat>, r: nat): nat {
    if indexes == [] then 0
    else CountUpTo(indexes[..|indexes| - 1], r) + (if indexes[|indexes| - 1] <= r then 1 else 0)
  }

  lemma {:induction false} CountUpToConcat(a: seq<nat>, b: seq<nat>, r: nat)
    ensures CountUpTo(a + b, r) == CountUpTo(a, r) + CountUpTo(b, r)
  {
    if b == [] {
      assert a + b == a;
    } else {
      CountUpToConcat(a, b[..|b| - 1], r);
      assert (a + b)[..|a + b| - 1] == a + b[..|b| - 1];
    }
  }

  lemma CountUpToInserted(low: seq<nat>, x: nat, high: seq<nat>, r: nat)
    ensures CountUpTo(low + [x] + high, r) == CountUpTo(low + high, r) + CountUpTo([x], r)
  {
    CountUpToConcat(low, high, r);
    CountUpToConcat(low, [x], r);
    CountUpToConcat(low + [x], high, r);
  }

  lemma CountsInserted(low: seq<nat>, x: nat, high: seq<nat>)
    ensures forall r :: CountUpTo(low + [x] + high, r) == CountUpTo(low + high, r) + CountUpTo([x], r)
  {
    forall r: nat { CountUpToInserted(low, x, high, r); }
  }

  ghost predicate Ascending(indexes: seq<nat>) {
    forall i, j :: 0 <= i < j < |indexes| ==> indexes[i] <= indexes[j]
  }

  /** In ascending indexes, those up to r come first. */
  lemma {:induction false} AscendingCount(indexes: seq<nat>, r: nat, k: nat)
    requires Ascending(indexes) && k <= |indexes|
    requires (k > 0 ==> indexes[k - 1] <= r) && (k < |indexes| ==> r < indexes[k])
    ensures CountUpTo(indexes, r) == k
  {
    if indexes != [] {
      var rest := indexes[..|indexes| - 1];
      AscendingCount(rest, r, if k == |indexes| then k - 1 else k);
    }
  }

  lemma AscendingInserted(low: seq<nat>, x: nat, high: seq<nat>, bound: nat)
    requires Ascending(low + high) && x <= bound && forall i :: 0 <= i < |low + high| ==> (low + high)[i] <= bound
    requires low != [] ==> low[|low| - 1] <= x
    requires high != [] ==> x < high[0]
    ensures Ascending(low + [x] + high) && forall i :: 0 <= i < |low + [x] + high| ==> (low + [x] + high)[i] <= bound
  {
    var all, out := low + high, low + [x] + high;
    assert forall i :: 0 <= i < |low| ==> out[i] == all[i];
    assert forall i :: |low| < i < |out| ==> out[i] == all[i - 1];
    assert low != [] ==> all[|low| - 1] <= x;
    assert high != [] ==> x < all[|low|];
  }

  method InsertIndex(indexes: seq<nat>, x: nat, ghost bound: nat) returns (out: seq<nat>)
    requires Ascending(indexes) && x <= bound && forall i :: 0 <= i < |indexes| ==> indexes[i] <= bound
    ensures Ascending(out) && |out| == |indexes| + 1 && forall i :: 0 <= i < |out| ==> out[i] <= bound
    ensures forall r :: CountUpTo(out, r) == CountUpTo(indexes, r) + CountUpTo([x], r)
  {
    var at := 0;
    while at < |indexes| && indexes[at] <= x
      invariant at <= |indexes| && (at > 0 ==> indexes[at - 1] <= x)
    {
      at := at + 1;
    }
    var low, high := indexes[..at], indexes[at..];
    out := low + [x] + high;
    assert low + high == indexes;
    AscendingInserted(low, x, high, bound);
    CountsInserted(low, x, high);
  }

  /** `sort_indices` */
  method SortIndices(indexes: seq<nat>, ghost bound: nat) returns (out: seq<nat>)
    requires forall i :: 0 <= i < |indexes| ==> indexes[i] <= bound
    ensures Ascending(out) && |out| == |indexes|
    ensures forall i :: 0 <= i < |out| ==> out[i] <= bound
    ensures forall r :: CountUpTo(out, r) == CountUpTo(indexes, r)
  {
    out := [];
    var i := 0;
    while i < |indexes|
      invariant i <= |indexes| && |out| == i && Ascending(out)
      invariant forall k :: 0 <= k < |out| ==> out[k] <= bound
      invariant forall r :: CountUpTo(out, r) == CountUpTo(indexes[..i], r)
    {
      out := InsertIndex(out, indexes[i], bound);
      forall r: nat
        ensures CountUpTo(out, r) == CountUpTo(indexes[..i + 1], r)
      {
        CountUpToConcat(indexes[..i], [indexes[i]], r);
        assert indexes[..i] + [indexes[i]] == indexes[..i + 1];
      }
      i := i + 1;
    }
    assert indexes[..i] == indexes;
  }

  /** The upper bounds of all pivots (`cudf::upper_bound`), in the order of the pivots. */
  method UpperBounds(table: Table, cols: seq<nat>, pivots: seq<Key>) returns (indexes: seq<nat>)
    requires Sorted(table, cols)
    ensures |indexes| == |pivots| && forall k :: 0 <= k < |indexes| ==> indexes[k] <= |table|
    ensures forall r: nat :: r < |table| ==> CountUpTo(indexes, r) == PartOf(pivots, KeyOf(table[r], cols))
  {
    indexes := [];
    var k := 0;
    while k < |pivots|
      invariant k <= |pivots| && |indexes| == k
      invariant forall i :: 0 <= i < k ==> indexes[i] <= |table|
      invariant forall r: nat :: r < |table| ==> CountUpTo(indexes, r) == PartOf(pivots[..k], KeyOf(table[r], cols))
    {
      var at := UpperBound(table, cols, pivots[k]);
      forall r: nat | r < |table|
        ensures CountUpTo(indexes + [at], r) == PartOf(pivots[..k + 1], KeyOf(table[r], cols))
      {
        assert (indexes + [at])[..k] == indexes && pivots[..k + 1][..k] == pivots[..k];
      }
      indexes := indexes + [at];
      k := k + 1;
    }
    assert pivots[..k] == pivots;
  }

  /** Where the k-th part of a table of that size begins. */
  function Cut(indexes: seq<nat>, size: nat, k: nat): nat {
    if k == 0 then 0 else if k <= |indexes| then indexes[k - 1] else size
  }

  ghost predicate IsPiece(part: Table, table: Table, from: nat, to: nat) {
    from <= to <= |table| && part == table[from..to]
  }

  /** The table cut at ascending positions. */
  ghost predicate IsSplit(parts: seq<Table>, table: Table, indexes: seq<nat>) {
    && |parts| == |indexes| + 1
    && Ascending(indexes) && (forall k :: 0 <= k < |indexes| ==> indexes[k] <= |table|)
    && (forall k :: 0 <= k < |parts| ==>
          IsPiece(parts[k], table, Cut(indexes, |table|, k), Cut(indexes, |table|, k + 1)))
  }

  /** `cudf::split`, one part a node */
  method Split(table: Table, indexes: seq<nat>) returns (parts: seq<Table>)
    requires Ascending(indexes) && forall k :: 0 <= k < |indexes| ==> indexes[k] <= |table|
    ensures IsSplit(parts, table, indexes) && Flatten(parts) == table
  {
    parts := [];
    var size := |table|;
    for k := 0 to |indexes| + 1
      invariant |parts| == k && Cut(indexes, size, k) <= size
      invariant Flatten(parts) == table[..Cut(indexes, size, k)]
      invariant forall l :: 0 <= l < k ==> IsPiece(parts[l], table, Cut(indexes, size, l), Cut(indexes, size, l + 1))
    {
      var from, to := Cut(indexes, size, k), Cut(indexes, size, k + 1);
      FlattenSnoc(parts, table[from..to]);
      assert table[..from] + table[from..to] == table[..to];
      parts := parts + [table[from..to]];
    }
  }

  /** What a range partition is: the parts in order make up the sorted table, and each row is in the part
      its key alone decides. */
  ghost predicate IsRangePartition(parts: seq<Table>, table: Table, cols: seq<nat>, pivots: seq<Key>) {
    && |parts| == |pivots| + 1
    && multiset(Flatten(parts)) == multiset(table)
    && (forall k :: 0 <= k < |parts| ==> Sorted(parts[k], cols))
    && (forall k, row :: 0 <= k < |parts| && row in parts[k] ==> PartOf(pivots, KeyOf(row, cols)) == k)
  }

  lemma PieceSorted(part: Table, table: Table, from: nat, to: nat, cols: seq<nat>)
    requires Sorted(table, cols) && IsPiece(part, table, from, to)
    ensures Sorted(part, cols)
  {
  }

  lemma PieceKeys(part: Table, table: Table, indexes: seq<nat>, k: nat, cols: seq<nat>, pivots: seq<Key>, row: Row)
    requires Ascending(indexes) && k <= |indexes| && row in part
    requires IsPiece(part, table, Cut(indexes, |table|, k), Cut(indexes, |table|, k + 1))
    requires forall r: nat :: r < |table| ==> CountUpTo(indexes, r) == PartOf(pivots, KeyOf(table[r], cols))
    ensures PartOf(pivots, KeyOf(row, cols)) == k
  {
    var i :| 0 <= i < |part| && part[i] == row;
    var r := Cut(indexes, |table|, k) + i;
    assert table[r] == row;
    AscendingCount(indexes, r, k);
  }

  /** Splitting a sorted table at the upper bounds of the pivots partitions it. */
  lemma SplitIsPartition(parts: seq<Table>, table: Table, cols: seq<nat>, pivots: seq<Key>, indexes: seq<nat>)
    requires Sorted(table, cols) && IsSplit(parts, table, indexes) && |indexes| == |pivots| && Flatten(parts) == table
    requires forall r: nat :: r < |table| ==> CountUpTo(indexes, r) == PartOf(pivots, KeyOf(table[r], cols))
    ensures IsRangePartition(parts, table, cols, pivots)
  {
    forall k, row | 0 <= k < |parts| && row in parts[k]
      ensures PartOf(pivots, KeyOf(row, cols)) == k
    {
      PieceKeys(parts[k], table, indexes, k, cols, pivots, row);
    }
    forall k | 0 <= k < |parts|
      ensures Sorted(parts[k], cols)
    {
      PieceSorted(parts[k], table, Cut(indexes, |table|, k), Cut(indexes, |table|, k + 1), cols);
    }
  }

  /** The end of `partitionData`: upper bounds, sorted, and the split. */
  method SplitAtPivots(table: Table, cols: seq<nat>, pivots: seq<Key>) returns (parts: seq<Table>)
    requires Sorted(table, cols)
    ensures IsRangePartition(parts, table, cols, pivots) && Flatten(parts) == table
  {
    var indexes := UpperBounds(table, cols, pivots);
    var sortedIndexes := SortIndices(indexes, |table|);
    parts := Split(table, sortedIndexes);
    SplitIsPartition(parts, table, cols, pivots, sortedIndexes);
  }

  // ----- partitionData --------------------------------------------------------------------------

  datatype PivotError = NoPivots | ColumnMismatch | UnevenPivots | NodeMismatch

  /** The pivots the operators pass: one column per search column, one pivot between two nodes. */
  predicate PivotsFit(nodes: nat, searchColIndices: seq<nat>, pivots: seq<Column>) {
    && nodes >= 1 && pivots != [] && |pivots| == |searchColIndices|
    && forall c :: 0 <= c < |pivots| ==> |pivots[c]| == nodes - 1
  }

  /** The checks at the start of `partitionData`, in their order. */
  method CheckPivots(nodes: nat, searchColIndices: seq<nat>, pivots: seq<Column>) returns (check: Result<nat, PivotError>)
    ensures check.Ok? <==> PivotsFit(nodes, searchColIndices, pivots)
    ensures check.Ok? ==> check.value == nodes - 1
    ensures check == Err(NoPivots) <==> pivots == []
    ensures check == Err(ColumnMismatch) <==> pivots != [] && |pivots| != |searchColIndices|
    ensures check == Err(UnevenPivots) ==> exists c :: 0 <= c < |pivots| && |pivots[c]| != |pivots[0]|
    ensures check == Err(NodeMismatch) ==> forall c :: 0 <= c < |pivots| ==> |pivots[c]| == |pivots[0]| != nodes - 1
  {
    if |pivots| == 0 {
      return Err(NoPivots);
    }
    if |pivots| != |searchColIndices| {
      return Err(ColumnMismatch);
    }
    var size := |pivots[0]|;
    for k := 1 to |pivots|
      invariant forall c :: 0 <= c < k ==> |pivots[c]| == size
    {
      if size != |pivots[k]| {
        return Err(UnevenPivots);
      }
    }
    if nodes != size + 1 {
      return Err(NodeMismatch);
    }
    return Ok(size);
  }

  lemma NothingToPartition(parts: seq<Table>, cols: seq<nat>, pivots: seq<Key>)
    requires |parts| == |pivots| + 1 && forall k :: 0 <= k < |parts| ==> parts[k] == []
    ensures IsRangePartition(parts, [], cols, pivots) && Flatten(parts) == []
  {
    FlattenSize(parts, 0);
  }

  /** `partitionData`. Fails exactly when the pivots do not fit; otherwise the table, sorted first if it is
      not yet, is cut into one part a node. */
  method PartitionData(nodes: nat, table: Table, searchColIndices: seq<nat>, pivots: seq<Column>, isTableSorted: bool)
    returns (partitions: Result<seq<Table>, PivotError>)
    requires HasColumns(table, searchColIndices)
    requires isTableSorted ==> Sorted(table, searchColIndices)
    ensures partitions.Ok? <==> PivotsFit(nodes, searchColIndices, pivots)
    ensures partitions.Ok? ==>
              IsRangePartition(partitions.value, table, searchColIndices, Needles(pivots, nodes - 1))
    ensures partitions.Ok? && isTableSorted ==> Flatten(partitions.value) == table
  {
    var check := CheckPivots(nodes, searchColIndices, pivots);
    if check.Err? {
      return Err(check.error);
    }
    var needles := Needles(pivots, check.value);
    if |table| == 0 {
      var empty := seq(nodes, i => table);
      NothingToPartition(empty, searchColIndices, needles);
      return Ok(empty);
    }
    var sortedTable := table;
    if !isTableSorted {
      sortedTable := Sort(table, searchColIndices);
    }
    var parts := SplitAtPivots(sortedTable, searchColIndices, needles);
    return Ok(parts);
  }
}
