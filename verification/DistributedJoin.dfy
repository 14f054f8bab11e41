/** The inner equijoin over a cluster: hash partitions, two rounds of exchange, and local joins. */
module DistributedJoin {
  import opened Collections
  import opened Tables
  import opened RangePartition
  import opened Exchange
  import opened Shuffle
  import opened JoinCondition

  // ----- the join of two tables -----------------------------------------------------------------

  /** Do the two rows together satisfy every equality? A null is equal to nothing. */
  predicate Matches(l: Row, r: Row, indices: seq<nat>) {
    |indices| < 2
    || (var a, b := CellOf(l + r, indices[0]), CellOf(l + r, indices[1]);
        a.Num? && a == b && Matches(l, r, indices[2..]))
  }

  /** What a condition says of a joined row. */
  predicate Holds(c: Condition, row: Row) {
    match c
    case Equals(a, b) => CellOf(row, a).Num? && CellOf(row, a) == CellOf(row, b)
    case And(l, r) => Holds(l, row) && Holds(r, row)
  }

  /** Matching by the pairs read from a condition is satisfying the condition. */
  lemma {:induction false} MatchesMeans(c: Condition, l: Row, r: Row, rest: seq<nat>)
    ensures Matches(l, r, PairsThen(c, rest)) <==> Holds(c, l + r) && Matches(l, r, rest)
    decreases c
  {
    match c
    case Equals(a, b) =>
      assert (Ordered(a, b) + rest)[2..] == rest;
    case And(x, y) =>
      MatchesMeans(y, l, r, rest);
      MatchesMeans(x, l, r, PairsThen(y, rest));
  }

  function JoinPair(l: Row, r: Row, indices: seq<nat>): multiset<Row> {
    if Matches(l, r, indices) then multiset{l + r} else multiset{}
  }

  /** The rows of the result that come from one left row. */
  ghost function JoinRow(l: Row, right: Table, indices: seq<nat>): multiset<Row> {
    Total(right, PairWith(l, indices))
  }

  ghost function PairWith(l: Row, indices: seq<nat>): Row -> multiset<Row> {
    (r: Row) => JoinPair(l, r, indices)
  }

  /** Every pair of matching rows, side by side. */
  ghost function Joined(left: Table, right: Table, indices: seq<nat>): multiset<Row> {
    Total(left, RowWith(right, indices))
  }

  ghost function RowWith(right: Table, indices: seq<nat>): Row -> multiset<Row> {
    (l: Row) => JoinRow(l, right, indices)
  }

  /** The join as the condition defines it: every pair of rows that together satisfy it, side by side. */
  ghost function JoinWhere(left: Table, right: Table, c: Condition): multiset<Row> {
    Total(left, RowWhere(right, c))
  }

  ghost function RowWhere(right: Table, c: Condition): Row -> multiset<Row> {
    (l: Row) => Total(right, PairWhere(l, c))
  }

  ghost function PairWhere(l: Row, c: Condition): Row -> multiset<Row> {
    (r: Row) => if Holds(c, l + r) then multiset{l + r} else multiset{}
  }

  lemma JoinedIsWhere(left: Table, right: Table, c: Condition)
    ensures Joined(left, right, PairsThen(c, [])) == JoinWhere(left, right, c)
  {
    var indices := PairsThen(c, []);
    forall l: Row
      ensures RowWith(right, indices)(l) == RowWhere(right, c)(l)
    {
      forall r: Row
        ensures PairWith(l, indices)(r) == PairWhere(l, c)(r)
      {
        MatchesMeans(c, l, r, []);
      }
      TotalSame(right, PairWith(l, indices), PairWhere(l, c));
    }
    TotalSame(left, RowWith(right, indices), RowWhere(right, c));
  }

  method InnerJoinRow(l: Row, right: Table, indices: seq<nat>) returns (out: Table)
    ensures multiset(out) == JoinRow(l, right, indices)
  {
    out := [];
    for k := 0 to |right|
      invariant multiset(out) == JoinRow(l, right[..k], indices)
    {
      assert right[..k + 1][..k] == right[..k];
      if Matches(l, right[k], indices) {
        out := out + [l + right[k]];
      }
    }
    assert right[..|right|] == right;
  }

  /** `evaluate_join` and `materialize_column` for an inner join: skipped when a side is empty. */
  method EvaluateJoin(left: Table, right: Table, indices: seq<nat>) returns (out: Table)
    ensures multiset(out) == Joined(left, right, indices)
  {
    out := [];
    if |left| > 0 && |right| > 0 {
      for i := 0 to |left|
        invariant multiset(out) == Joined(left[..i], right, indices)
      {
        assert left[..i + 1][..i] == left[..i];
        var rows := InnerJoinRow(left[i], right, indices);
        out := out + rows;
      }
      assert left[..|left|] == left;
    } else {
      NothingJoined(left, right, indices);
    }
  }

  lemma NothingJoined(left: Table, right: Table, indices: seq<nat>)
    requires left == [] || right == []
    ensures Joined(left, right, indices) == multiset{}
  {
    TotalNothing(left, RowWith(right, indices));
  }

  // ----- the join is bilinear -------------------------------------------------------------------

  lemma JoinedLeft(a: Table, b: Table, right: Table, indices: seq<nat>)
    ensures Joined(a + b, right, indices) == Joined(a, right, indices) + Joined(b, right, indices)
  {
    TotalConcat(a, b, RowWith(right, indices));
  }

  lemma JoinedRight(left: Table, a: Table, b: Table, indices: seq<nat>)
    ensures Joined(left, a + b, indices) == Joined(left, a, indices) + Joined(left, b, indices)
  {
    forall l: Row
      ensures JoinRow(l, a + b, indices) == JoinRow(l, a, indices) + JoinRow(l, b, indices)
    {
      TotalConcat(a, b, PairWith(l, indices));
    }
    TotalAdd(left, RowWith(a, indices), RowWith(b, indices), RowWith(a + b, indices));
  }

  /** The order of the rows on either side does not matter. */
  lemma JoinedInAnyOrder(left: Table, left': Table, right: Table, right': Table, indices: seq<nat>)
    requires multiset(left) == multiset(left') && multiset(right) == multiset(right')
    ensures Joined(left, right, indices) == Joined(left', right', indices)
  {
    TotalInAnyOrder(left, left', RowWith(right, indices));
    forall l: Row
      ensures JoinRow(l, right, indices) == JoinRow(l, right', indices)
    {
      TotalInAnyOrder(right, right', PairWith(l, indices));
    }
    TotalSame(left', RowWith(right, indices), RowWith(right', indices));
  }

  lemma NoMatch(left: Table, right: Table, indices: seq<nat>)
    requires forall l, r :: l in left && r in right ==> !Matches(l, r, indices)
    ensures Joined(left, right, indices) == multiset{}
  {
    forall l | l in left
      ensures JoinRow(l, right, indices) == multiset{}
    {
      TotalNothing(right, PairWith(l, indices));
    }
    TotalNothing(left, RowWith(right, indices));
  }

  lemma {:induction false} OneSide(l: Table, rights: seq<Table>, j: nat, indices: seq<nat>)
    requires forall k :: 0 <= k < |rights| && k != j ==> Joined(l, rights[k], indices) == multiset{}
    ensures Joined(l, Flatten(rights), indices) == if j < |rights| then Joined(l, rights[j], indices) else multiset{}
  {
    if rights == [] {
      NothingJoined(l, [], indices);
    } else {
      var last := |rights| - 1;
      OneSide(l, rights[..last], j, indices);
      JoinedRight(l, Flatten(rights[..last]), rights[last], indices);
    }
  }

  ghost function JoinedAt(lefts: seq<Table>, rights: seq<Table>, indices: seq<nat>): nat -> multiset<Row> {
    (j: nat) => if j < |lefts| && j < |rights| then Joined(lefts[j], rights[j], indices) else multiset{}
  }

  /** If rows match only within the same part, joining part by part is joining everything. */
  lemma {:induction false} JoinByParts(lefts: seq<Table>, rights: seq<Table>, indices: seq<nat>, n: nat)
    requires n <= |lefts| == |rights|
    requires forall j, k :: 0 <= j < |lefts| && 0 <= k < |rights| && j != k ==>
               Joined(lefts[j], rights[k], indices) == multiset{}
    ensures Joined(Flatten(lefts[..n]), Flatten(rights), indices) == Sum(JoinedAt(lefts, rights, indices), n)
  {
    if n > 0 {
      JoinByParts(lefts, rights, indices, n - 1);
      assert lefts[..n][..n - 1] == lefts[..n - 1];
      JoinedLeft(Flatten(lefts[..n - 1]), lefts[n - 1], Flatten(rights), indices);
      OneSide(lefts[n - 1], rights, n - 1, indices);
    }
  }

  // ----- hash partitioning ----------------------------------------------------------------------

  ghost predicate IsHashPartition(parts: seq<Table>, table: Table, cols: seq<nat>, nodes: nat, hash: Key -> nat) {
    && |parts| == nodes > 0
    && multiset(Flatten(parts)) == multiset(table)
    && (forall k, row :: 0 <= k < nodes && row in parts[k] ==> hash(KeyOf(row, cols)) % nodes == k)
  }

  /** The rows of one partition, in their order. */
  function RowsOfPart(table: Table, cols: seq<nat>, nodes: nat, hash: Key -> nat, k: nat): Table
    requires nodes > 0
  {
    if table == [] then []
    else
      var row := table[|table| - 1];
      RowsOfPart(table[..|table| - 1], cols, nodes, hash, k)
      + (if hash(KeyOf(row, cols)) % nodes == k then [row] else [])
  }

  /** `gdf_hash_partition`: the rows partition by partition, and where each begins. */
  method HashPartition(table: Table, cols: seq<nat>, nodes: nat, hash: Key -> nat)
    returns (out: Table, partitionOffset: seq<nat>, ghost parts: seq<Table>)
    requires nodes > 0
    ensures |parts| == |partitionOffset| == nodes && partitionOffset[0] == 0 && out == Flatten(parts)
    ensures forall k :: 0 <= k < nodes ==> parts[k] == RowsOfPart(table, cols, nodes, hash, k)
    ensures forall k :: 0 <= k < nodes ==> partitionOffset[k] == |Flatten(parts[..k])|
  {
    out, partitionOffset, parts := [], [], [];
    for k := 0 to nodes
      invariant |parts| == |partitionOffset| == k && out == Flatten(parts)
      invariant k > 0 ==> partitionOffset[0] == 0
      invariant forall i :: 0 <= i < k ==> parts[i] == RowsOfPart(table, cols, nodes, hash, i)
      invariant forall i :: 0 <= i < k ==> partitionOffset[i] == |Flatten(parts[..i])|
    {
      var rows := PartRows(table, cols, nodes, hash, k);
      FlattenSnoc(parts, rows);
      assert forall i :: 0 <= i < k ==> (parts + [rows])[..i] == parts[..i];
      assert (parts + [rows])[..k] == parts;
      partitionOffset := partitionOffset + [|out|];
      out := out + rows;
      parts := parts + [rows];
    }
  }

  method PartRows(table: Table, cols: seq<nat>, nodes: nat, hash: Key -> nat, k: nat) returns (rows: Table)
    requires nodes > 0
    ensures rows == RowsOfPart(table, cols, nodes, hash, k)
  {
    rows := [];
    for i := 0 to |table|
      invariant rows == RowsOfPart(table[..i], cols, nodes, hash, k)
    {
      assert table[..i + 1][..i] == table[..i];
      if hash(KeyOf(table[i], cols)) % nodes == k {
        rows := rows + [table[i]];
      }
    }
    assert table[..|table|] == table;
  }

  ghost function PartRowsAt(table: Table, cols: seq<nat>, nodes: nat, hash: Key -> nat): nat -> multiset<Row>
    requires nodes > 0
  {
    (k: nat) => multiset(RowsOfPart(table, cols, nodes, hash, k))
  }

  lemma {:induction false} PartsAddUp(table: Table, cols: seq<nat>, nodes: nat, hash: Key -> nat)
    requires nodes > 0
    ensures Sum(PartRowsAt(table, cols, nodes, hash), nodes) == multiset(table)
  {
    if table == [] {
      SumNothing(PartRowsAt(table, cols, nodes, hash), nodes);
    } else {
      var rest, row := table[..|table| - 1], table[|table| - 1];
      PartsAddUp(rest, cols, nodes, hash);
      SumOneMore(PartRowsAt(rest, cols, nodes, hash), PartRowsAt(table, cols, nodes, hash),
                 hash(KeyOf(row, cols)) % nodes, nodes, multiset{row});
      assert table == rest + [row];
    }
  }

  lemma {:induction false} RowsOfPartHash(table: Table, cols: seq<nat>, nodes: nat, hash: Key -> nat, k: nat, row: Row)
    requires nodes > 0 && row in RowsOfPart(table, cols, nodes, hash, k)
    ensures hash(KeyOf(row, cols)) % nodes == k
  {
    var last := table[|table| - 1];
    if !(hash(KeyOf(last, cols)) % nodes == k && row == last) {
      RowsOfPartHash(table[..|table| - 1], cols, nodes, hash, k, row);
    }
  }

  lemma RowsOfPartsPartition(parts: seq<Table>, table: Table, cols: seq<nat>, nodes: nat, hash: Key -> nat)
    requires |parts| == nodes > 0
    requires forall k :: 0 <= k < nodes ==> parts[k] == RowsOfPart(table, cols, nodes, hash, k)
    ensures IsHashPartition(parts, table, cols, nodes, hash)
  {
    PartsAddUp(table, cols, nodes, hash);
    FlattenIsSum(parts, PartRowsAt(table, cols, nodes, hash));
    forall k, row | 0 <= k < nodes && row in parts[k]
      ensures hash(KeyOf(row, cols)) % nodes == k
    {
      RowsOfPartHash(table, cols, nodes, hash, k, row);
    }
  }

  lemma {:induction false} FlattenSlice<T>(ss: seq<seq<T>>, k: nat)
    requires k < |ss|
    ensures |Flatten(ss[..k])| + |ss[k]| == |Flatten(ss[..k + 1])| <= |Flatten(ss)|
    ensures Flatten(ss)[|Flatten(ss[..k])|..|Flatten(ss[..k + 1])|] == ss[k]
  {
    assert ss[..k + 1] == ss[..k] + [ss[k]];
    FlattenSnoc(ss[..k], ss[k]);
    if k == |ss| - 1 {
      assert ss[..k + 1] == ss;
    } else {
      var init := ss[..|ss| - 1];
      FlattenSlice(init, k);
      assert init[..k] == ss[..k] && init[..k + 1] == ss[..k + 1];
    }
  }

  lemma SplitAtOffsets(parts: seq<Table>, split: seq<Table>, offsets: seq<nat>)
    requires |parts| == |offsets| > 0
    requires forall k :: 0 <= k < |parts| ==> offsets[k] == |Flatten(parts[..k])|
    requires IsSplit(split, Flatten(parts), offsets[1..])
    ensures split == parts
  {
    var indexes, size := offsets[1..], |Flatten(parts)|;
    assert parts[..|parts|] == parts && parts[..0] == [];
    forall k | 0 <= k < |parts|
      ensures split[k] == parts[k]
    {
      FlattenSlice(parts, k);
      assert IsPiece(split[k], Flatten(parts), Cut(indexes, size, k), Cut(indexes, size, k + 1));
    }
  }

  lemma OffsetsAscend(parts: seq<Table>, offsets: seq<nat>)
    requires |parts| == |offsets| > 0
    requires forall k :: 0 <= k < |parts| ==> offsets[k] == |Flatten(parts[..k])|
    ensures Ascending(offsets[1..]) && forall k :: 0 <= k < |offsets| ==> offsets[k] <= |Flatten(parts)|
  {
    forall k | 0 <= k < |offsets|
      ensures offsets[k] <= |Flatten(parts)|
    {
      FlattenSlice(parts, k);
    }
    forall i, j | 0 <= i < j < |offsets|
      ensures offsets[i] <= offsets[j]
    {
      OffsetsGrow(parts, i, j);
    }
  }

  lemma {:induction false} OffsetsGrow(parts: seq<Table>, i: nat, j: nat)
    requires i <= j <= |parts|
    ensures |Flatten(parts[..i])| <= |Flatten(parts[..j])|
  {
    if i < j {
      OffsetsGrow(parts, i, j - 1);
      FlattenSlice(parts, j - 1);
    }
  }

  /** `generateJoinPartitions` */
  method GenerateJoinPartitions(nodes: nat, table: Table, columnIndices: seq<nat>, hash: Key -> nat)
    returns (partitions: seq<Table>)
    requires nodes > 0 && HasColumns(table, columnIndices)
    ensures IsHashPartition(partitions, table, columnIndices, nodes, hash)
  {
    if |table| == 0 {
      partitions := seq(nodes, i => table);
      FlattenSize(partitions, 0);
      return;
    }
    var outputTable, partitionOffset, parts := HashPartition(table, columnIndices, nodes, hash);
    OffsetsAscend(parts, partitionOffset);
    partitions := Split(outputTable, partitionOffset[1..]);
    SplitAtOffsets(parts, partitions, partitionOffset);
    RowsOfPartsPartition(parts, table, columnIndices, nodes, hash);
  }

  // ----- the distributed join -------------------------------------------------------------------

  /** Matching rows have equal keys, each side taken from its own table. */
  lemma {:induction false} MatchSameKey(l: Row, r: Row, indices: seq<nat>, width: nat)
    requires Crossing(indices, width) && InFrame(indices, width + |r|) && |l| == width && Matches(l, r, indices)
    ensures KeyOf(l, Firsts(indices)) == KeyOf(r, Seconds(indices, width))
  {
    if |indices| >= 2 {
      CrossingRest(indices, width);
      FrameRest(indices, width + |r|);
      MatchSameKey(l, r, indices[2..], width);
      var a, b := indices[0], indices[1] - width;
      assert l[a] == (l + r)[indices[0]] && r[b] == (l + r)[indices[1]];
      assert KeyOf(l, Firsts(indices)) == [l[a]] + KeyOf(l, Firsts(indices[2..]));
      assert KeyOf(r, Seconds(indices, width)) == [r[b]] + KeyOf(r, Seconds(indices[2..], width));
    }
  }

  /** One side of the join: the nodes' tables, and what each cut out for each. */
  ghost predicate IsSide(q: Query<Table>, r: nat, tables: seq<Table>, parts: seq<seq<Table>>, cols: seq<nat>, width: nat,
                         hash: Key -> nat) {
    && |tables| == |parts| == q.size && Carries(q, r, parts)
    && (forall i :: 0 <= i < q.size ==> IsHashPartition(parts[i], tables[i], cols, q.size, hash))
    && (forall i, row :: 0 <= i < q.size && row in tables[i] ==> |row| == width)
  }

  /** `concat_columns`: a node's own part, then the parts it collected. */
  ghost function Gathered(q: Query<Table>, n: Node<Table>, r: nat, j: nat): Table
    requires r < |n.done|
  {
    q.part(r, j, j) + Flatten(Payloads(n.done[r]))
  }

  ghost function GatheredAll(q: Query<Table>, nodes: seq<Node<Table>>, r: nat): (all: seq<Table>)
    requires |nodes| == q.size && forall j :: 0 <= j < q.size ==> r < |nodes[j].done|
    ensures |all| == q.size && forall j :: 0 <= j < q.size ==> all[j] == Gathered(q, nodes[j], r, j)
  {
    seq(q.size, j requires 0 <= j < q.size => Gathered(q, nodes[j], r, j))
  }

  ghost predicate RoundDelivered(q: Query<Table>, nodes: seq<Node<Table>>, r: nat) {
    && |nodes| == q.size
    && forall j :: 0 <= j < q.size ==>
         r < |nodes[j].done| && multiset(nodes[j].done[r]) == Sum(RoundMessages(q, r, j), q.size)
  }

  lemma GatheredRows(q: Query<Table>, nodes: seq<Node<Table>>, r: nat, j: nat)
    requires RoundDelivered(q, nodes, r) && j < q.size
    ensures multiset(Gathered(q, nodes[j], r, j)) == Sum(AllFor(q, r, j), q.size)
  {
    ShuffleDelivers(q, nodes[j], r, j);
    FlattenSnoc(Payloads(nodes[j].done[r]), q.part(r, j, j));
  }

  /** Together the nodes still hold the whole table. */
  lemma SideKept(q: Query<Table>, nodes: seq<Node<Table>>, r: nat, tables: seq<Table>, parts: seq<seq<Table>>,
                 cols: seq<nat>, width: nat, hash: Key -> nat)
    requires RoundDelivered(q, nodes, r) && IsSide(q, r, tables, parts, cols, width, hash)
    ensures multiset(Flatten(GatheredAll(q, nodes, r))) == multiset(Flatten(tables))
  {
    forall j: nat | j < q.size
      ensures ByReceiver(q, r)(j) == multiset(GatheredAll(q, nodes, r)[j])
    {
      GatheredRows(q, nodes, r, j);
    }
    FlattenIsSum(GatheredAll(q, nodes, r), ByReceiver(q, r));
    forall i: nat | i < q.size
      ensures BySender(q, r)(i) == multiset(tables[i])
    {
      assert IsHashPartition(parts[i], tables[i], cols, q.size, hash);
      SenderKeeps(q, r, parts[i], i);
    }
    ShuffleConserves(q, r, tables);
  }

  /** Every row a node gathers hashes to the node. */
  lemma SideInPlace(q: Query<Table>, nodes: seq<Node<Table>>, r: nat, tables: seq<Table>, parts: seq<seq<Table>>,
                    cols: seq<nat>, width: nat, hash: Key -> nat, j: nat, row: Row)
    requires RoundDelivered(q, nodes, r) && IsSide(q, r, tables, parts, cols, width, hash)
    requires j < q.size && row in Gathered(q, nodes[j], r, j)
    ensures |row| == width && hash(KeyOf(row, cols)) % q.size == j
  {
    GatheredRows(q, nodes, r, j);
    assert row in multiset(Gathered(q, nodes[j], r, j));
    var i := SumHas(AllFor(q, r, j), q.size, row);
    assert q.part(r, i, j) == parts[i][j] && row in parts[i][j];
    assert IsHashPartition(parts[i], tables[i], cols, q.size, hash);
    FlattenHas(parts[i], row);
    assert row in multiset(Flatten(parts[i]));
    assert row in multiset(tables[i]);
  }

  /** The pieces of a distributed join: two sides, and what each node joined in the end of some run. */
  ghost predicate IsDistributedJoin(q: Query<Table>, nodes: seq<Node<Table>>, lefts: seq<Table>, rights: seq<Table>,
                                    leftParts: seq<seq<Table>>, rightParts: seq<seq<Table>>, outs: seq<Table>,
                                    indices: seq<nat>, width: nat, rightWidth: nat, hash: Key -> nat) {
    && Crossing(indices, width) && InFrame(indices, width + rightWidth)
    && IsSide(q, 0, lefts, leftParts, Local(indices, 0, width), width, hash)
    && IsSide(q, 1, rights, rightParts, Local(indices, width, rightWidth), rightWidth, hash)
    && RoundDelivered(q, nodes, 0) && RoundDelivered(q, nodes, 1) && |outs| == q.size
    && (forall j :: 0 <= j < q.size ==>
          multiset(outs[j]) == Joined(Gathered(q, nodes[j], 0, j), Gathered(q, nodes[j], 1, j), indices))
  }

  /** Rows that different nodes hold do not match. */
  lemma DifferentNodes(q: Query<Table>, nodes: seq<Node<Table>>, lefts: seq<Table>, rights: seq<Table>,
                       leftParts: seq<seq<Table>>, rightParts: seq<seq<Table>>, outs: seq<Table>,
                       indices: seq<nat>, width: nat, rightWidth: nat, hash: Key -> nat, j: nat, k: nat)
    requires IsDistributedJoin(q, nodes, lefts, rights, leftParts, rightParts, outs, indices, width, rightWidth, hash)
    requires j < q.size && k < q.size && j != k
    ensures Joined(Gathered(q, nodes[j], 0, j), Gathered(q, nodes[k], 1, k), indices) == multiset{}
  {
    CrossingAligns(indices, width, rightWidth);
    forall l, r | l in Gathered(q, nodes[j], 0, j) && r in Gathered(q, nodes[k], 1, k)
      ensures !Matches(l, r, indices)
    {
      SideInPlace(q, nodes, 0, lefts, leftParts, Firsts(indices), width, hash, j, l);
      SideInPlace(q, nodes, 1, rights, rightParts, Seconds(indices, width), rightWidth, hash, k, r);
      if Matches(l, r, indices) { MatchSameKey(l, r, indices, width); }
    }
    NoMatch(Gathered(q, nodes[j], 0, j), Gathered(q, nodes[k], 1, k), indices);
  }

  lemma SumOfJoins(lefts: seq<Table>, rights: seq<Table>, outs: seq<Table>, indices: seq<nat>)
    requires |lefts| == |rights| == |outs|
    requires forall j :: 0 <= j < |outs| ==> multiset(outs[j]) == Joined(lefts[j], rights[j], indices)
    ensures multiset(Flatten(outs)) == Sum(JoinedAt(lefts, rights, indices), |outs|)
  {
    FlattenIsSum(outs, JoinedAt(lefts, rights, indices));
  }

  lemma JoinOfNodes(lefts: seq<Table>, rights: seq<Table>, outs: seq<Table>, indices: seq<nat>)
    requires |lefts| == |rights| == |outs|
    requires forall j, k :: 0 <= j < |lefts| && 0 <= k < |rights| && j != k ==>
               Joined(lefts[j], rights[k], indices) == multiset{}
    requires forall j :: 0 <= j < |outs| ==> multiset(outs[j]) == Joined(lefts[j], rights[j], indices)
    ensures multiset(Flatten(outs)) == Joined(Flatten(lefts), Flatten(rights), indices)
  {
    JoinByParts(lefts, rights, indices, |lefts|);
    assert lefts[..|lefts|] == lefts;
    SumOfJoins(lefts, rights, outs, indices);
  }

  /** If every equality crosses the two tables and both rounds were delivered as they should: for every
      table on every node and every hash function, the nodes' results together are the join that one node
      would compute from all rows. */
  lemma DistributedJoinCorrect(q: Query<Table>, nodes: seq<Node<Table>>, lefts: seq<Table>, rights: seq<Table>,
                               leftParts: seq<seq<Table>>, rightParts: seq<seq<Table>>, outs: seq<Table>,
                               indices: seq<nat>, width: nat, rightWidth: nat, hash: Key -> nat)
    requires IsDistributedJoin(q, nodes, lefts, rights, leftParts, rightParts, outs, indices, width, rightWidth, hash)
    ensures multiset(Flatten(outs)) == Joined(Flatten(lefts), Flatten(rights), indices)
  {
    var allLeft, allRight := GatheredAll(q, nodes, 0), GatheredAll(q, nodes, 1);
    forall j, k | 0 <= j < |allLeft| && 0 <= k < |allRight| && j != k
      ensures Joined(allLeft[j], allRight[k], indices) == multiset{}
    {
      DifferentNodes(q, nodes, lefts, rights, leftParts, rightParts, outs, indices, width, rightWidth, hash, j, k);
    }
    JoinOfNodes(allLeft, allRight, outs, indices);
    SideKept(q, nodes, 0, lefts, leftParts, Local(indices, 0, width), width, hash);
    SideKept(q, nodes, 1, rights, rightParts, Local(indices, width, rightWidth), rightWidth, hash);
    JoinedInAnyOrder(Flatten(allLeft), Flatten(lefts), Flatten(allRight), Flatten(rights), indices);
  }

  /** The rounds are delivered as they should in every run in which no node takes a message of another round. */
  lemma RoundsDelivered(q: Query<Table>, states: seq<Net<Table>>, steps: seq<Step<Table>>)
    requires IsRun(q, states, steps) && Finished(q, states[|steps|]) && q.rounds == 2
    requires forall t :: 0 <= t < |steps| ==> Timely(states[t], steps[t])
    ensures RoundDelivered(q, states[|steps|].nodes, 0) && RoundDelivered(q, states[|steps|].nodes, 1)
  {
    RoundsCorrectIff(q, states, steps);
    forall j | 0 <= j < q.size
      ensures RoundsCorrect(q, states[|steps|].nodes[j], j)
    {
    }
  }

  /** The column list the parser reads from the words of a condition. */
  function ParsedIndices(c: Condition): seq<nat> {
    var words := WordsThen(c, []);
    if |Pushed(words, [])| >= 2 * Equalities(words) then PairsFrom(Pushed(words, []), Equalities(words)) else []
  }

  /** What the nodes of a join have done in a run of two rounds: each cut up its two tables by the local
      column lists of the parsed condition, and joined in the end what it held of either. */
  ghost predicate JoinRun(q: Query<Table>, states: seq<Net<Table>>, steps: seq<Step<Table>>, c: Condition,
                          lefts: seq<Table>, rights: seq<Table>, leftParts: seq<seq<Table>>,
                          rightParts: seq<seq<Table>>, outs: seq<Table>, width: nat, rightWidth: nat,
                          hash: Key -> nat) {
    var indices := ParsedIndices(c);
    && IsRun(q, states, steps) && Finished(q, states[|steps|]) && q.rounds == 2 && |outs| == q.size
    && IsSide(q, 0, lefts, leftParts, Local(indices, 0, width), width, hash)
    && IsSide(q, 1, rights, rightParts, Local(indices, width, rightWidth), rightWidth, hash)
    && (forall j :: 0 <= j < q.size ==>
          var n := states[|steps|].nodes[j];
          |n.done| == 2 && multiset(outs[j]) == Joined(Gathered(q, n, 0, j), Gathered(q, n, 1, j), indices))
  }

  /** The distributed join is correct. For every condition whose equalities each relate the two tables, all
      tables, any hash function, and every run in which no node takes a message of another round: the nodes'
      results together are the pairs of rows that satisfy the condition, each once. */
  lemma DistributedJoinMeans(q: Query<Table>, states: seq<Net<Table>>, steps: seq<Step<Table>>, c: Condition,
                             lefts: seq<Table>, rights: seq<Table>, leftParts: seq<seq<Table>>,
                             rightParts: seq<seq<Table>>, outs: seq<Table>, width: nat, rightWidth: nat,
                             hash: Key -> nat)
    requires JoinRun(q, states, steps, c, lefts, rights, leftParts, rightParts, outs, width, rightWidth, hash)
    requires Crosses(c, width, rightWidth)
    requires forall t :: 0 <= t < |steps| ==> Timely(states[t], steps[t])
    ensures multiset(Flatten(outs)) == JoinWhere(Flatten(lefts), Flatten(rights), c)
  {
    var nodes, indices := states[|steps|].nodes, ParsedIndices(c);
    ConditionParses(c);
    CrossesIff(c, width, rightWidth);
    RoundsDelivered(q, states, steps);
    DistributedJoinCorrect(q, nodes, lefts, rights, leftParts, rightParts, outs, indices, width, rightWidth, hash);
    JoinedIsWhere(Flatten(lefts), Flatten(rights), c);
  }
}
