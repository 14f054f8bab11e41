/** A whole plan over a cluster: every node evaluates the same lines (src/CalciteInterpreter.cpp), and sort,
    aggregation and join exchange rows. Together the nodes end up with the rows one node would have. */
module DistributedPlan {
  import opened Collections
  import opened Tables
  import opened RangePartition
  import opened Exchange
  import opened GroupBy
  import opened DistributedGroupBy
  import opened DistributedSort
  import opened DistributedJoin
  import MasterCollects
  import JoinCondition
  import PlanTree

  type Condition = JoinCondition.Condition

  /** What the lines of a plan stand for. Filters and projections make some rows out of each row. */
  datatype Operator =
    | RowWise(rowsOf: Row -> Table)
    | OrderBy(sortCols: seq<nat>)
    | Aggregate(groupCols: seq<nat>, aggs: seq<Aggregation>)
    | InnerJoin(condition: Condition, width: nat, rightWidth: nat)
    | UnionAll

  datatype Catalog = Catalog(tableOf: string -> Table, operatorOf: string -> Operator)

  // ----- one node -------------------------------------------------------------------------------

  function Applied(rowsOf: Row -> Table, table: Table): Table {
    if table == [] then [] else Applied(rowsOf, table[..|table| - 1]) + rowsOf(table[|table| - 1])
  }

  ghost predicate SingleOnOne(op: Operator, table: Table, out: Table) {
    match op
    case RowWise(rowsOf) => out == Applied(rowsOf, table)
    case OrderBy(cols) => Merged(out, [table], cols)
    case Aggregate(cols, aggs) => IsAggregation(out, table, cols, aggs)
    case InnerJoin(_, _, _) => false
    case UnionAll => false
  }

  ghost predicate DoubleOnOne(op: Operator, left: Table, right: Table, out: Table) {
    match op
    case InnerJoin(c, _, _) => multiset(out) == JoinWhere(left, right, c)
    case UnionAll => out == left + right
    case _ => false
  }

  // ----- a cluster ------------------------------------------------------------------------------

  ghost predicate OrderRun(q: Query<Table>, states: seq<Net<Table>>, steps: seq<Step<Table>>, pivots: seq<Key>,
                           parts: seq<seq<Table>>, tables: seq<Table>, outs: seq<Table>, cols: seq<nat>) {
    IsDistributedSort(q, states, steps, tables, pivots, parts, outs, cols)
  }

  /** Without aggregates the source groups right only by the leading columns: it uses the columns' numbers on
      the table of the groups, too. */
  ghost predicate GroupRun(q: Query<Table>, states: seq<Net<Table>>, steps: seq<Step<Table>>, locals: seq<Table>,
                           pivots: seq<Key>, parts: seq<seq<Table>>, tables: seq<Table>, outs: seq<Table>,
                           cols: seq<nat>, aggs: seq<Aggregation>) {
    && (aggs == [] ==> cols == Columns(|cols|))
    && IsDistributedGroupBy(q, states, steps, tables, locals, pivots, parts, outs, cols, aggs)
  }

  /** The master has the one row of an aggregation without groups, the others have none. */
  ghost predicate TotalsRun(states: seq<MasterCollects.Gathering<Row>>, steps: seq<MasterCollects.Step<Row>>,
                            master: nat, tables: seq<Table>, outs: seq<Table>, aggs: seq<Aggregation>) {
    var totals := LocalTotals(tables, aggs);
    && MasterCollects.IsRun(states, steps, totals, master) && MasterCollects.Finished(states[|steps|], totals)
    && |outs| == |tables|
    && (forall j :: 0 <= j < |outs| && j != master ==> outs[j] == [])
    && outs[master] == [OutputRow(states[|steps|].got + [totals[master]], [], MergeAggs(aggs, 0), [])]
  }

  /** Some run in which no node takes a message of another round, and equalities that relate the two sides. */
  ghost predicate InnerJoinRun(q: Query<Table>, states: seq<Net<Table>>, steps: seq<Step<Table>>,
                               leftParts: seq<seq<Table>>, rightParts: seq<seq<Table>>, hash: Key -> nat,
                               lefts: seq<Table>, rights: seq<Table>, outs: seq<Table>, c: Condition,
                               width: nat, rightWidth: nat) {
    && JoinRun(q, states, steps, c, lefts, rights, leftParts, rightParts, outs, width, rightWidth, hash)
    && JoinCondition.Crosses(c, width, rightWidth)
    && (forall t :: 0 <= t < |steps| ==> Timely(states[t], steps[t]))
  }

  ghost predicate SingleOnNodes(op: Operator, tables: seq<Table>, outs: seq<Table>) {
    match op
    case RowWise(rowsOf) => |outs| == |tables| && forall j :: 0 <= j < |outs| ==> outs[j] == Applied(rowsOf, tables[j])
    case OrderBy(cols) =>
      exists q, states, steps, pivots, parts :: OrderRun(q, states, steps, pivots, parts, tables, outs, cols)
    case Aggregate(cols, aggs) =>
      if cols == [] then exists states, steps, master :: TotalsRun(states, steps, master, tables, outs, aggs)
      else
        exists q, states, steps, locals, pivots, parts ::
          GroupRun(q, states, steps, locals, pivots, parts, tables, outs, cols, aggs)
    case InnerJoin(_, _, _) => false
    case UnionAll => false
  }

  ghost predicate DoubleOnNodes(op: Operator, lefts: seq<Table>, rights: seq<Table>, outs: seq<Table>) {
    match op
    case InnerJoin(c, width, rightWidth) =>
      exists q, states, steps, leftParts, rightParts, hash ::
        InnerJoinRun(q, states, steps, leftParts, rightParts, hash, lefts, rights, outs, c, width, rightWidth)
    case UnionAll =>
      |outs| == |lefts| == |rights| && forall j :: 0 <= j < |outs| ==> outs[j] == lefts[j] + rights[j]
    case _ => false
  }

  // ----- operator by operator -------------------------------------------------------------------

  /** The nodes together have the rows of the table. */
  ghost predicate Spread(tables: seq<Table>, table: Table) {
    multiset(Flatten(tables)) == multiset(table)
  }

  ghost function RowsOf(rowsOf: Row -> Table): Row -> multiset<Row> {
    (row: Row) => multiset(rowsOf(row))
  }

  lemma {:induction false} AppliedIsTotal(rowsOf: Row -> Table, table: Table)
    ensures multiset(Applied(rowsOf, table)) == Total(table, RowsOf(rowsOf))
  {
    if table != [] { AppliedIsTotal(rowsOf, table[..|table| - 1]); }
  }

  lemma {:induction false} AppliedOnNodes(rowsOf: Row -> Table, tables: seq<Table>, outs: seq<Table>)
    requires |outs| == |tables| && forall j :: 0 <= j < |outs| ==> outs[j] == Applied(rowsOf, tables[j])
    ensures multiset(Flatten(outs)) == Total(Flatten(tables), RowsOf(rowsOf))
  {
    if tables != [] {
      var last := |tables| - 1;
      AppliedOnNodes(rowsOf, tables[..last], outs[..last]);
      AppliedIsTotal(rowsOf, tables[last]);
      TotalConcat(Flatten(tables[..last]), tables[last], RowsOf(rowsOf));
    }
  }

  lemma RowWiseSpread(rowsOf: Row -> Table, tables: seq<Table>, outs: seq<Table>, table: Table)
    requires |outs| == |tables| && forall j :: 0 <= j < |outs| ==> outs[j] == Applied(rowsOf, tables[j])
    requires Spread(tables, table)
    ensures Spread(outs, Applied(rowsOf, table))
  {
    AppliedOnNodes(rowsOf, tables, outs);
    AppliedIsTotal(rowsOf, table);
    TotalInAnyOrder(Flatten(tables), table, RowsOf(rowsOf));
  }

  lemma OneTable(table: Table)
    ensures Flatten([table]) == table
  {
    assert [table][..0] == [];
  }

  lemma OrderSpread(cols: seq<nat>, tables: seq<Table>, outs: seq<Table>, table: Table, out: Table)
    requires SingleOnNodes(OrderBy(cols), tables, outs) && Merged(out, [table], cols) && Spread(tables, table)
    ensures Spread(outs, out) && Sorted(Flatten(outs), cols)
  {
    OneTable(table);
    var q, states, steps, pivots, parts :| OrderRun(q, states, steps, pivots, parts, tables, outs, cols);
    DistributedSortCorrect(q, states, steps, tables, pivots, parts, outs, cols);
  }

  lemma GroupSpread(cols: seq<nat>, aggs: seq<Aggregation>, tables: seq<Table>, outs: seq<Table>, table: Table,
                    out: Table)
    requires cols != [] && SingleOnNodes(Aggregate(cols, aggs), tables, outs)
    requires IsGroupBy(out, table, cols, aggs) && Spread(tables, table)
    ensures Spread(outs, out)
  {
    var q, states, steps, locals, pivots, parts :|
      GroupRun(q, states, steps, locals, pivots, parts, tables, outs, cols, aggs);
    DistributedGroupByCorrect(q, states, steps, tables, locals, pivots, parts, outs, cols, aggs);
    GroupsInAnyOrder(Flatten(tables), table, cols, aggs);
  }

  lemma {:induction false} OnlyMaster(outs: seq<Table>, master: nat)
    requires forall j :: 0 <= j < |outs| && j != master ==> outs[j] == []
    ensures Flatten(outs) == if master < |outs| then outs[master] else []
  {
    if outs != [] { OnlyMaster(outs[..|outs| - 1], master); }
  }

  lemma TotalsInAnyOrder(a: Table, b: Table, aggs: seq<Aggregation>)
    requires multiset(a) == multiset(b)
    ensures OutputRow(a, [], aggs, []) == OutputRow(b, [], aggs, [])
  {
    forall s | 0 <= s < |aggs|
      ensures GroupResult(a, [], [], aggs[s]) == GroupResult(b, [], [], aggs[s])
    {
      ResultInAnyOrder(a, b, [], [], aggs[s]);
    }
  }

  lemma TotalsSpread(aggs: seq<Aggregation>, tables: seq<Table>, outs: seq<Table>, table: Table)
    requires SingleOnNodes(Aggregate([], aggs), tables, outs) && Spread(tables, table)
    ensures Spread(outs, [OutputRow(table, [], aggs, [])])
  {
    var states, steps, master :| TotalsRun(states, steps, master, tables, outs, aggs);
    DistributedTotalsCorrect(tables, aggs, master, states, steps);
    TotalsInAnyOrder(Flatten(tables), table, aggs);
    OnlyMaster(outs, master);
  }

  /** The join depends on its sides as multisets only. */
  lemma JoinWhereInAnyOrder(left: Table, left': Table, right: Table, right': Table, c: Condition)
    requires multiset(left) == multiset(left') && multiset(right) == multiset(right')
    ensures JoinWhere(left, right, c) == JoinWhere(left', right', c)
  {
    JoinedIsWhere(left, right, c);
    JoinedIsWhere(left', right', c);
    JoinedInAnyOrder(left, left', right, right', JoinCondition.PairsThen(c, []));
  }

  lemma JoinSpread(c: Condition, width: nat, rightWidth: nat, lefts: seq<Table>, rights: seq<Table>, outs: seq<Table>,
                   left: Table, right: Table)
    requires DoubleOnNodes(InnerJoin(c, width, rightWidth), lefts, rights, outs)
    requires Spread(lefts, left) && Spread(rights, right)
    ensures multiset(Flatten(outs)) == JoinWhere(left, right, c)
  {
    var q, states, steps, leftParts, rightParts, hash :|
      InnerJoinRun(q, states, steps, leftParts, rightParts, hash, lefts, rights, outs, c, width, rightWidth);
    DistributedJoinMeans(q, states, steps, c, lefts, rights, leftParts, rightParts, outs, width, rightWidth, hash);
    JoinWhereInAnyOrder(Flatten(lefts), left, Flatten(rights), right, c);
  }

  lemma UnionOfTwo(a: Table, b: Table, both: Table, c: Table, d: Table)
    requires multiset(both) == multiset(a) + multiset(b)
    ensures multiset(both + (c + d)) == multiset(a + c) + multiset(b + d)
  {
  }

  lemma FlattenLast(tables: seq<Table>) returns (init: seq<Table>, last: Table)
    requires tables != []
    ensures init == tables[..|tables| - 1] && last == tables[|tables| - 1] && Flatten(tables) == Flatten(init) + last
  {
    init, last := tables[..|tables| - 1], tables[|tables| - 1];
  }

  lemma {:induction false} UnionRows(lefts: seq<Table>, rights: seq<Table>, outs: seq<Table>)
    requires |outs| == |lefts| == |rights| && forall j :: 0 <= j < |outs| ==> outs[j] == lefts[j] + rights[j]
    ensures multiset(Flatten(outs)) == multiset(Flatten(lefts)) + multiset(Flatten(rights))
  {
    if outs != [] {
      var lefts', left := FlattenLast(lefts);
      var rights', right := FlattenLast(rights);
      var outs', out := FlattenLast(outs);
      UnionRows(lefts', rights', outs');
      UnionOfTwo(Flatten(lefts'), Flatten(rights'), Flatten(outs'), left, right);
    }
  }

  lemma SingleSpread(op: Operator, tables: seq<Table>, outs: seq<Table>, table: Table, out: Table)
    requires SingleOnNodes(op, tables, outs) && SingleOnOne(op, table, out) && Spread(tables, table)
    ensures Spread(outs, out)
  {
    match op
    case RowWise(rowsOf) => RowWiseSpread(rowsOf, tables, outs, table);
    case OrderBy(cols) => OrderSpread(cols, tables, outs, table, out);
    case Aggregate(cols, aggs) =>
      if cols == [] { TotalsSpread(aggs, tables, outs, table); } else { GroupSpread(cols, aggs, tables, outs, table, out); }
  }

  lemma DoubleSpread(op: Operator, lefts: seq<Table>, rights: seq<Table>, outs: seq<Table>, left: Table, right: Table,
                     out: Table)
    requires DoubleOnNodes(op, lefts, rights, outs) && DoubleOnOne(op, left, right, out)
    requires Spread(lefts, left) && Spread(rights, right)
    ensures Spread(outs, out)
  {
    match op
    case InnerJoin(c, width, rightWidth) => JoinSpread(c, width, rightWidth, lefts, rights, outs, left, right);
    case UnionAll => UnionRows(lefts, rights, outs);
  }

  // ----- plans ----------------------------------------------------------------------------------

  /** Evaluation on one node: whatever comes out of an operator is what it stands for. */
  ghost predicate OnOne(alg: PlanTree.Algebra<Table>, cat: Catalog) {
    && (forall line, t :: alg.scan(line) == Ok(t) ==> multiset(t) == multiset(cat.tableOf(line)))
    && (forall line, t, out :: alg.single(line, t) == Ok(out) ==> SingleOnOne(cat.operatorOf(line), t, out))
    && (forall line, l, r, out :: alg.double(line, l, r) == Ok(out) ==> DoubleOnOne(cat.operatorOf(line), l, r, out))
  }

  /** Evaluation on the cluster: scanned tables are spread over the nodes, and whatever comes out of an operator
      comes out of some run of its own exchange. (The source's queues do not tell the operators of a query
      apart; see `Exchange.BarrierIsCorrect` for sort and aggregation, `Exchange.AlwaysCorrectIff` for the rest.) */
  ghost predicate OnNodes(alg: PlanTree.Algebra<seq<Table>>, cat: Catalog) {
    && (forall line, ts :: alg.scan(line) == Ok(ts) ==> Spread(ts, cat.tableOf(line)))
    && (forall line, ts, outs :: alg.single(line, ts) == Ok(outs) ==> SingleOnNodes(cat.operatorOf(line), ts, outs))
    && (forall line, ls, rs, outs ::
          alg.double(line, ls, rs) == Ok(outs) ==> DoubleOnNodes(cat.operatorOf(line), ls, rs, outs))
  }

  lemma {:induction false} MeaningSpread(one: PlanTree.Algebra<Table>, nodes: PlanTree.Algebra<seq<Table>>, cat: Catalog,
                                         plan: PlanTree.Plan, depth: nat)
    requires OnOne(one, cat) && OnNodes(nodes, cat)
    requires PlanTree.Meaning(one, plan, depth).Ok? && PlanTree.Meaning(nodes, plan, depth).Ok?
    ensures Spread(PlanTree.Meaning(nodes, plan, depth).value, PlanTree.Meaning(one, plan, depth).value)
    decreases plan
  {
    var out, outs := PlanTree.Meaning(one, plan, depth).value, PlanTree.Meaning(nodes, plan, depth).value;
    match plan
    case Scan(name) =>
      assert one.scan(PlanTree.Line(name, depth)) == Ok(out);
      assert nodes.scan(PlanTree.Line(name, depth)) == Ok(outs);
    case Single(name, child) =>
      MeaningSpread(one, nodes, cat, child, depth + 1);
      var line := PlanTree.Line(name, depth);
      var t, ts := PlanTree.Meaning(one, child, depth + 1).value, PlanTree.Meaning(nodes, child, depth + 1).value;
      assert one.single(line, t) == Ok(out) && nodes.single(line, ts) == Ok(outs);
      SingleSpread(cat.operatorOf(line), ts, outs, t, out);
    case Double(name, left, right) =>
      MeaningSpread(one, nodes, cat, left, depth + 1);
      MeaningSpread(one, nodes, cat, right, depth + 1);
      var line := PlanTree.Line(name, depth);
      var l, ls := PlanTree.Meaning(one, left, depth + 1).value, PlanTree.Meaning(nodes, left, depth + 1).value;
      var r, rs := PlanTree.Meaning(one, right, depth + 1).value, PlanTree.Meaning(nodes, right, depth + 1).value;
      assert one.double(line, l, r) == Ok(out) && nodes.double(line, ls, rs) == Ok(outs);
      DoubleSpread(cat.operatorOf(line), ls, rs, outs, l, r, out);
  }

  /** For the text of every plan: when the evaluator succeeds on one node and on the cluster, and no operator takes
      a message of another's exchange, the nodes together have the rows that the one node has. */
  lemma PlanOnNodes(one: PlanTree.Algebra<Table>, nodes: PlanTree.Algebra<seq<Table>>, cat: Catalog,
                    plan: PlanTree.Plan, depth: nat, out: Table, outs: seq<Table>)
    requires PlanTree.Valid(plan) && OnOne(one, cat) && OnNodes(nodes, cat)
    requires PlanTree.Evaluation(one, PlanTree.Print(plan, depth), depth) == Ok(out)
    requires PlanTree.Evaluation(nodes, PlanTree.Print(plan, depth), depth) == Ok(outs)
    ensures Spread(outs, out)
  {
    PlanTree.EvaluationIsMeaning(one, plan, depth);
    PlanTree.EvaluationIsMeaning(nodes, plan, depth);
    MeaningSpread(one, nodes, cat, plan, depth);
  }

  lemma Child<F>(alg: PlanTree.Algebra<F>, plan: PlanTree.Plan, depth: nat, out: F) returns (frame: F)
    requires PlanTree.Valid(plan) && plan.Single?
    requires PlanTree.Evaluation(alg, PlanTree.Print(plan, depth), depth) == Ok(out)
    ensures PlanTree.Meaning(alg, plan.child, depth + 1) == Ok(frame)
    ensures alg.single(PlanTree.Line(plan.name, depth), frame) == Ok(out)
  {
    PlanTree.EvaluationIsMeaning(alg, plan, depth);
    frame := PlanTree.Meaning(alg, plan.child, depth + 1).value;
  }

  /** And when the plan ends with a sort, the nodes' results in node order have the keys in the same order. */
  lemma SortedPlanOnNodes(one: PlanTree.Algebra<Table>, nodes: PlanTree.Algebra<seq<Table>>, cat: Catalog,
                          plan: PlanTree.Plan, depth: nat, out: Table, outs: seq<Table>, cols: seq<nat>)
    requires PlanTree.Valid(plan) && OnOne(one, cat) && OnNodes(nodes, cat)
    requires plan.Single? && cat.operatorOf(PlanTree.Line(plan.name, depth)) == OrderBy(cols)
    requires PlanTree.Evaluation(one, PlanTree.Print(plan, depth), depth) == Ok(out)
    requires PlanTree.Evaluation(nodes, PlanTree.Print(plan, depth), depth) == Ok(outs)
    ensures Spread(outs, out) && Keys(Flatten(outs), cols) == Keys(out, cols)
    ensures RowsAscend(Flatten(outs), cols) && RowsAscend(out, cols)
  {
    var t := Child(one, plan, depth, out);
    var ts := Child(nodes, plan, depth, outs);
    MeaningSpread(one, nodes, cat, plan.child, depth + 1);
    SortedOnNodes(one, nodes, cat, PlanTree.Line(plan.name, depth), t, ts, out, outs, cols);
  }

  lemma SortedOnNodes(one: PlanTree.Algebra<Table>, nodes: PlanTree.Algebra<seq<Table>>, cat: Catalog, line: string,
                      t: Table, ts: seq<Table>, out: Table, outs: seq<Table>, cols: seq<nat>)
    requires OnOne(one, cat) && OnNodes(nodes, cat) && cat.operatorOf(line) == OrderBy(cols) && Spread(ts, t)
    requires one.single(line, t) == Ok(out) && nodes.single(line, ts) == Ok(outs)
    ensures Spread(outs, out) && Keys(Flatten(outs), cols) == Keys(out, cols)
    ensures RowsAscend(Flatten(outs), cols) && RowsAscend(out, cols)
  {
    assert SingleOnOne(OrderBy(cols), t, out) && SingleOnNodes(OrderBy(cols), ts, outs);
    OrderSpread(cols, ts, outs, t, out);
    SortedAscends(Flatten(outs), cols);
    SortedAscends(out, cols);
    SortedAsOnOneNode(Flatten(outs), out, cols);
  }
}
