/** A projection of many expressions: used columns only, and one register file for all of them. */
module Projection {
  import opened CalciteExpression
  import opened RegisterMachine
  import opened LogicalFilter
  import opened ExpressionCompiler
  import opened RegisterUse

  /** A projected expression is either computed or a column handed on. */
  datatype ProjectItem = Evaluated(e: Expr) | Direct(index: nat)

  datatype OutputColumn = Computed(k: nat) | Copied(index: nat)

  datatype ProjectPlan = ProjectPlan(
    inputColumns: seq<nat>,
    newColumnIndices: seq<int>,
    finalOutputPositions: seq<int>,
    plan: Plan,
    columns: seq<OutputColumn>)

  // ----- which columns are used -----------------------------------------------------------------

  predicate Mentions(e: Expr, c: nat) {
    match e
    case Column(i) => i == c
    case Literal(_) => false
    case Unary(_, a) => Mentions(a, c)
    case Binary(_, l, r) => Mentions(l, c) || Mentions(r, c)
  }

  lemma {:induction false} TokensMention(e: Expr, rest: seq<Token>, c: nat)
    ensures ColumnToken(c) in TokensThen(e, rest) <==> Mentions(e, c) || ColumnToken(c) in rest
    decreases e
  {
    match e
    case Unary(op, a) => TokensMention(a, [UnaryToken(op)] + rest, c);
    case Binary(op, l, r) =>
      TokensMention(r, TokensThen(l, [BinaryToken(op)] + rest), c);
      TokensMention(l, [BinaryToken(op)] + rest, c);
    case _ =>
  }

  lemma {:induction false} MentionsBelow(e: Expr, width: nat, c: nat)
    requires ColumnsBelow(e, width) && Mentions(e, c)
    ensures c < width
  {
    match e
    case Unary(_, a) => MentionsBelow(a, width, c);
    case Binary(_, l, r) => if Mentions(l, c) { MentionsBelow(l, width, c); } else { MentionsBelow(r, width, c); }
    case _ =>
  }

  /** The expressions that are computed, in order. */
  function Expressions(items: seq<ProjectItem>): seq<Expr> {
    if items == [] then []
    else Expressions(items[..|items| - 1]) +
         (match items[|items| - 1] case Evaluated(e) => [e] case Direct(_) => [])
  }

  predicate ItemsFit(items: seq<ProjectItem>, width: nat) {
    forall i :: 0 <= i < |items| ==>
      match items[i]
      case Evaluated(e) => e.IsOperator() && ColumnsBelow(e, width)
      case Direct(c) => c < width
  }

  predicate UsedBy(items: seq<ProjectItem>, c: nat) {
    exists i :: 0 <= i < |items| && items[i].Evaluated? && Mentions(items[i].e, c)
  }

  function Count(used: seq<bool>): nat {
    if used == [] then 0 else Count(used[..|used| - 1]) + (if used[|used| - 1] then 1 else 0)
  }

  function Marks(items: seq<ProjectItem>, width: nat): (m: seq<bool>)
    ensures |m| == width && forall c :: 0 <= c < width ==> m[c] == UsedBy(items, c)
  {
    seq(width, c requires 0 <= c < width => UsedBy(items, c))
  }

  /** Marks the columns the computed expressions mention. */
  method MarkUsed(items: seq<ProjectItem>, width: nat) returns (used: seq<bool>)
    requires ItemsFit(items, width)
    ensures used == Marks(items, width)
  {
    used := seq(width, _ => false);
    for i := 0 to |items|
      invariant |used| == width
      invariant forall c :: 0 <= c < width ==> used[c] == UsedBy(items[..i], c)
    {
      ghost var before := used;
      if items[i].Evaluated? {
        var tokens := ReverseTokens(items[i].e);
        for j := 0 to |tokens|
          invariant |used| == width
          invariant forall c :: 0 <= c < width ==> used[c] == (before[c] || ColumnToken(c) in tokens[..j])
        {
          assert tokens[..j + 1] == tokens[..j] + [tokens[j]];
          if tokens[j].ColumnToken? {
            var index := tokens[j].index;
            assert ColumnToken(index) in tokens;
            TokensMention(items[i].e, [], index);
            MentionsBelow(items[i].e, width, index);
            used := used[index := true];
          }
        }
        assert tokens[..|tokens|] == tokens;
      }
      forall c | 0 <= c < width
        ensures used[c] == UsedBy(items[..i + 1], c)
      {
        if items[i].Evaluated? { TokensMention(items[i].e, [], c); }
        UsedBySnoc(items[..i], items[i], c);
        assert items[..i + 1] == items[..i] + [items[i]];
      }
    }
    assert items[..|items|] == items;
  }

  lemma UsedBySnoc(items: seq<ProjectItem>, item: ProjectItem, c: nat)
    ensures UsedBy(items + [item], c) <==> UsedBy(items, c) || (item.Evaluated? && Mentions(item.e, c))
  {
    var all := items + [item];
    if UsedBy(items, c) {
      var i :| 0 <= i < |items| && items[i].Evaluated? && Mentions(items[i].e, c);
      assert all[i] == items[i];
    }
    if item.Evaluated? && Mentions(item.e, c) {
      assert all[|items|] == item;
    }
  }

  // ----- compaction -----------------------------------------------------------------------------

  /** An order-preserving bijection between the used columns and 0 .. |inputColumns|; -1 elsewhere. */
  ghost predicate Compacts(used: seq<bool>, indices: seq<int>, inputColumns: seq<nat>) {
    && |indices| == |used| && |inputColumns| == Count(used)
    && (forall c :: 0 <= c < |used| ==>
          if used[c] then 0 <= indices[c] < |inputColumns| && inputColumns[indices[c]] == c else indices[c] == -1)
    && (forall p :: 0 <= p < |inputColumns| ==>
          inputColumns[p] < |used| && used[inputColumns[p]] && indices[inputColumns[p]] == p)
    && (forall p, q :: 0 <= p < q < |inputColumns| ==> inputColumns[p] < inputColumns[q])
  }

  lemma CompactsUsed(used: seq<bool>, indices: seq<int>, inputColumns: seq<nat>)
    requires Compacts(used, indices, inputColumns)
    ensures Compacts(used + [true], indices + [|inputColumns|], inputColumns + [|used|])
  {
    assert (used + [true])[..|used|] == used;
  }

  lemma CompactsUnused(used: seq<bool>, indices: seq<int>, inputColumns: seq<nat>)
    requires Compacts(used, indices, inputColumns)
    ensures Compacts(used + [false], indices + [-1], inputColumns)
  {
    assert (used + [false])[..|used|] == used;
  }

  method CompactColumns(used: seq<bool>) returns (newColumnIndices: seq<int>, inputColumns: seq<nat>)
    ensures Compacts(used, newColumnIndices, inputColumns)
  {
    newColumnIndices, inputColumns := [], [];
    for i := 0 to |used|
      invariant Compacts(used[..i], newColumnIndices, inputColumns)
    {
      assert used[..i + 1] == used[..i] + [used[i]];
      if used[i] {
        CompactsUsed(used[..i], newColumnIndices, inputColumns);
        newColumnIndices := newColumnIndices + [|inputColumns|];
        inputColumns := inputColumns + [i];
      } else {
        CompactsUnused(used[..i], newColumnIndices, inputColumns);
        newColumnIndices := newColumnIndices + [-1];
      }
    }
    assert used[..|used|] == used;
  }

  // ----- the whole program ----------------------------------------------------------------------

  predicate AllBelow(es: seq<Expr>, width: nat) {
    forall i :: 0 <= i < |es| ==> ColumnsBelow(es[i], width)
  }

  /** The programs of the expressions, one after the other. */
  function CompileAll(es: seq<Expr>, start: nat, numInputs: nat, indices: seq<int>): Plan
    requires AllBelow(es, |indices|)
  {
    if es == [] then EMPTY_PLAN
    else
      var n := |es| - 1;
      Append(CompileAll(es[..n], start, numInputs, indices), Compile(es[n], start, 0, numInputs + n, indices))
  }

  lemma CompileAllSnoc(es: seq<Expr>, e: Expr, start: nat, numInputs: nat, indices: seq<int>)
    requires AllBelow(es, |indices|) && ColumnsBelow(e, |indices|)
    ensures AllBelow(es + [e], |indices|)
    ensures CompileAll(es + [e], start, numInputs, indices)
            == Append(CompileAll(es, start, numInputs, indices), Compile(e, start, 0, numInputs + |es|, indices))
  {
    assert (es + [e])[..|es|] == es;
  }

  lemma ExpressionsFit(items: seq<ProjectItem>, width: nat)
    requires ItemsFit(items, width)
    ensures forall i :: 0 <= i < |Expressions(items)| ==>
              Expressions(items)[i].IsOperator() && ColumnsBelow(Expressions(items)[i], width)
  {
    if items != [] {
      ExpressionsFit(items[..|items| - 1], width);
    }
  }

  /** Where the k-th item's values come from. */
  function ColumnFor(items: seq<ProjectItem>, k: nat): OutputColumn
    requires k < |items|
  {
    match items[k]
    case Evaluated(_) => Computed(|Expressions(items[..k])|)
    case Direct(c) => Copied(c)
  }

  method EmitExpression(e: Expr, position: nat, numOutputs: nat, numInputs: nat, indices: seq<int>, vectors: PlanVectors)
    requires e.IsOperator() && ColumnsBelow(e, |indices|) && Indices(indices, numInputs + numOutputs)
    requires numInputs + numOutputs <= PROCESSING_SPACES
    modifies vectors
    ensures vectors.View()
            == Append(old(vectors.View()), Compile(e, numInputs + numOutputs, 0, numInputs + position, indices))
  {
    PlanIsCompiled(e, vectors.View(), numInputs + numOutputs, position + numInputs, indices);
    AddExpressionToPlan(ReverseTokens(e), position, numOutputs, numInputs, indices, vectors);
  }

  lemma ExpressionsStep(items: seq<ProjectItem>, i: nat, width: nat)
    requires i < |items| && ItemsFit(items, width)
    ensures Expressions(items[..i + 1])
            == Expressions(items[..i]) + (match items[i] case Evaluated(e) => [e] case Direct(_) => [])
    ensures items[i].Evaluated? ==> items[i].e.IsOperator() && ColumnsBelow(items[i].e, width)
  {
    assert items[..i + 1][..i] == items[..i];
  }

  /** The plan and the number of expressions after one more item. */
  function Emitted(item: ProjectItem, plan: Plan, count: nat, start: nat, numInputs: nat, indices: seq<int>): Plan
    requires item.Evaluated? ==> ColumnsBelow(item.e, |indices|)
  {
    match item
    case Evaluated(e) => Append(plan, Compile(e, start, 0, numInputs + count, indices))
    case Direct(_) => plan
  }

  /** The body of the loop over the expressions. */
  method EmitItem(item: ProjectItem, cur: nat, numOutputs: nat, numInputs: nat, indices: seq<int>, vectors: PlanVectors)
    returns (column: OutputColumn, next: nat)
    requires item.Evaluated? ==> item.e.IsOperator() && ColumnsBelow(item.e, |indices|)
    requires Indices(indices, numInputs + numOutputs) && numInputs + numOutputs <= PROCESSING_SPACES
    modifies vectors
    ensures vectors.View() == Emitted(item, old(vectors.View()), cur, numInputs + numOutputs, numInputs, indices)
    ensures next == (if item.Evaluated? then cur + 1 else cur)
    ensures column == (if item.Evaluated? then Computed(cur) else Copied(item.index))
  {
    if item.Evaluated? {
      EmitExpression(item.e, cur, numOutputs, numInputs, indices, vectors);
      column, next := Computed(cur), cur + 1;
    } else {
      column, next := Copied(item.index), cur;
    }
  }

  lemma EmittedStep(items: seq<ProjectItem>, i: nat, start: nat, numInputs: nat, indices: seq<int>)
    requires i < |items| && ItemsFit(items, |indices|) && AllBelow(Expressions(items[..i]), |indices|)
    ensures var es := Expressions(items[..i]);
            && AllBelow(Expressions(items[..i + 1]), |indices|)
            && |Expressions(items[..i + 1])| == (if items[i].Evaluated? then |es| + 1 else |es|)
            && (items[i].Evaluated? ==> items[i].e.IsOperator() && ColumnsBelow(items[i].e, |indices|))
            && CompileAll(Expressions(items[..i + 1]), start, numInputs, indices)
               == Emitted(items[i], CompileAll(es, start, numInputs, indices), |es|, start, numInputs, indices)
  {
    ExpressionsStep(items, i, |indices|);
    if items[i].Evaluated? {
      CompileAllSnoc(Expressions(items[..i]), items[i].e, start, numInputs, indices);
    } else {
      assert Expressions(items[..i]) + [] == Expressions(items[..i]);
    }
  }

  /** Emits the code of the computed expressions and says where every output column comes from. */
  method EmitExpressions(items: seq<ProjectItem>, numOutputs: nat, numInputs: nat, indices: seq<int>, vectors: PlanVectors)
    returns (columns: seq<OutputColumn>)
    requires ItemsFit(items, |indices|) && Indices(indices, numInputs + numOutputs)
    requires numInputs + numOutputs <= PROCESSING_SPACES && vectors.View() == EMPTY_PLAN
    modifies vectors
    ensures AllBelow(Expressions(items), |indices|)
    ensures vectors.View() == CompileAll(Expressions(items), numInputs + numOutputs, numInputs, indices)
    ensures |columns| == |items| && forall k :: 0 <= k < |items| ==> columns[k] == ColumnFor(items, k)
  {
    columns := [];
    var curExpressionOut := 0;
    assert items[..0] == [];
    for i := 0 to |items|
      invariant curExpressionOut == |Expressions(items[..i])|
      invariant AllBelow(Expressions(items[..i]), |indices|)
      invariant vectors.View() == CompileAll(Expressions(items[..i]), numInputs + numOutputs, numInputs, indices)
      invariant |columns| == i && forall k :: 0 <= k < i ==> columns[k] == ColumnFor(items, k)
    {
      EmittedStep(items, i, numInputs + numOutputs, numInputs, indices);
      var column;
      column, curExpressionOut := EmitItem(items[i], curExpressionOut, numOutputs, numInputs, indices, vectors);
      assert column == ColumnFor(items, i);
      columns := columns + [column];
    }
    assert items[..|items|] == items;
  }

  method CountExpressions(items: seq<ProjectItem>) returns (count: nat)
    ensures count == |Expressions(items)|
  {
    count := 0;
    assert items[..0] == [];
    for i := 0 to |items|
      invariant count == |Expressions(items[..i])|
    {
      assert items[..i + 1][..i] == items[..i];
      if items[i].Evaluated? {
        count := count + 1;
      }
    }
    assert items[..|items|] == items;
  }

  /** What `parse_project_plan` produces. */
  ghost predicate PlanFor(width: nat, items: seq<ProjectItem>, p: ProjectPlan) {
    var es, n := Expressions(items), |p.inputColumns|;
    && Compacts(Marks(items, width), p.newColumnIndices, p.inputColumns)
    && AllBelow(es, width)
    && p.finalOutputPositions == seq(|es|, k => n + k)
    && p.plan == CompileAll(es, n + |es|, n, p.newColumnIndices)
    && |p.columns| == |items| && forall k :: 0 <= k < |items| ==> p.columns[k] == ColumnFor(items, k)
  }

  /** `parse_project_plan`. */
  method ParseProjectPlan(width: nat, items: seq<ProjectItem>) returns (p: ProjectPlan)
    requires ItemsFit(items, width)
    requires Count(Marks(items, width)) + |Expressions(items)| <= PROCESSING_SPACES
    ensures PlanFor(width, items, p)
  {
    var used := MarkUsed(items, width);
    var numExpressionsOut := CountExpressions(items);
    var newColumnIndices, inputColumns := CompactColumns(used);
    var finalOutputPositions := EmitPositions(items, |inputColumns|);
    var vectors := new PlanVectors();
    var columns := EmitExpressions(items, numExpressionsOut, |inputColumns|, newColumnIndices, vectors);
    p := ProjectPlan(inputColumns, newColumnIndices, finalOutputPositions, vectors.View(), columns);
  }

  method EmitPositions(items: seq<ProjectItem>, inputColumnsUsed: nat) returns (positions: seq<int>)
    ensures positions == seq(|Expressions(items)|, k => inputColumnsUsed + k)
  {
    positions := [];
    var tempCurOut := 0;
    assert items[..0] == [];
    for i := 0 to |items|
      invariant tempCurOut == |Expressions(items[..i])|
      invariant positions == seq(tempCurOut, k => inputColumnsUsed + k)
    {
      assert items[..i + 1][..i] == items[..i];
      if items[i].Evaluated? {
        positions := positions + [inputColumnsUsed + tempCurOut];
        tempCurOut := tempCurOut + 1;
      }
    }
    assert items[..|items|] == items;
  }

  // ----- what the program computes --------------------------------------------------------------

  ghost predicate LoadedColumns<V>(p: ProjectPlan, row: Row<V>, regs: seq<V>, valid: seq<bool>)
    requires |row.values| == |row.valid|
  {
    && |valid| == |p.inputColumns| <= |regs|
    && forall q :: 0 <= q < |p.inputColumns| ==>
         p.inputColumns[q] < |row.values|
         && regs[q] == row.values[p.inputColumns[q]] && valid[q] == row.valid[p.inputColumns[q]]
  }

  ghost predicate AllProbeColumns<V>(alu: Alu<V>, es: seq<Expr>) {
    forall i :: 0 <= i < |es| ==> ProbesColumnsOnly(alu, es[i])
  }

  ghost predicate AllReady<V>(es: seq<Expr>, start: nat, indices: seq<int>, row: Row<V>, regs: seq<V>, valid: seq<bool>) {
    && AllBelow(es, |indices|) && RowOf(row, |indices|)
    && forall i :: 0 <= i < |es| ==> es[i].IsOperator() && Ready(es[i], start, 0, TempNeed(es[i]), indices, row, regs, valid)
  }

  /** Every expression's value is in its own output register; inputs and later outputs are as before. */
  ghost predicate AllComputed<V>(alu: Alu<V>, es: seq<Expr>, numInputs: nat, start: nat, row: Row<V>, regs: seq<V>, regs': seq<V>)
    requires |row.valid| == |row.values| && AllBelow(es, |row.values|)
  {
    && |regs'| == |regs|
    && numInputs + |es| <= |regs|
    && (forall i :: 0 <= i < |es| ==> regs'[numInputs + i] == Eval(alu, es[i], row))
    && (forall r :: 0 <= r < start && r < |regs| && !(numInputs <= r < numInputs + |es|) ==> regs'[r] == regs[r])
  }

  /** The code of the expressions leaves all their values, or fails on a probe. */
  ghost predicate Programs<V>(
    alu: Alu<V>, es: seq<Expr>, code: seq<Instruction>, start: nat, row: Row<V>, regs: seq<V>, valid: seq<bool>)
    requires |row.valid| == |row.values| && AllBelow(es, |row.values|)
  {
    match Run(alu, code, regs, valid)
    case None => !AllProbeColumns(alu, es)
    case Some(regs') => AllProbeColumns(alu, es) && AllComputed(alu, es, |valid|, start, row, regs, regs')
  }

  lemma LastProgram<V>(
    alu: Alu<V>, es: seq<Expr>, code: seq<Instruction>, start: nat, row: Row<V>, regs: seq<V>, regs1: seq<V>, valid: seq<bool>)
    requires es != [] && |row.valid| == |row.values| && AllBelow(es, |row.values|)
    requires |valid| + |es| <= start && |valid| + |es| <= |regs|
    requires AllBelow(es[..|es| - 1], |row.values|)
    requires AllProbeColumns(alu, es[..|es| - 1])
    requires AllComputed(alu, es[..|es| - 1], |valid|, start, row, regs, regs1)
    requires Computes(alu, es[|es| - 1], code, start, |valid| + |es| - 1, row, regs1, valid)
    ensures match Run(alu, code, regs1, valid)
            case None => !AllProbeColumns(alu, es)
            case Some(regs2) => AllProbeColumns(alu, es) && AllComputed(alu, es, |valid|, start, row, regs, regs2)
  {
    AllProbeSnoc(alu, es);
    match Run(alu, code, regs1, valid)
    case None =>
    case Some(regs2) =>
      var n := |es| - 1;
      forall i | 0 <= i < |es|
        ensures regs2[|valid| + i] == Eval(alu, es[i], row)
      {
        if i < n {
          assert es[i] == es[..n][i];
          assert regs1[|valid| + i] == Eval(alu, es[i], row);
        }
      }
  }

  lemma ProgramsChain<V>(
    alu: Alu<V>, es: seq<Expr>, before: seq<Instruction>, own: seq<Instruction>, start: nat, row: Row<V>, regs: seq<V>, valid: seq<bool>)
    requires es != [] && |row.valid| == |row.values| && AllBelow(es, |row.values|)
    requires AllBelow(es[..|es| - 1], |row.values|)
    requires |valid| + |es| <= start && |valid| + |es| <= |regs|
    requires Programs(alu, es[..|es| - 1], before, start, row, regs, valid)
    requires match Run(alu, before, regs, valid)
             case None => true
             case Some(regs1) => Computes(alu, es[|es| - 1], own, start, |valid| + |es| - 1, row, regs1, valid)
    ensures Programs(alu, es, before + own, start, row, regs, valid)
  {
    RunConcat(alu, before, own, regs, valid);
    AllProbeSnoc(alu, es);
    match Run(alu, before, regs, valid)
    case None =>
    case Some(regs1) => LastProgram(alu, es, own, start, row, regs, regs1, valid);
  }

  lemma AllProbeSnoc<V>(alu: Alu<V>, es: seq<Expr>)
    requires es != []
    ensures AllProbeColumns(alu, es)
            <==> AllProbeColumns(alu, es[..|es| - 1]) && ProbesColumnsOnly(alu, es[|es| - 1])
  {
    if AllProbeColumns(alu, es) {
      assert forall i :: 0 <= i < |es| - 1 ==> es[..|es| - 1][i] == es[i];
    }
    if AllProbeColumns(alu, es[..|es| - 1]) {
      assert forall i :: 0 <= i < |es| - 1 ==> es[i] == es[..|es| - 1][i];
    }
  }

  /** An expression still finds its inputs once other programs have run. */
  lemma StillComputes<V>(
    alu: Alu<V>, e: Expr, start: nat, out: nat, indices: seq<int>, row: Row<V>, regs: seq<V>, regs1: seq<V>, valid: seq<bool>)
    requires e.IsOperator() && Ready(e, start, 0, TempNeed(e), indices, row, regs, valid)
    requires |valid| <= out < |regs| && Keeps(regs, regs1, |valid|, |valid|)
    ensures var own := Compile(e, start, 0, out, indices);
            Aligned(own) && Computes(alu, e, Instructions(own), start, out, row, regs1, valid)
  {
    LoadedKept(e, indices, row, regs, regs1, valid, |valid|, |valid|);
    CompileComputes(alu, e, start, 0, out, indices, row, regs1, valid);
  }

  lemma AlignedSnoc(es: seq<Expr>, before: Plan, start: nat, numInputs: nat, indices: seq<int>)
    requires es != [] && AllBelow(es, |indices|) && Aligned(before) && !HasLiteralOnly(es[|es| - 1])
    requires before == CompileAll(es[..|es| - 1], start, numInputs, indices)
    ensures var own := Compile(es[|es| - 1], start, 0, numInputs + |es| - 1, indices);
            var all := CompileAll(es, start, numInputs, indices);
            Aligned(own) && Aligned(all) && Instructions(all) == Instructions(before) + Instructions(own)
  {
    AlignedIff(es[|es| - 1], before, start, 0, numInputs + |es| - 1, indices);
    AppendInstructions(before, Compile(es[|es| - 1], start, 0, numInputs + |es| - 1, indices));
  }

  lemma OneMore<V>(
    alu: Alu<V>, es: seq<Expr>, before: seq<Instruction>, start: nat, indices: seq<int>, row: Row<V>, regs: seq<V>, valid: seq<bool>)
    requires es != [] && AllReady(es, start, indices, row, regs, valid)
    requires |valid| + |es| <= start && |valid| + |es| <= |regs|
    requires AllBelow(es[..|es| - 1], |row.values|)
    requires Programs(alu, es[..|es| - 1], before, start, row, regs, valid)
    ensures var own := Compile(es[|es| - 1], start, 0, |valid| + |es| - 1, indices);
            Aligned(own) ==> Programs(alu, es, before + Instructions(own), start, row, regs, valid)
  {
    var own := Compile(es[|es| - 1], start, 0, |valid| + |es| - 1, indices);
    match Run(alu, before, regs, valid) {
      case None =>
      case Some(regs1) =>
        StillComputes(alu, es[|es| - 1], start, |valid| + |es| - 1, indices, row, regs, regs1, valid);
    }
    if Aligned(own) {
      ProgramsChain(alu, es, before, Instructions(own), start, row, regs, valid);
    }
  }

  lemma OneMoreCompiled<V>(
    alu: Alu<V>, es: seq<Expr>, before: Plan, start: nat, indices: seq<int>, row: Row<V>, regs: seq<V>,
    valid: seq<bool>)
    requires es != [] && AllReady(es, start, indices, row, regs, valid)
    requires |valid| + |es| <= start && |valid| + |es| <= |regs|
    requires AllBelow(es[..|es| - 1], |row.values|) && AllBelow(es, |indices|) && !HasLiteralOnly(es[|es| - 1])
    requires before == CompileAll(es[..|es| - 1], start, |valid|, indices) && Aligned(before)
    requires Programs(alu, es[..|es| - 1], Instructions(before), start, row, regs, valid)
    ensures var p := CompileAll(es, start, |valid|, indices);
            Aligned(p) && Programs(alu, es, Instructions(p), start, row, regs, valid)
  {
    AlignedSnoc(es, before, start, |valid|, indices);
    OneMore(alu, es, Instructions(before), start, indices, row, regs, valid);
  }

  /** No expression disturbs another's inputs or result. */
  lemma {:induction false} ProgramsCompute<V>(
    alu: Alu<V>, es: seq<Expr>, start: nat, indices: seq<int>, row: Row<V>, regs: seq<V>, valid: seq<bool>)
    requires AllReady(es, start, indices, row, regs, valid)
    requires |valid| + |es| <= start && |valid| + |es| <= |regs|
    ensures var p := CompileAll(es, start, |valid|, indices);
            Aligned(p) && Programs(alu, es, Instructions(p), start, row, regs, valid)
    decreases |es|
  {
    if es == [] {
      assert Instructions(EMPTY_PLAN) == [];
    } else {
      ProgramsCompute(alu, es[..|es| - 1], start, indices, row, regs, valid);
      var before := CompileAll(es[..|es| - 1], start, |valid|, indices);
      OneMoreCompiled(alu, es, before, start, indices, row, regs, valid);
    }
  }

  lemma {:induction false} LoadedFromColumns<V>(
    e: Expr, p: ProjectPlan, row: Row<V>, regs: seq<V>, valid: seq<bool>)
    requires ColumnsBelow(e, |p.newColumnIndices|) && RowOf(row, |p.newColumnIndices|)
    requires LoadedColumns(p, row, regs, valid)
    requires forall c :: 0 <= c < |p.newColumnIndices| && Mentions(e, c) ==>
               0 <= p.newColumnIndices[c] < |p.inputColumns| && p.inputColumns[p.newColumnIndices[c]] == c
    ensures Loaded(e, p.newColumnIndices, row, regs, valid)
  {
    match e
    case Unary(_, a) => LoadedFromColumns(a, p, row, regs, valid);
    case Binary(_, l, r) => LoadedFromColumns(l, p, row, regs, valid); LoadedFromColumns(r, p, row, regs, valid);
    case _ =>
  }

  lemma {:induction false} ExpressionItem(items: seq<ProjectItem>, j: nat) returns (k: nat)
    requires j < |Expressions(items)|
    ensures k < |items| && items[k] == Evaluated(Expressions(items)[j])
  {
    var n := |items| - 1;
    if j < |Expressions(items[..n])| {
      k := ExpressionItem(items[..n], j);
    } else {
      k := n;
    }
  }

  lemma {:induction false} ExpressionAt(items: seq<ProjectItem>, k: nat)
    requires k < |items| && items[k].Evaluated?
    ensures |Expressions(items[..k])| < |Expressions(items)|
    ensures Expressions(items)[|Expressions(items[..k])|] == items[k].e
  {
    var n := |items| - 1;
    if k < n {
      ExpressionAt(items[..n], k);
      assert items[..n][..k] == items[..k];
    }
  }

  /** The outputs of the whole program include those of each expression's code. */
  lemma {:induction false} OutputsIncluded(es: seq<Expr>, i: nat, start: nat, numInputs: nat, indices: seq<int>)
    requires i < |es| && AllBelow(es, |indices|)
    ensures forall o :: o in Compile(es[i], start, 0, numInputs + i, indices).outputs
                        ==> o in CompileAll(es, start, numInputs, indices).outputs
    decreases |es|
  {
    var n := |es| - 1;
    if i < n {
      OutputsIncluded(es[..n], i, start, numInputs, indices);
    }
  }

  lemma CodeOutputs(e: Expr, start: nat, out: nat, indices: seq<int>)
    requires e.IsOperator() && ColumnsBelow(e, |indices|) && out < start && start + TempNeed(e) <= PROCESSING_SPACES
    ensures var outputs := Compile(e, start, 0, out, indices).outputs;
            out in outputs && (TempNeed(e) > 0 ==> start + TempNeed(e) - 1 in outputs)
  {
    OutputBounds(e, start, out, indices);
    OutputsAre(e, start, 0, out, indices);
    var outputs := Compile(e, start, 0, out, indices).outputs;
    assert outputs[|outputs| - 1] == out;
  }

  lemma OwnOutputs(es: seq<Expr>, i: nat, start: nat, numInputs: nat, indices: seq<int>)
    requires i < |es| && AllBelow(es, |indices|) && es[i].IsOperator() && numInputs + i < start
    requires start + TempNeed(es[i]) <= PROCESSING_SPACES
    ensures var outputs := CompileAll(es, start, numInputs, indices).outputs;
            && numInputs + i in outputs
            && (TempNeed(es[i]) > 0 ==> start + TempNeed(es[i]) - 1 in outputs)
  {
    OutputsIncluded(es, i, start, numInputs, indices);
    CodeOutputs(es[i], start, numInputs + i, indices);
  }

  /** A register file of one more than the largest output register holds everything the program uses. */
  lemma RegisterFileSuffices(es: seq<Expr>, i: nat, start: nat, numInputs: nat, indices: seq<int>, maxOutput: int)
    requires i < |es| && AllBelow(es, |indices|)
    requires forall k :: 0 <= k < |es| ==> es[k].IsOperator() && start + TempNeed(es[k]) <= PROCESSING_SPACES
    requires numInputs + |es| == start
    requires forall o :: o in CompileAll(es, start, numInputs, indices).outputs ==> o <= maxOutput
    ensures start + TempNeed(es[i]) <= maxOutput + 1
  {
    OwnOutputs(es, i, start, numInputs, indices);
    OwnOutputs(es, |es| - 1, start, numInputs, indices);
  }

  /** What an item is worth on a row. */
  function ItemValue<V>(alu: Alu<V>, item: ProjectItem, row: Row<V>): V
    requires |row.valid| == |row.values|
    requires match item case Evaluated(e) => ColumnsBelow(e, |row.values|) case Direct(c) => c < |row.values|
  {
    match item
    case Evaluated(e) => Eval(alu, e, row)
    case Direct(c) => row.values[c]
  }

  /** What the caller of a projection has to see to. */
  ghost predicate Projectable(width: nat, items: seq<ProjectItem>, start: nat) {
    && ItemsFit(items, width)
    && forall k :: 0 <= k < |items| && items[k].Evaluated? ==>
         !HasLiteralOnly(items[k].e) && start + TempNeed(items[k].e) <= PROCESSING_SPACES
  }

  lemma AllReadyForRow<V>(
    width: nat, items: seq<ProjectItem>, p: ProjectPlan, maxOutput: int, row: Row<V>, regs: seq<V>, valid: seq<bool>)
    requires PlanFor(width, items, p) && RowOf(row, width)
    requires Projectable(width, items, |p.inputColumns| + |Expressions(items)|)
    requires forall o :: o in p.plan.outputs ==> o <= maxOutput
    requires |regs| == maxOutput + 1 && LoadedColumns(p, row, regs, valid)
    ensures AllReady(Expressions(items), |p.inputColumns| + |Expressions(items)|, p.newColumnIndices, row, regs, valid)
  {
    var es, n := Expressions(items), |p.inputColumns|;
    ExpressionsProjectable(width, items, n + |es|);
    forall i | 0 <= i < |es|
      ensures Ready(es[i], n + |es|, 0, TempNeed(es[i]), p.newColumnIndices, row, regs, valid)
    {
      RegisterFileSuffices(es, i, n + |es|, n, p.newColumnIndices, maxOutput);
      var k := ExpressionItem(items, i);
      forall c | 0 <= c < width && Mentions(es[i], c)
        ensures 0 <= p.newColumnIndices[c] < n && p.inputColumns[p.newColumnIndices[c]] == c
      {
        assert UsedBy(items, c);
        assert Marks(items, width)[c];
      }
      LoadedFromColumns(es[i], p, row, regs, valid);
    }
  }

  lemma ExpressionsProjectable(width: nat, items: seq<ProjectItem>, start: nat)
    requires Projectable(width, items, start)
    ensures forall i :: 0 <= i < |Expressions(items)| ==>
              var e := Expressions(items)[i];
              e.IsOperator() && ColumnsBelow(e, width) && !HasLiteralOnly(e) && start + TempNeed(e) <= PROCESSING_SPACES
  {
    forall i | 0 <= i < |Expressions(items)|
      ensures var e := Expressions(items)[i];
              e.IsOperator() && ColumnsBelow(e, width) && !HasLiteralOnly(e) && start + TempNeed(e) <= PROCESSING_SPACES
    {
      var k := ExpressionItem(items, i);
    }
  }

  lemma ReadyProgramsRun<V>(
    alu: Alu<V>, es: seq<Expr>, plan: Plan, indices: seq<int>, row: Row<V>, regs: seq<V>, valid: seq<bool>)
    requires es != [] && AllReady(es, |valid| + |es|, indices, row, regs, valid)
    requires plan == CompileAll(es, |valid| + |es|, |valid|, indices)
    ensures Aligned(plan) && Programs(alu, es, Instructions(plan), |valid| + |es|, row, regs, valid)
  {
    assert Ready(es[0], |valid| + |es|, 0, TempNeed(es[0]), indices, row, regs, valid);
    ProgramsCompute(alu, es, |valid| + |es|, indices, row, regs, valid);
  }

  lemma ProjectionRuns<V>(
    alu: Alu<V>, width: nat, items: seq<ProjectItem>, p: ProjectPlan, maxOutput: int,
    row: Row<V>, regs: seq<V>, valid: seq<bool>)
    requires PlanFor(width, items, p) && RowOf(row, width)
    requires Projectable(width, items, |p.inputColumns| + |Expressions(items)|) && Expressions(items) != []
    requires forall o :: o in p.plan.outputs ==> o <= maxOutput
    requires |regs| == maxOutput + 1 && LoadedColumns(p, row, regs, valid)
    ensures var es := Expressions(items);
            Aligned(p.plan) && Programs(alu, es, Instructions(p.plan), |p.inputColumns| + |es|, row, regs, valid)
  {
    AllReadyForRow(width, items, p, maxOutput, row, regs, valid);
    ReadyProgramsRun(alu, Expressions(items), p.plan, p.newColumnIndices, row, regs, valid);
  }

  /** The k-th output column has the k-th item's value. */
  ghost predicate Delivered<V>(alu: Alu<V>, items: seq<ProjectItem>, p: ProjectPlan, row: Row<V>, final: seq<V>, k: nat)
    requires ItemsFit(items, |row.values|) && |row.valid| == |row.values| && k < |items| == |p.columns|
  {
    match p.columns[k]
    case Copied(c) => c < |row.values| && ItemValue(alu, items[k], row) == row.values[c]
    case Computed(j) =>
      && j < |p.finalOutputPositions|
      && 0 <= p.finalOutputPositions[j] < |final|
      && ItemValue(alu, items[k], row) == final[p.finalOutputPositions[j]]
  }

  lemma ItemDelivered<V>(
    alu: Alu<V>, width: nat, items: seq<ProjectItem>, p: ProjectPlan, row: Row<V>, regs: seq<V>, final: seq<V>, k: nat)
    requires PlanFor(width, items, p) && RowOf(row, width) && ItemsFit(items, width) && k < |items|
    requires AllComputed(alu, Expressions(items), |p.inputColumns|, |p.inputColumns| + |Expressions(items)|, row, regs, final)
    ensures Delivered(alu, items, p, row, final, k)
  {
    if items[k].Evaluated? {
      ExpressionAt(items, k);
      var j := |Expressions(items[..k])|;
      assert p.columns[k] == ColumnFor(items, k) == Computed(j);
      assert p.finalOutputPositions[j] == |p.inputColumns| + j;
    } else {
      assert p.columns[k] == ColumnFor(items, k);
    }
  }

  /** Some computed item has a COALESCE or a null test without a column to look at. */
  ghost predicate ProbeFails<V>(alu: Alu<V>, items: seq<ProjectItem>) {
    exists k :: 0 <= k < |items| && items[k].Evaluated? && !ProbesColumnsOnly(alu, items[k].e)
  }

  lemma ProbeFailsIff<V>(alu: Alu<V>, items: seq<ProjectItem>)
    ensures ProbeFails(alu, items) <==> !AllProbeColumns(alu, Expressions(items))
  {
    var es := Expressions(items);
    if ProbeFails(alu, items) {
      var k :| 0 <= k < |items| && items[k].Evaluated? && !ProbesColumnsOnly(alu, items[k].e);
      ExpressionAt(items, k);
    }
    if !AllProbeColumns(alu, es) {
      var i :| 0 <= i < |es| && !ProbesColumnsOnly(alu, es[i]);
      var k := ExpressionItem(items, i);
    }
  }

  /** Projection is correct: with the used columns loaded into a register file of maxOutput + 1
      registers, running the concatenated program gives every item its value, whatever the row. It
      fails exactly where COALESCE or a null test has no column to look at. */
  lemma ProjectionComputes<V>(
    alu: Alu<V>, width: nat, items: seq<ProjectItem>, p: ProjectPlan, maxOutput: int,
    row: Row<V>, regs: seq<V>, valid: seq<bool>)
    requires PlanFor(width, items, p) && RowOf(row, width)
    requires Projectable(width, items, |p.inputColumns| + |Expressions(items)|) && Expressions(items) != []
    requires forall o :: o in p.plan.outputs ==> o <= maxOutput
    requires |regs| == maxOutput + 1 && LoadedColumns(p, row, regs, valid)
    ensures Aligned(p.plan)
    ensures match Run(alu, Instructions(p.plan), regs, valid)
            case None => ProbeFails(alu, items)
            case Some(final) =>
              !ProbeFails(alu, items) && forall k :: 0 <= k < |items| ==> Delivered(alu, items, p, row, final, k)
  {
    ProjectionRuns(alu, width, items, p, maxOutput, row, regs, valid);
    ProbeFailsIff(alu, items);
    match Run(alu, Instructions(p.plan), regs, valid) {
      case None =>
      case Some(final) =>
        forall k | 0 <= k < |items|
          ensures Delivered(alu, items, p, row, final, k)
        {
          ItemDelivered(alu, width, items, p, row, regs, final, k);
        }
    }
  }
}
