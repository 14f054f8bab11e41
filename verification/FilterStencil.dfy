/** WHERE conditions compiled to arithmetic: AND to a product, OR to a sum, stored in one byte a row. */
module FilterStencil {
  import opened CalciteExpression
  import opened RegisterMachine
  import opened LogicalFilter
  import opened Projection

  datatype Formula =
    | Comparison(op: GdfBinary, l: Expr, r: Expr)
    | NullTest(test: GdfUnary, e: Expr)
    | And(f: Formula, g: Formula)
    | Or(f: Formula, g: Formula)
    | Not(f: Formula)

  predicate IsNullTest(op: GdfUnary) {
    op == BlzIsNull || op == BlzIsNotNull
  }

  predicate IsComparison(op: GdfBinary) {
    op in {GdfEqual, GdfNotEqual, GdfGreater, GdfGreaterEqual, GdfLess, GdfLessEqual}
  }

  /** Comparisons of any operands, and null tests of columns: the kernel has no mask to look at for anything
      else (`ProbeFailsIff`). */
  predicate Atoms(f: Formula) {
    match f
    case Comparison(op, _, _) => IsComparison(op)
    case NullTest(test, e) => IsNullTest(test) && e.Column?
    case And(a, b) => Atoms(a) && Atoms(b)
    case Or(a, b) => Atoms(a) && Atoms(b)
    case Not(a) => Atoms(a)
  }

  function ToExpr(f: Formula): (e: Expr)
    ensures e.IsOperator()
  {
    match f
    case Comparison(op, l, r) => Binary(op, l, r)
    case NullTest(test, e) => Unary(test, e)
    case And(a, b) => Binary(GdfMul, ToExpr(a), ToExpr(b))
    case Or(a, b) => Binary(GdfAdd, ToExpr(a), ToExpr(b))
    case Not(a) => Unary(BlzNot, ToExpr(a))
  }

  /** What the comparison operators compare. */
  predicate Compares(op: GdfBinary, x: int, y: int) {
    match op
    case GdfEqual => x == y
    case GdfNotEqual => x != y
    case GdfGreater => x > y
    case GdfGreaterEqual => x >= y
    case GdfLess => x < y
    case GdfLessEqual => x <= y
    case _ => false
  }

  /** Integer arithmetic of the data pass: `*`, `+`, `!`, and comparisons and null tests that yield 0 or 1. */
  ghost predicate IntegerAlu(alu: Alu<int>) {
    && alu.probing && (forall b :: alu.truth(b) == if b then 1 else 0)
    && (forall x, y :: alu.binary(GdfMul, x, y) == x * y)
    && (forall x, y :: alu.binary(GdfAdd, x, y) == x + y)
    && (forall x :: alu.unary(BlzNot, x) == if x == 0 then 1 else 0)
    && (forall op, x, y :: IsComparison(op) ==> alu.binary(op, x, y) == if Compares(op, x, y) then 1 else 0)
  }

  /** What the condition means. */
  predicate Truth(alu: Alu<int>, f: Formula, row: Row<int>)
    requires |row.valid| == |row.values| && ColumnsBelow(ToExpr(f), |row.values|)
  {
    match f
    case Comparison(op, l, r) => Compares(op, Eval(alu, l, row), Eval(alu, r, row))
    case NullTest(test, e) => OperandValid(e, row) == (test == BlzIsNotNull)
    case And(a, b) => Truth(alu, a, row) && Truth(alu, b, row)
    case Or(a, b) => Truth(alu, a, row) || Truth(alu, b, row)
    case Not(a) => !Truth(alu, a, row)
  }

  // ----- values by the outcomes of the comparisons ----------------------------------------------

  /** How many comparisons and null tests. */
  function Size(f: Formula): (n: nat)
    ensures n >= 1
  {
    match f
    case Comparison(_, _, _) => 1
    case NullTest(_, _) => 1
    case And(a, b) => Size(a) + Size(b)
    case Or(a, b) => Size(a) + Size(b)
    case Not(a) => Size(a)
  }

  function Outcomes(alu: Alu<int>, f: Formula, row: Row<int>): (s: seq<bool>)
    requires |row.valid| == |row.values| && ColumnsBelow(ToExpr(f), |row.values|)
    ensures |s| == Size(f)
  {
    match f
    case Comparison(op, l, r) => [Compares(op, Eval(alu, l, row), Eval(alu, r, row))]
    case NullTest(test, e) => [OperandValid(e, row) == (test == BlzIsNotNull)]
    case And(a, b) => Outcomes(alu, a, row) + Outcomes(alu, b, row)
    case Or(a, b) => Outcomes(alu, a, row) + Outcomes(alu, b, row)
    case Not(a) => Outcomes(alu, a, row)
  }

  /** The integer that sums and products make of outcomes. */
  function Under(f: Formula, s: seq<bool>): nat
    requires |s| == Size(f)
  {
    match f
    case Comparison(_, _, _) => if s[0] then 1 else 0
    case NullTest(_, _) => if s[0] then 1 else 0
    case And(a, b) => Under(a, s[..Size(a)]) * Under(b, s[Size(a)..])
    case Or(a, b) => Under(a, s[..Size(a)]) + Under(b, s[Size(a)..])
    case Not(a) => if Under(a, s) == 0 then 1 else 0
  }

  predicate TruthUnder(f: Formula, s: seq<bool>)
    requires |s| == Size(f)
  {
    match f
    case Comparison(_, _, _) => s[0]
    case NullTest(_, _) => s[0]
    case And(a, b) => TruthUnder(a, s[..Size(a)]) && TruthUnder(b, s[Size(a)..])
    case Or(a, b) => TruthUnder(a, s[..Size(a)]) || TruthUnder(b, s[Size(a)..])
    case Not(a) => !TruthUnder(a, s)
  }

  lemma MulZero(x: nat, y: nat)
    ensures x * y != 0 <==> x != 0 && y != 0
  {
  }

  lemma {:induction false} UnderTruth(f: Formula, s: seq<bool>)
    requires |s| == Size(f)
    ensures Under(f, s) != 0 <==> TruthUnder(f, s)
  {
    match f
    case Comparison(_, _, _) =>
    case NullTest(_, _) =>
    case And(a, b) =>
      UnderTruth(a, s[..Size(a)]);
      UnderTruth(b, s[Size(a)..]);
      MulZero(Under(a, s[..Size(a)]), Under(b, s[Size(a)..]));
    case Or(a, b) =>
      UnderTruth(a, s[..Size(a)]);
      UnderTruth(b, s[Size(a)..]);
    case Not(a) =>
      UnderTruth(a, s);
  }

  lemma {:induction false} EvalIsUnder(alu: Alu<int>, f: Formula, row: Row<int>)
    requires IntegerAlu(alu) && |row.valid| == |row.values|
    requires Atoms(f) && ColumnsBelow(ToExpr(f), |row.values|)
    ensures Eval(alu, ToExpr(f), row) == Under(f, Outcomes(alu, f, row))
    ensures Truth(alu, f, row) == TruthUnder(f, Outcomes(alu, f, row))
  {
    match f
    case Comparison(op, l, r) =>
      var x, y := Eval(alu, l, row), Eval(alu, r, row);
      assert alu.binary(op, x, y) == if Compares(op, x, y) then 1 else 0;
    case NullTest(test, e) =>
      var probed := if test == BlzIsNull then !OperandValid(e, row) else OperandValid(e, row);
      assert Eval(alu, ToExpr(f), row) == alu.truth(probed);
    case And(a, b) =>
      EvalIsUnder(alu, a, row);
      EvalIsUnder(alu, b, row);
    case Or(a, b) =>
      EvalIsUnder(alu, a, row);
      EvalIsUnder(alu, b, row);
    case Not(a) =>
      EvalIsUnder(alu, a, row);
  }

  /** The compiled integer is nonzero exactly when the condition is true. */
  lemma ValueOfFormula(alu: Alu<int>, f: Formula, row: Row<int>)
    requires IntegerAlu(alu) && |row.valid| == |row.values|
    requires Atoms(f) && ColumnsBelow(ToExpr(f), |row.values|)
    ensures var v := Eval(alu, ToExpr(f), row); v >= 0 && (v != 0 <==> Truth(alu, f, row))
  {
    EvalIsUnder(alu, f, row);
    UnderTruth(f, Outcomes(alu, f, row));
  }

  // ----- the byte -------------------------------------------------------------------------------

  /** The byte the kernel stores for a value (the low eight bits). */
  function StencilByte(v: int): nat {
    v % 256
  }

  /** The values a condition can have, by its shape alone. */
  function Values(f: Formula): set<nat> {
    match f
    case Comparison(_, _, _) => {0, 1}
    case NullTest(_, _) => {0, 1}
    case And(a, b) => set x, y | x in Values(a) && y in Values(b) :: x * y
    case Or(a, b) => set x, y | x in Values(a) && y in Values(b) :: x + y
    case Not(a) => set x | x in Values(a) :: if x == 0 then 1 else 0
  }

  /** No value but 0 has the byte 0. */
  predicate ByteSafe(f: Formula) {
    forall v :: v in Values(f) ==> v == 0 || StencilByte(v) != 0
  }

  lemma {:induction false} UnderInValues(f: Formula, s: seq<bool>)
    requires |s| == Size(f)
    ensures Under(f, s) in Values(f)
  {
    match f
    case Comparison(_, _, _) =>
    case NullTest(_, _) =>
    case And(a, b) =>
      UnderInValues(a, s[..Size(a)]);
      UnderInValues(b, s[Size(a)..]);
    case Or(a, b) =>
      UnderInValues(a, s[..Size(a)]);
      UnderInValues(b, s[Size(a)..]);
    case Not(a) =>
      UnderInValues(a, s);
  }

  lemma {:induction false} ValueReached(f: Formula, v: nat) returns (s: seq<bool>)
    requires v in Values(f)
    ensures |s| == Size(f) && Under(f, s) == v
  {
    match f
    case Comparison(_, _, _) =>
      s := [v == 1];
    case NullTest(_, _) =>
      s := [v == 1];
    case And(a, b) =>
      var x, y :| x in Values(a) && y in Values(b) && x * y == v;
      var left := ValueReached(a, x);
      var right := ValueReached(b, y);
      s := left + right;
      assert s[..Size(a)] == left && s[Size(a)..] == right;
    case Or(a, b) =>
      var x, y :| x in Values(a) && y in Values(b) && x + y == v;
      var left := ValueReached(a, x);
      var right := ValueReached(b, y);
      s := left + right;
      assert s[..Size(a)] == left && s[Size(a)..] == right;
    case Not(a) =>
      var x :| x in Values(a) && v == if x == 0 then 1 else 0;
      s := ValueReached(a, x);
  }

  predicate FaithfulUnder(f: Formula, s: seq<bool>)
    requires |s| == Size(f)
  {
    StencilByte(Under(f, s)) != 0 <==> TruthUnder(f, s)
  }

  /** The byte agrees with the condition whatever its comparisons yield if and only if its shape allows for no
      positive multiple of 256. */
  lemma FaithfulIff(f: Formula)
    ensures (forall s :: |s| == Size(f) ==> FaithfulUnder(f, s)) <==> ByteSafe(f)
  {
    forall s | |s| == Size(f)
      ensures ByteSafe(f) ==> FaithfulUnder(f, s)
    {
      UnderInValues(f, s);
      UnderTruth(f, s);
    }
    if !ByteSafe(f) {
      var v :| v in Values(f) && v != 0 && StencilByte(v) == 0;
      var s := ValueReached(f, v);
      UnderTruth(f, s);
      assert !FaithfulUnder(f, s);
    }
  }

  predicate FaithfulOn(alu: Alu<int>, f: Formula, row: Row<int>)
    requires |row.valid| == |row.values| && ColumnsBelow(ToExpr(f), |row.values|)
  {
    StencilByte(Eval(alu, ToExpr(f), row)) != 0 <==> Truth(alu, f, row)
  }

  lemma StencilFaithful(alu: Alu<int>, f: Formula, row: Row<int>)
    requires IntegerAlu(alu) && |row.valid| == |row.values|
    requires Atoms(f) && ColumnsBelow(ToExpr(f), |row.values|) && ByteSafe(f)
    ensures FaithfulOn(alu, f, row)
  {
    EvalIsUnder(alu, f, row);
    FaithfulIff(f);
    assert FaithfulUnder(f, Outcomes(alu, f, row));
  }

  /** The largest value a condition can have, by the same sums and products. */
  function Bound(f: Formula): nat {
    match f
    case Comparison(_, _, _) => 1
    case NullTest(_, _) => 1
    case And(a, b) => Bound(a) * Bound(b)
    case Or(a, b) => Bound(a) + Bound(b)
    case Not(_) => 1
  }

  lemma MulBounds(x: nat, y: nat, a: nat, b: nat)
    requires x <= a && y <= b
    ensures x * y <= a * b
  {
    assert x * y <= a * y <= a * b;
  }

  lemma {:induction false} ValuesBounded(f: Formula, v: nat)
    requires v in Values(f)
    ensures v <= Bound(f)
  {
    match f
    case Comparison(_, _, _) =>
    case NullTest(_, _) =>
    case And(a, b) =>
      var x, y :| x in Values(a) && y in Values(b) && x * y == v;
      ValuesBounded(a, x);
      ValuesBounded(b, y);
      MulBounds(x, y, Bound(a), Bound(b));
    case Or(a, b) =>
      var x, y :| x in Values(a) && y in Values(b) && x + y == v;
      ValuesBounded(a, x);
      ValuesBounded(b, y);
    case Not(_) =>
  }

  /** A bound of at most 255 is enough. */
  lemma SmallIsSafe(f: Formula)
    requires Bound(f) <= 255
    ensures ByteSafe(f)
  {
    forall v | v in Values(f)
      ensures v == 0 || StencilByte(v) != 0
    {
      ValuesBounded(f, v);
    }
  }

  /** n + 1 copies of one condition, joined by OR. */
  function Repeated(f: Formula, n: nat): Formula {
    if n == 0 then f else Or(Repeated(f, n - 1), f)
  }

  lemma {:induction false} RepeatedValue(alu: Alu<int>, f: Formula, n: nat, row: Row<int>)
    requires IntegerAlu(alu) && |row.valid| == |row.values|
    requires Atoms(f) && ColumnsBelow(ToExpr(f), |row.values|)
    requires Eval(alu, ToExpr(f), row) == 1
    ensures Atoms(Repeated(f, n)) && ColumnsBelow(ToExpr(Repeated(f, n)), |row.values|)
    ensures Eval(alu, ToExpr(Repeated(f, n)), row) == n + 1
  {
    if n > 0 { RepeatedValue(alu, f, n - 1, row); }
  }

  /** One comparison is enough to go wrong: when it is true, it is still true repeated 256 times, and the byte
      is 0. */
  lemma StencilLosesRow(alu: Alu<int>, f: Formula, row: Row<int>)
    requires IntegerAlu(alu) && |row.valid| == |row.values| && f.Comparison?
    requires Atoms(f) && ColumnsBelow(ToExpr(f), |row.values|) && Truth(alu, f, row)
    ensures var g := Repeated(f, 255);
            && Atoms(g) && ColumnsBelow(ToExpr(g), |row.values|)
            && Truth(alu, g, row) && StencilByte(Eval(alu, ToExpr(g), row)) == 0
  {
    EvalIsUnder(alu, f, row);
    RepeatedValue(alu, f, 255, row);
    ValueOfFormula(alu, Repeated(f, 255), row);
  }

  // ----- nulls ----------------------------------------------------------------------------------

  /** The validity pass (`process_valids`): COALESCE is valid if either side is, anything else only if all
      its operands are; a literal is valid, the null scalar is not. */
  function ValidityAlu(): Alu<bool> {
    Alu((op, l, r) => if op == GdfCoalesce then l || r else l && r, (op, a) => a, text => true, b => b, false, false)
  }

  predicate NotNull(e: Expr, bits: seq<bool>)
    requires ColumnsBelow(e, |bits|)
  {
    match e
    case Column(i) => bits[i]
    case Literal(text) => text != "null"
    case Unary(_, a) => NotNull(a, bits)
    case Binary(op, l, r) =>
      if op == GdfCoalesce then NotNull(l, bits) || NotNull(r, bits) else NotNull(l, bits) && NotNull(r, bits)
  }

  lemma {:induction false} ValidityMeans(e: Expr, bits: seq<bool>)
    requires ColumnsBelow(e, |bits|)
    ensures Eval(ValidityAlu(), e, Row(bits, bits)) == NotNull(e, bits)
  {
    match e
    case Column(_) =>
    case Literal(_) =>
    case Unary(_, a) =>
      ValidityMeans(a, bits);
    case Binary(_, l, r) =>
      ValidityMeans(l, bits);
      ValidityMeans(r, bits);
  }

  /** No comparison has a null on either side, and no null is tested. */
  predicate Decided(f: Formula, bits: seq<bool>)
    requires ColumnsBelow(ToExpr(f), |bits|)
  {
    match f
    case Comparison(_, l, r) => NotNull(l, bits) && NotNull(r, bits)
    case NullTest(_, e) => NotNull(e, bits)
    case And(a, b) => Decided(a, bits) && Decided(b, bits)
    case Or(a, b) => Decided(a, bits) && Decided(b, bits)
    case Not(a) => Decided(a, bits)
  }

  lemma {:induction false} MaskOfFormula(f: Formula, bits: seq<bool>)
    requires Atoms(f) && ColumnsBelow(ToExpr(f), |bits|)
    ensures Eval(ValidityAlu(), ToExpr(f), Row(bits, bits)) == Decided(f, bits)
  {
    match f
    case Comparison(_, l, r) =>
      ValidityMeans(l, bits);
      ValidityMeans(r, bits);
    case NullTest(_, e) =>
      ValidityMeans(e, bits);
    case And(a, b) =>
      MaskOfFormula(a, bits);
      MaskOfFormula(b, bits);
    case Or(a, b) =>
      MaskOfFormula(a, bits);
      MaskOfFormula(b, bits);
    case Not(a) =>
      MaskOfFormula(a, bits);
  }

  // ----- process_filter -------------------------------------------------------------------------

  /** An entry of the stencil column: its byte, and whether it is valid. */
  datatype Entry = Entry(byte: nat, bit: bool)
  {
    predicate Keeps() { byte != 0 && bit }
  }

  /** The row numbers a stencil keeps, in order (`apply_boolean_mask` on the row numbers). */
  function Kept(stencil: seq<Entry>): seq<nat> {
    if stencil == [] then []
    else
      var n := |stencil| - 1;
      Kept(stencil[..n]) + (if stencil[n].Keeps() then [n] else [])
  }

  lemma {:induction false} KeptInRange(stencil: seq<Entry>)
    ensures forall k :: 0 <= k < |Kept(stencil)| ==> Kept(stencil)[k] < |stencil| && stencil[Kept(stencil)[k]].Keeps()
    ensures forall k, l :: 0 <= k < l < |Kept(stencil)| ==> Kept(stencil)[k] < Kept(stencil)[l]
    ensures forall i :: 0 <= i < |stencil| && stencil[i].Keeps() ==> i in Kept(stencil)
  {
    if stencil != [] {
      var n := |stencil| - 1;
      KeptInRange(stencil[..n]);
      forall i | 0 <= i < |stencil| && stencil[i].Keeps()
        ensures i in Kept(stencil)
      {
        if i < n { assert stencil[..n][i] == stencil[i]; } else { assert Kept(stencil)[|Kept(stencil)| - 1] == n; }
      }
    }
  }

  /** A column gathered by row numbers. */
  function Gather<T>(column: seq<T>, rows: seq<nat>): (r: seq<T>)
    requires forall k :: 0 <= k < |rows| ==> rows[k] < |column|
    ensures |r| == |rows| && forall k :: 0 <= k < |rows| ==> r[k] == column[rows[k]]
  {
    seq(|rows|, k requires 0 <= k < |rows| => column[rows[k]])
  }

  /** A table of columns; `set_column` replaces them one by one. */
  class Frame<T> {
    var columns: seq<seq<T>>

    constructor (columns: seq<seq<T>>)
      ensures this.columns == columns
    {
      this.columns := columns;
    }

    /** Builds the kept row numbers from the stencil and gathers every column by them. */
    method ProcessFilter(stencil: seq<Entry>)
      requires forall c :: 0 <= c < |columns| ==> |columns[c]| == |stencil|
      modifies this
      ensures |columns| == |old(columns)|
      ensures forall k :: 0 <= k < |Kept(stencil)| ==> Kept(stencil)[k] < |stencil|
      ensures forall c :: 0 <= c < |columns| ==> columns[c] == Gather(old(columns[c]), Kept(stencil))
    {
      KeptInRange(stencil);
      if |stencil| > 0 {
        var rows: seq<nat> := [];
        for i := 0 to |stencil|
          invariant rows == Kept(stencil[..i])
        {
          assert stencil[..i + 1][..i] == stencil[..i];
          if stencil[i].Keeps() {
            rows := rows + [i];
          }
        }
        assert stencil[..|stencil|] == stencil;
        for c := 0 to |columns|
          invariant |columns| == |old(columns)|
          invariant forall d :: 0 <= d < c ==> columns[d] == Gather(old(columns[d]), rows)
          invariant forall d :: c <= d < |columns| ==> columns[d] == old(columns[d])
        {
          columns := columns[c := Gather(columns[c], rows)];
        }
      }
    }
  }

  /** A run of the program on one row, from any register file that holds the row. */
  ghost predicate RunsTo<V>(
    alu: Alu<V>, p: ProjectPlan, row: Row<V>, regs: seq<V>, valid: seq<bool>, maxOutput: int, final: seq<V>)
  {
    && |row.valid| == |row.values| && Aligned(p.plan)
    && (forall o :: o in p.plan.outputs ==> o <= maxOutput)
    && |regs| == maxOutput + 1 && LoadedColumns(p, row, regs, valid)
    && Run(alu, Instructions(p.plan), regs, valid) == Some(final)
  }

  /** A pass over one row ends with this value in the output register. */
  ghost predicate Delivers<V(!new)>(alu: Alu<V>, p: ProjectPlan, row: Row<V>, v: V) {
    exists regs, valid, m, final ::
      && RunsTo(alu, p, row, regs, valid, m, final)
      && |p.finalOutputPositions| == 1 && 0 <= p.finalOutputPositions[0] < |final|
      && v == final[p.finalOutputPositions[0]]
  }

  lemma DeliversValue<V(!new)>(alu: Alu<V>, e: Expr, width: nat, p: ProjectPlan, row: Row<V>, v: V)
    requires PlanFor(width, [Evaluated(e)], p) && ColumnsBelow(e, width) && RowOf(row, width)
    requires Projectable(width, [Evaluated(e)], |p.inputColumns| + 1) && Delivers(alu, p, row, v)
    ensures v == Eval(alu, e, row)
  {
    var items := [Evaluated(e)];
    assert items[..0] == [];
    assert Expressions(items) == [e];
    var regs, valid, m, final :|
      && RunsTo(alu, p, row, regs, valid, m, final)
      && |p.finalOutputPositions| == 1 && 0 <= p.finalOutputPositions[0] < |final|
      && v == final[p.finalOutputPositions[0]];
    ProjectionComputes(alu, width, items, p, m, row, regs, valid);
    assert p.columns[0] == ColumnFor(items, 0) == Computed(0);
    assert Run(alu, Instructions(p.plan), regs, valid) == Some(final);
    assert forall k :: 0 <= k < |items| ==> Projection.Delivered(alu, items, p, row, final, k);
    var k := 0;
    assert Projection.Delivered(alu, items, p, row, final, k);
  }

  /** How the validity pass loads the columns: register q counts as all valid if operation q is a null test.
      With fewer operations than columns the kernel reads on behind their list; `beyond` are the registers for
      which it then finds a null test's number there. */
  predicate LoadedAsValid(p: ProjectPlan, beyond: set<nat>, c: nat) {
    && c < |p.newColumnIndices| && p.newColumnIndices[c] >= 0
    && var q := p.newColumnIndices[c];
       if q < |p.plan.unaryOperators| then IsNullTest(p.plan.unaryOperators[q]) else q in beyond
  }

  function AllValid(p: ProjectPlan, beyond: set<nat>): set<nat> {
    set c | 0 <= c < |p.newColumnIndices| && LoadedAsValid(p, beyond, c)
  }

  function LoadedBits(valid: seq<bool>, all: set<nat>): (bits: seq<bool>)
    ensures |bits| == |valid| && forall c :: 0 <= c < |bits| ==> bits[c] == (valid[c] || c in all)
  {
    seq(|valid|, c requires 0 <= c < |valid| => valid[c] || c in all)
  }

  /** An entry of the stencil: the data pass delivers its value, the validity pass, from the bits it has
      loaded for the columns of the row, its bit. */
  ghost predicate IsEntry(alu: Alu<int>, p: ProjectPlan, row: Row<int>, bits: seq<bool>, entry: Entry) {
    && (exists v :: Delivers(alu, p, row, v) && entry.byte == StencilByte(v))
    && Delivers(ValidityAlu(), p, Row(bits, bits), entry.bit)
  }

  /** The stencil of a condition: its compiled program run on every row, for the data and for the mask. */
  ghost predicate IsStencil(alu: Alu<int>, e: Expr, width: nat, p: ProjectPlan, beyond: set<nat>, rows: seq<Row<int>>,
                            stencil: seq<Entry>) {
    && PlanFor(width, [Evaluated(e)], p) && Projectable(width, [Evaluated(e)], |p.inputColumns| + 1)
    && |stencil| == |rows|
    && forall i :: 0 <= i < |rows| ==>
         RowOf(rows[i], width) && IsEntry(alu, p, rows[i], LoadedBits(rows[i].valid, AllValid(p, beyond)), stencil[i])
  }

  lemma EntryOfRow(alu: Alu<int>, f: Formula, width: nat, p: ProjectPlan, row: Row<int>, bits: seq<bool>, entry: Entry)
    requires IntegerAlu(alu) && Atoms(f) && ColumnsBelow(ToExpr(f), width) && ByteSafe(f)
    requires PlanFor(width, [Evaluated(ToExpr(f))], p)
    requires Projectable(width, [Evaluated(ToExpr(f))], |p.inputColumns| + 1)
    requires RowOf(row, width) && |bits| == width && IsEntry(alu, p, row, bits, entry)
    ensures entry.Keeps() <==> Truth(alu, f, row) && Decided(f, bits)
  {
    var v :| Delivers(alu, p, row, v) && entry.byte == StencilByte(v);
    DeliversValue(alu, ToExpr(f), width, p, row, v);
    StencilFaithful(alu, f, row);
    DeliversValue(ValidityAlu(), ToExpr(f), width, p, Row(bits, bits), entry.bit);
    MaskOfFormula(f, bits);
  }

  /** Filtering with a compiled condition whose shape is safe keeps exactly the rows on which it is true and
      no comparison or null test meets a bit that was loaded as null, in order. */
  lemma FilterKeepsTrueRows(alu: Alu<int>, f: Formula, width: nat, p: ProjectPlan, beyond: set<nat>,
                            rows: seq<Row<int>>, stencil: seq<Entry>)
    requires IntegerAlu(alu) && Atoms(f) && ColumnsBelow(ToExpr(f), width) && ByteSafe(f)
    requires IsStencil(alu, ToExpr(f), width, p, beyond, rows, stencil)
    ensures forall i :: 0 <= i < |rows| ==>
              (i in Kept(stencil)
               <==> Truth(alu, f, rows[i]) && Decided(f, LoadedBits(rows[i].valid, AllValid(p, beyond))))
    ensures forall k, l :: 0 <= k < l < |Kept(stencil)| ==> Kept(stencil)[k] < Kept(stencil)[l]
  {
    KeptInRange(stencil);
    forall i | 0 <= i < |rows|
      ensures i in Kept(stencil)
              <==> Truth(alu, f, rows[i]) && Decided(f, LoadedBits(rows[i].valid, AllValid(p, beyond)))
    {
      EntryOfRow(alu, f, width, p, rows[i], LoadedBits(rows[i].valid, AllValid(p, beyond)), stencil[i]);
    }
  }
}
