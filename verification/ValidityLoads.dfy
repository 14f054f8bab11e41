/** What the validity pass loads for the program of a condition. */
module ValidityLoads {
  import opened CalciteExpression
  import opened RegisterMachine
  import opened LogicalFilter
  import opened ExpressionCompiler
  import opened Projection
  import opened FilterStencil

  predicate TestsNull(e: Expr) {
    match e
    case Column(_) => false
    case Literal(_) => false
    case Unary(op, a) => IsNullTest(op) || TestsNull(a)
    case Binary(_, l, r) => TestsNull(l) || TestsNull(r)
  }

  ghost predicate NoNullTests(ops: seq<GdfUnary>) {
    forall i :: 0 <= i < |ops| ==> !IsNullTest(ops[i])
  }

  lemma {:induction false} CodeTestsNothing(e: Expr, start: nat, k: nat, out: int, indices: seq<int>)
    requires ColumnsBelow(e, |indices|) && !TestsNull(e)
    ensures NoNullTests(Compile(e, start, k, out, indices).unaryOperators)
    decreases e
  {
    match e
    case Column(_) =>
    case Literal(_) =>
    case Unary(_, a) =>
      CodeTestsNothing(a, start, k, Slot(start, k), indices);
    case Binary(_, l, r) =>
      CodeTestsNothing(r, start, k, Slot(start, k), indices);
      CodeTestsNothing(l, start, After(r, start, k), Slot(start, After(r, start, k)), indices);
  }

  lemma OneProgram(e: Expr, width: nat, p: ProjectPlan)
    requires PlanFor(width, [Evaluated(e)], p) && ColumnsBelow(e, width)
    ensures |p.newColumnIndices| == width
    ensures p.plan.unaryOperators
         == Compile(e, |p.inputColumns| + 1, 0, |p.inputColumns|, p.newColumnIndices).unaryOperators
    ensures forall c :: 0 <= c < width ==>
              if Mentions(e, c) then 0 <= p.newColumnIndices[c] < |p.inputColumns| else p.newColumnIndices[c] == -1
  {
    var items := [Evaluated(e)];
    assert items[..0] == [];
    assert Expressions(items) == [e];
    var start, n := |p.inputColumns| + 1, |p.inputColumns|;
    assert [e][..0] == [];
    assert p.plan == Append(CompileAll([], start, n, p.newColumnIndices), Compile(e, start, 0, n, p.newColumnIndices));
    forall c | 0 <= c < width
      ensures Marks(items, width)[c] == Mentions(e, c)
    {
      if Mentions(e, c) { assert items[0].Evaluated? && Mentions(items[0].e, c); }
    }
  }

  /** No register is looked up behind the list of operations, or none is found to be a null test there. */
  ghost predicate NothingBeyond(p: ProjectPlan, beyond: set<nat>) {
    forall q :: q in beyond && q < |p.inputColumns| ==> q < |p.plan.unaryOperators|
  }

  /** Without any null test the validity pass loads the nulls of the row. */
  lemma LoadsAreNulls(e: Expr, width: nat, p: ProjectPlan, beyond: set<nat>)
    requires PlanFor(width, [Evaluated(e)], p) && ColumnsBelow(e, width) && !TestsNull(e) && NothingBeyond(p, beyond)
    ensures AllValid(p, beyond) == {}
  {
    OneProgram(e, width, p);
    CodeTestsNothing(e, |p.inputColumns| + 1, 0, |p.inputColumns|, p.newColumnIndices);
    forall c | 0 <= c < |p.newColumnIndices|
      ensures !LoadedAsValid(p, beyond, c)
    {
    }
  }

  lemma ThreeColumns(e: Expr, p: ProjectPlan)
    requires PlanFor(3, [Evaluated(e)], p) && ColumnsBelow(e, 3) && Mentions(e, 0) && Mentions(e, 1) && Mentions(e, 2)
    ensures p.newColumnIndices == [0, 1, 2]
  {
    OneProgram(e, 3, p);
    var used := Marks([Evaluated(e)], 3);
    assert [Evaluated(e)][0].Evaluated?;
    assert used == [true, true, true];
    assert used[..2] == [true, true] && [true, true][..1] == [true] && [true][..0] == [];
    assert Count(used) == 3;
    assert p.inputColumns[0] < p.inputColumns[1] < p.inputColumns[2] < 3;
    assert p.newColumnIndices[0] == 0 && p.newColumnIndices[1] == 1 && p.newColumnIndices[2] == 2;
  }

  /** The right operand's operations come first. */
  lemma CodeOfPair(op: GdfBinary, l: Expr, r: Expr, start: nat, k: nat, out: int, indices: seq<int>)
    requires ColumnsBelow(Binary(op, l, r), |indices|) && k == After(r, start, 0)
    ensures Compile(Binary(op, l, r), start, 0, out, indices).unaryOperators
         == Compile(r, start, 0, Slot(start, 0), indices).unaryOperators
            + (Compile(l, start, k, Slot(start, k), indices).unaryOperators + [BlzInvalidUnary])
  {
  }

  lemma CodeOfTest(test: GdfUnary, c: nat, start: nat, k: nat, out: int, indices: seq<int>)
    requires c < |indices|
    ensures Compile(Unary(test, Column(c)), start, k, out, indices).unaryOperators == [test]
  {
  }

  lemma CodeOfComparison(op: GdfBinary, a: nat, b: nat, start: nat, k: nat, out: int, indices: seq<int>)
    requires a < |indices| && b < |indices|
    ensures Compile(Binary(op, Column(a), Column(b)), start, k, out, indices).unaryOperators == [BlzInvalidUnary]
  {
  }

  lemma CodeBesideTest(test: GdfUnary, op: GdfBinary, start: nat, out: int, indices: seq<int>)
    requires indices == [0, 1, 2]
    ensures var e := Binary(GdfMul, Unary(test, Column(0)), Binary(op, Column(1), Column(2)));
            && ColumnsBelow(e, |indices|)
            && Compile(e, start, 0, out, indices).unaryOperators == [BlzInvalidUnary, test, BlzInvalidUnary]
  {
    var l, r := Unary(test, Column(0)), Binary(op, Column(1), Column(2));
    assert ColumnsBelow(l, 3) && ColumnsBelow(r, 3);
    var k := After(r, start, 0);
    CodeOfPair(GdfMul, l, r, start, k, out, indices);
    CodeOfComparison(op, 1, 2, start, 0, Slot(start, 0), indices);
    CodeOfTest(test, 0, start, k, Slot(start, k), indices);
  }

  /** A null test of column 0 beside a comparison of columns 1 and 2: column 1 is loaded as valid. */
  lemma LoadsBesideTest(test: GdfUnary, op: GdfBinary, p: ProjectPlan, beyond: set<nat>)
    requires IsNullTest(test)
    requires PlanFor(3, [Evaluated(Binary(GdfMul, Unary(test, Column(0)), Binary(op, Column(1), Column(2))))], p)
    ensures AllValid(p, beyond) == {1}
  {
    var l, r := Unary(test, Column(0)), Binary(op, Column(1), Column(2));
    var e := Binary(GdfMul, l, r);
    assert ColumnsBelow(l, 3) && ColumnsBelow(r, 3);
    assert Mentions(l, 0) && Mentions(r, 1) && Mentions(r, 2);
    ThreeColumns(e, p);
    OneProgram(e, 3, p);
    CodeBesideTest(test, op, |p.inputColumns| + 1, |p.inputColumns|, p.newColumnIndices);
    LoadsOfThree(test, p, beyond);
  }

  lemma LoadsOfThree(test: GdfUnary, p: ProjectPlan, beyond: set<nat>)
    requires IsNullTest(test)
    requires p.newColumnIndices == [0, 1, 2] && p.plan.unaryOperators == [BlzInvalidUnary, test, BlzInvalidUnary]
    ensures AllValid(p, beyond) == {1}
  {
    assert LoadedAsValid(p, beyond, 1) && !LoadedAsValid(p, beyond, 0) && !LoadedAsValid(p, beyond, 2);
  }

  /** A comparison of two columns has one operator: for column 1 the kernel looks past the operators, and the
      column is loaded as valid exactly if it finds something like a null test there. */
  lemma LoadsPastOperators(op: GdfBinary, p: ProjectPlan, beyond: set<nat>)
    requires PlanFor(2, [Evaluated(Binary(op, Column(0), Column(1)))], p)
    ensures AllValid(p, beyond) == if 1 in beyond then {1} else {}
  {
    var e := Binary(op, Column(0), Column(1));
    assert Mentions(e, 0) && Mentions(e, 1);
    TwoColumns(e, p);
    OneProgram(e, 2, p);
    CodeOfComparison(op, 0, 1, |p.inputColumns| + 1, 0, |p.inputColumns|, p.newColumnIndices);
    assert LoadedAsValid(p, beyond, 1) <==> 1 in beyond;
    assert !LoadedAsValid(p, beyond, 0);
  }

  lemma TwoColumns(e: Expr, p: ProjectPlan)
    requires PlanFor(2, [Evaluated(e)], p) && ColumnsBelow(e, 2) && Mentions(e, 0) && Mentions(e, 1)
    ensures p.newColumnIndices == [0, 1]
  {
    OneProgram(e, 2, p);
    var used := Marks([Evaluated(e)], 2);
    assert [Evaluated(e)][0].Evaluated?;
    assert used == [true, true];
    assert [true, true][..1] == [true] && [true][..0] == [];
    assert Count(used) == 2;
    assert p.inputColumns[0] < p.inputColumns[1] < 2;
    assert p.newColumnIndices[0] == 0 && p.newColumnIndices[1] == 1;
  }
}
