/** WHERE conditions from their text on: AND and OR of any number of conditions, NOT, comparisons, null tests. */
module WhereClause {
  import opened CalciteText
  import opened ConnectiveExpansion
  import opened CalciteTokens
  import opened CalciteExpression
  import opened Projection
  import FilterStencil
  import SqlStates
  import SqlFilter
  import ValidityLoads
  import opened TextToValue

  type Formula = FilterStencil.Formula

  /** An operand, as the compiler sees it. */
  ghost function OperandOf(t: Tree): Expr
    requires Known(t)
  {
    NestFixed(t);
    Typed(LeftNest(t))
  }

  predicate IsNullTest(op: string) {
    op == "IS_NULL" || op == "IS_NOT_NULL"
  }

  predicate IsComparison(op: string) {
    op == "=" || op == "<>" || op == ">" || op == ">=" || op == "<" || op == "<="
  }

  ghost predicate IsCondition(t: Tree) {
    match t
    case Leaf(_) => false
    case Node(op, args) =>
      if IsConnective(op) then args.Cons? && args.tail.Cons? && IsCondition(args.head) && AllConditions(args.tail)
      else if op == "NOT" then IsSingle(args) && IsCondition(args.head)
      else if IsNullTest(op) then IsSingle(args) && Known(args.head) && OperandOf(args.head).Column?
      else IsComparison(op) && IsPair(args) && Known(args.head) && Known(args.tail.head)
  }

  ghost predicate AllConditions(ts: Trees) {
    match ts
    case Nil => true
    case Cons(t, tail) => IsCondition(t) && AllConditions(tail)
  }

  // ----- what the text says ---------------------------------------------------------------------

  /** What is known of the operands on a row: their values, whether they are null, and for columns the bit a
      null test looks at. */
  datatype Reading = Reading(value: Expr -> int, notNull: Expr -> bool, valid: Expr -> bool)

  /** What a comparison says, by its name. */
  predicate Related(op: string, x: int, y: int) {
    if op == "=" then x == y
    else if op == "<>" then x != y
    else if op == ">" then x > y
    else if op == ">=" then x >= y
    else if op == "<" then x < y
    else op == "<=" && x <= y
  }

  ghost predicate HoldsAlone(op: string, args: Trees, r: Reading)
    requires !IsConnective(op) && op != "NOT" && IsCondition(Node(op, args))
  {
    if op == "IS_NULL" then !r.valid(OperandOf(args.head))
    else if op == "IS_NOT_NULL" then r.valid(OperandOf(args.head))
    else Related(op, r.value(OperandOf(args.head)), r.value(OperandOf(args.tail.head)))
  }

  /** The condition is true: AND needs all, OR needs any. */
  ghost predicate Holds(t: Tree, r: Reading)
    requires IsCondition(t)
  {
    match t
    case Node(op, args) =>
      if op == "AND" then Holds(args.head, r) && AllHold(args.tail, r)
      else if op == "OR" then Holds(args.head, r) || AnyHolds(args.tail, r)
      else if op == "NOT" then !Holds(args.head, r)
      else HoldsAlone(op, args, r)
  }

  ghost predicate AllHold(ts: Trees, r: Reading)
    requires AllConditions(ts)
  {
    match ts
    case Nil => true
    case Cons(t, tail) => Holds(t, r) && AllHold(tail, r)
  }

  ghost predicate AnyHolds(ts: Trees, r: Reading)
    requires AllConditions(ts)
  {
    match ts
    case Nil => false
    case Cons(t, tail) => Holds(t, r) || AnyHolds(tail, r)
  }

  ghost predicate NoNullsAlone(op: string, args: Trees, r: Reading)
    requires !IsConnective(op) && op != "NOT" && IsCondition(Node(op, args))
  {
    r.notNull(OperandOf(args.head)) && (IsNullTest(op) || r.notNull(OperandOf(args.tail.head)))
  }

  /** No comparison and no null test of the text meets a null. */
  ghost predicate NoNulls(t: Tree, r: Reading)
    requires IsCondition(t)
  {
    match t
    case Node(op, args) =>
      if IsConnective(op) then NoNulls(args.head, r) && NoNullsIn(args.tail, r)
      else if op == "NOT" then NoNulls(args.head, r)
      else NoNullsAlone(op, args, r)
  }

  ghost predicate NoNullsIn(ts: Trees, r: Reading)
    requires AllConditions(ts)
  {
    match ts
    case Nil => true
    case Cons(t, tail) => NoNulls(t, r) && NoNullsIn(tail, r)
  }

  /** What SQL says of the condition as written. */
  ghost function SqlOf(t: Tree, r: Reading): SqlStates.Sql
    requires IsCondition(t)
  {
    match t
    case Node(op, args) =>
      if op == "AND" then SqlStates.SqlAnd(SqlOf(args.head, r), SqlOfAll(args.tail, r))
      else if op == "OR" then SqlStates.SqlOr(SqlOf(args.head, r), SqlOfAny(args.tail, r))
      else if op == "NOT" then SqlStates.SqlNot(SqlOf(args.head, r))
      else if !IsNullTest(op) && !NoNullsAlone(op, args, r) then SqlStates.Unknown
      else SqlStates.OfTruth(HoldsAlone(op, args, r))
  }

  ghost function SqlOfAll(ts: Trees, r: Reading): SqlStates.Sql
    requires AllConditions(ts)
  {
    match ts
    case Nil => SqlStates.Yes
    case Cons(t, tail) => SqlStates.SqlAnd(SqlOf(t, r), SqlOfAll(tail, r))
  }

  ghost function SqlOfAny(ts: Trees, r: Reading): SqlStates.Sql
    requires AllConditions(ts)
  {
    match ts
    case Nil => SqlStates.No
    case Cons(t, tail) => SqlStates.SqlOr(SqlOf(t, r), SqlOfAny(tail, r))
  }

  /** Guarded conditions, by their text. */
  ghost predicate GuardedText(t: Tree, want: bool)
    requires IsCondition(t)
  {
    match t
    case Node(op, args) =>
      if IsConnective(op) then want == (op == "AND") && GuardedText(args.head, want) && GuardedTexts(args.tail, want)
      else if op == "NOT" then GuardedText(args.head, !want)
      else IsNullTest(op) ==> want == (op == "IS_NOT_NULL")
  }

  ghost predicate GuardedTexts(ts: Trees, want: bool)
    requires AllConditions(ts)
  {
    match ts
    case Nil => true
    case Cons(t, tail) => GuardedText(t, want) && GuardedTexts(tail, want)
  }

  // ----- the binary formula ---------------------------------------------------------------------

  function Joined(op: string, a: Formula, b: Formula): Formula {
    if op == "AND" then FilterStencil.And(a, b) else FilterStencil.Or(a, b)
  }

  /** The operator maps know the comparisons and the null tests, and which is which. */
  lemma NamesMean(op: string, x: int, y: int)
    ensures IsNullTest(op) ==>
              && op in UNARY_OPERATORS && FilterStencil.IsNullTest(UNARY_OPERATORS[op])
              && (UNARY_OPERATORS[op] == BlzIsNotNull <==> op == "IS_NOT_NULL")
    ensures IsComparison(op) ==>
              && op in BINARY_OPERATORS && FilterStencil.IsComparison(BINARY_OPERATORS[op])
              && (FilterStencil.Compares(BINARY_OPERATORS[op], x, y) <==> Related(op, x, y))
  {
  }

  ghost function FormulaOf(t: Tree): Formula
    requires IsCondition(t)
    decreases t
  {
    NamesMean(t.op, 0, 0);
    match t
    case Node(op, args) =>
      if IsConnective(op) then JoinedAll(op, FormulaOf(args.head), args.tail)
      else if op == "NOT" then FilterStencil.Not(FormulaOf(args.head))
      else if IsNullTest(op) then FilterStencil.NullTest(UNARY_OPERATORS[op], OperandOf(args.head))
      else FilterStencil.Comparison(BINARY_OPERATORS[op], OperandOf(args.head), OperandOf(args.tail.head))
  }

  ghost function JoinedAll(op: string, acc: Formula, ts: Trees): Formula
    requires AllConditions(ts)
    decreases ts
  {
    match ts
    case Nil => acc
    case Cons(t, tail) => JoinedAll(op, Joined(op, acc, FormulaOf(t)), tail)
  }

  lemma {:induction false} ConditionKnown(t: Tree)
    requires IsCondition(t)
    ensures Known(t)
    decreases t
  {
    match t
    case Node(op, args) =>
      if IsConnective(op) {
        ConditionKnown(args.head);
        ConditionsKnown(args.tail);
        assert KnownAll(args);
      } else if op == "NOT" {
        ConditionKnown(args.head);
      } else {
        NamesMean(op, 0, 0);
        assert CalciteTokens.Arity(op) == if IsNullTest(op) then 1 else 2;
      }
  }

  lemma {:induction false} ConditionsKnown(ts: Trees)
    requires AllConditions(ts)
    ensures KnownAll(ts)
    decreases ts
  {
    match ts
    case Nil =>
    case Cons(t, tail) =>
      ConditionKnown(t);
      ConditionsKnown(tail);
  }

  lemma NestNode(op: string, args: Trees)
    requires !IsConnective(op)
    ensures LeftNest(Node(op, args)) == Node(op, LeftNestAll(args))
  {
  }

  lemma NestConnective(op: string, args: Trees)
    requires IsConnective(op) && args.Cons?
    ensures LeftNest(Node(op, args)) == Fold(op, LeftNest(args.head), LeftNestAll(args.tail))
  {
  }

  lemma TypedConnective(op: string, a: Tree, b: Tree)
    requires IsConnective(op) && Fixed(a) && Fixed(b)
    ensures var pair := Node(op, Cons(a, Cons(b, Nil)));
            Fixed(pair) && Typed(pair) == Binary(if op == "AND" then GdfMul else GdfAdd, Typed(a), Typed(b))
  {
    var args := Cons(a, Cons(b, Nil));
    assert CalciteTokens.Arity(op) == 2 && IsPair(args) && args.head == a && args.tail.head == b;
  }

  /** The formula is what the nested text compiles to. */
  lemma {:induction false} FormulaIsTyped(t: Tree)
    requires IsCondition(t)
    ensures Fixed(LeftNest(t)) && Typed(LeftNest(t)) == FilterStencil.ToExpr(FormulaOf(t))
    ensures FilterStencil.Atoms(FormulaOf(t))
    decreases t, 0
  {
    ConditionKnown(t);
    NestFixed(t);
    match t
    case Node(op, args) =>
      if IsConnective(op) {
        NestConnective(op, args);
        FormulaIsTyped(args.head);
        FoldIsTyped(op, LeftNest(args.head), FormulaOf(args.head), args.tail);
      } else if op == "NOT" {
        assert args == Cons(args.head, Nil);
        NestNode(op, args);
        NestPair(args.head, args.head);
        FormulaIsTyped(args.head);
      } else if IsNullTest(op) {
        assert args == Cons(args.head, Nil);
        NestNode(op, args);
        NestPair(args.head, args.head);
      } else {
        assert args == Cons(args.head, Cons(args.tail.head, Nil));
        NestNode(op, args);
        NestPair(args.head, args.tail.head);
      }
  }

  lemma {:induction false} FoldIsTyped(op: string, acc: Tree, f: Formula, ts: Trees)
    requires IsConnective(op) && AllConditions(ts)
    requires Fixed(acc) && Typed(acc) == FilterStencil.ToExpr(f) && FilterStencil.Atoms(f)
    ensures var folded := Fold(op, acc, LeftNestAll(ts));
            && Fixed(folded) && Typed(folded) == FilterStencil.ToExpr(JoinedAll(op, f, ts))
            && FilterStencil.Atoms(JoinedAll(op, f, ts))
    decreases ts, 1
  {
    match ts
    case Nil =>
    case Cons(t, tail) =>
      FormulaIsTyped(t);
      TypedConnective(op, acc, LeftNest(t));
      FoldIsTyped(op, Node(op, Cons(acc, Cons(LeftNest(t), Nil))), Joined(op, f, FormulaOf(t)), tail);
  }

  // ----- its truth ------------------------------------------------------------------------------

  /** The truth of a formula, its mask, and what SQL says of it, by what is known of the operands. */
  ghost predicate FormulaHolds(f: Formula, r: Reading) {
    match f
    case Comparison(op, l, e) => FilterStencil.Compares(op, r.value(l), r.value(e))
    case NullTest(test, e) => r.valid(e) == (test == BlzIsNotNull)
    case And(a, b) => FormulaHolds(a, r) && FormulaHolds(b, r)
    case Or(a, b) => FormulaHolds(a, r) || FormulaHolds(b, r)
    case Not(a) => !FormulaHolds(a, r)
  }

  ghost predicate FormulaDecided(f: Formula, r: Reading) {
    match f
    case Comparison(_, l, e) => r.notNull(l) && r.notNull(e)
    case NullTest(_, e) => r.notNull(e)
    case And(a, b) => FormulaDecided(a, r) && FormulaDecided(b, r)
    case Or(a, b) => FormulaDecided(a, r) && FormulaDecided(b, r)
    case Not(a) => FormulaDecided(a, r)
  }

  ghost function FormulaSql(f: Formula, r: Reading): SqlStates.Sql {
    match f
    case Comparison(_, _, _) =>
      if FormulaDecided(f, r) then SqlStates.OfTruth(FormulaHolds(f, r)) else SqlStates.Unknown
    case NullTest(_, _) => SqlStates.OfTruth(FormulaHolds(f, r))
    case And(a, b) => SqlStates.SqlAnd(FormulaSql(a, r), FormulaSql(b, r))
    case Or(a, b) => SqlStates.SqlOr(FormulaSql(a, r), FormulaSql(b, r))
    case Not(a) => SqlStates.SqlNot(FormulaSql(a, r))
  }

  lemma {:induction false} FormulaMeans(t: Tree, r: Reading)
    requires IsCondition(t)
    ensures FormulaHolds(FormulaOf(t), r) == Holds(t, r)
    ensures FormulaDecided(FormulaOf(t), r) == NoNulls(t, r)
    decreases t, 0
  {
    match t
    case Node(op, args) =>
      if IsConnective(op) {
        FormulaMeans(args.head, r);
        JoinedMeans(op, FormulaOf(args.head), args.tail, r);
      } else if op == "NOT" {
        FormulaMeans(args.head, r);
      }
  }

  lemma {:induction false} JoinedMeans(op: string, f: Formula, ts: Trees, r: Reading)
    requires IsConnective(op) && AllConditions(ts)
    ensures FormulaHolds(JoinedAll(op, f, ts), r)
         == if op == "AND" then FormulaHolds(f, r) && AllHold(ts, r) else FormulaHolds(f, r) || AnyHolds(ts, r)
    ensures FormulaDecided(JoinedAll(op, f, ts), r) == (FormulaDecided(f, r) && NoNullsIn(ts, r))
    decreases ts, 1
  {
    match ts
    case Nil =>
    case Cons(t, tail) =>
      FormulaMeans(t, r);
      JoinedMeans(op, Joined(op, f, FormulaOf(t)), tail, r);
  }

  lemma {:induction false} FormulaSqlMeans(t: Tree, r: Reading)
    requires IsCondition(t)
    ensures FormulaSql(FormulaOf(t), r) == SqlOf(t, r)
    decreases t, 0
  {
    match t
    case Node(op, args) =>
      if IsConnective(op) {
        FormulaSqlMeans(args.head, r);
        JoinedSqlMeans(op, FormulaOf(args.head), args.tail, r);
      } else if op == "NOT" {
        FormulaSqlMeans(args.head, r);
      }
  }

  lemma {:induction false} JoinedSqlMeans(op: string, f: Formula, ts: Trees, r: Reading)
    requires IsConnective(op) && AllConditions(ts)
    ensures FormulaSql(JoinedAll(op, f, ts), r)
         == if op == "AND" then SqlStates.SqlAnd(FormulaSql(f, r), SqlOfAll(ts, r))
            else SqlStates.SqlOr(FormulaSql(f, r), SqlOfAny(ts, r))
    decreases ts, 1
  {
    match ts
    case Nil =>
    case Cons(t, tail) =>
      FormulaSqlMeans(t, r);
      JoinedSqlMeans(op, Joined(op, f, FormulaOf(t)), tail, r);
  }

  lemma {:induction false} GuardedMeans(t: Tree, want: bool)
    requires IsCondition(t)
    ensures SqlFilter.Guarded(FormulaOf(t), want) == GuardedText(t, want)
    decreases t, 0
  {
    match t
    case Node(op, args) =>
      if IsConnective(op) {
        GuardedMeans(args.head, want);
        JoinedGuarded(op, FormulaOf(args.head), args.tail, want);
        assert args.tail.Cons?;
      } else if op == "NOT" {
        GuardedMeans(args.head, !want);
      }
  }

  lemma {:induction false} JoinedGuarded(op: string, f: Formula, ts: Trees, want: bool)
    requires IsConnective(op) && AllConditions(ts)
    ensures SqlFilter.Guarded(JoinedAll(op, f, ts), want)
         == (SqlFilter.Guarded(f, want) && (ts.Nil? || (want == (op == "AND") && GuardedTexts(ts, want))))
    decreases ts, 1
  {
    match ts
    case Nil =>
    case Cons(t, tail) =>
      GuardedMeans(t, want);
      JoinedGuarded(op, Joined(op, f, FormulaOf(t)), tail, want);
  }

  /** What is known on a row, the validity pass having loaded the given bits. */
  ghost function On(alu: Alu<int>, row: Row<int>, bits: seq<bool>): Reading {
    Reading((e: Expr) => if |row.valid| == |row.values| && ColumnsBelow(e, |row.values|) then Eval(alu, e, row) else 0,
            (e: Expr) => ColumnsBelow(e, |bits|) && FilterStencil.NotNull(e, bits),
            (e: Expr) => e.Column? ==> e.index < |row.valid| && row.valid[e.index])
  }

  lemma {:induction false} TruthMeans(alu: Alu<int>, f: Formula, row: Row<int>, bits: seq<bool>)
    requires |row.valid| == |row.values| == |bits| && ColumnsBelow(FilterStencil.ToExpr(f), |row.values|)
    ensures FilterStencil.Truth(alu, f, row) == FormulaHolds(f, On(alu, row, bits))
    ensures FilterStencil.Decided(f, bits) == FormulaDecided(f, On(alu, row, bits))
  {
    match f
    case Comparison(_, l, r) =>
      assert ColumnsBelow(l, |bits|) && ColumnsBelow(r, |bits|);
    case NullTest(_, e) =>
      assert ColumnsBelow(e, |bits|);
    case And(a, b) =>
      TruthMeans(alu, a, row, bits);
      TruthMeans(alu, b, row, bits);
    case Or(a, b) =>
      TruthMeans(alu, a, row, bits);
      TruthMeans(alu, b, row, bits);
    case Not(a) =>
      TruthMeans(alu, a, row, bits);
  }

  /** What SQL knows of a row. */
  ghost function SqlOn(alu: Alu<int>, row: Row<int>): Reading {
    On(alu, row, row.valid).(notNull := (e: Expr) => ColumnsBelow(e, |row.valid|) && SqlFilter.HasValue(e, row.valid))
  }

  lemma {:induction false} SqlMeans(alu: Alu<int>, f: Formula, row: Row<int>)
    requires |row.valid| == |row.values| && ColumnsBelow(FilterStencil.ToExpr(f), |row.values|)
    ensures SqlFilter.SqlValue(alu, f, row) == FormulaSql(f, SqlOn(alu, row))
  {
    match f
    case Comparison(_, l, r) =>
      assert ColumnsBelow(l, |row.valid|) && ColumnsBelow(r, |row.valid|);
    case NullTest(_, e) =>
      assert ColumnsBelow(e, |row.valid|);
    case And(a, b) =>
      SqlMeans(alu, a, row);
      SqlMeans(alu, b, row);
    case Or(a, b) =>
      SqlMeans(alu, a, row);
      SqlMeans(alu, b, row);
    case Not(a) =>
      SqlMeans(alu, a, row);
  }

  // ----- the filter -----------------------------------------------------------------------------

  /** What the validity pass loads on a row. */
  ghost function Loaded(alu: Alu<int>, p: ProjectPlan, beyond: set<nat>, row: Row<int>): Reading {
    On(alu, row, FilterStencil.LoadedBits(row.valid, FilterStencil.AllValid(p, beyond)))
  }

  /** The filter is correct from the text on. The tokens of the cleaned text are those of one expression; when
      its program makes the stencil and no positive multiple of 256 comes about, the rows kept are those on
      which the condition as written is true, AND of any number of conditions meaning all of them and OR any,
      and on which no comparison or null test meets a bit that was loaded as null. */
  lemma WhereKeepsTrueRows(alu: Alu<int>, t: Tree, width: nat, p: ProjectPlan, beyond: set<nat>, rows: seq<Row<int>>,
                           stencil: seq<FilterStencil.Entry>) returns (e: Expr)
    requires FilterStencil.IntegerAlu(alu) && ValidTree(t) && Flattens(t) && IsCondition(t)
    requires FilterStencil.ByteSafe(FormulaOf(t))
    ensures TokensOf(t) == ReverseTokens(e)
    ensures ColumnsBelow(e, width) && FilterStencil.IsStencil(alu, e, width, p, beyond, rows, stencil) ==>
              forall i :: 0 <= i < |rows| ==>
                (i in FilterStencil.Kept(stencil) <==>
                   Holds(t, Loaded(alu, p, beyond, rows[i])) && NoNulls(t, Loaded(alu, p, beyond, rows[i])))
  {
    var f := FormulaOf(t);
    ConditionKnown(t);
    CompilerTokens(t);
    FormulaIsTyped(t);
    e := FilterStencil.ToExpr(f);
    if ColumnsBelow(e, width) && FilterStencil.IsStencil(alu, e, width, p, beyond, rows, stencil) {
      FilterStencil.FilterKeepsTrueRows(alu, f, width, p, beyond, rows, stencil);
      forall i | 0 <= i < |rows|
        ensures var bits := FilterStencil.LoadedBits(rows[i].valid, FilterStencil.AllValid(p, beyond));
                && FilterStencil.Truth(alu, f, rows[i]) == Holds(t, Loaded(alu, p, beyond, rows[i]))
                && FilterStencil.Decided(f, bits) == NoNulls(t, Loaded(alu, p, beyond, rows[i]))
      {
        assert RowOf(rows[i], width);
        TruthMeans(alu, f, rows[i], FilterStencil.LoadedBits(rows[i].valid, FilterStencil.AllValid(p, beyond)));
        FormulaMeans(t, Loaded(alu, p, beyond, rows[i]));
      }
    }
  }

  /** What the filter keeps against what SQL says of the text: nothing more if nothing sneaks in, and nothing less
      if the condition is complete. */
  ghost predicate FiltersAsSql(alu: Alu<int>, t: Tree, all: set<nat>, rows: seq<Row<int>>,
                               stencil: seq<FilterStencil.Entry>)
    requires IsCondition(t)
  {
    && (!SqlStates.Sneaks(FormulaOf(t), true, all) ==>
          forall i :: 0 <= i < |rows| && i in FilterStencil.Kept(stencil) ==> SqlOf(t, SqlOn(alu, rows[i])) == SqlStates.Yes)
    && (SqlStates.Complete(FormulaOf(t), true, all) ==>
          forall i :: 0 <= i < |rows| && SqlOf(t, SqlOn(alu, rows[i])) == SqlStates.Yes ==> i in FilterStencil.Kept(stencil))
  }

  lemma SqlOfRow(alu: Alu<int>, t: Tree, row: Row<int>)
    requires IsCondition(t) && |row.valid| == |row.values|
    requires ColumnsBelow(FilterStencil.ToExpr(FormulaOf(t)), |row.values|)
    ensures SqlFilter.SqlValue(alu, FormulaOf(t), row) == SqlOf(t, SqlOn(alu, row))
  {
    SqlMeans(alu, FormulaOf(t), row);
    FormulaSqlMeans(t, SqlOn(alu, row));
  }

  /** The filter and SQL, from the text on, with what the kernel loads for the text's program. */
  lemma WhereIsSql(alu: Alu<int>, t: Tree, width: nat, p: ProjectPlan, beyond: set<nat>, rows: seq<Row<int>>,
                   stencil: seq<FilterStencil.Entry>) returns (e: Expr)
    requires FilterStencil.IntegerAlu(alu) && ValidTree(t) && Flattens(t) && IsCondition(t)
    requires FilterStencil.ByteSafe(FormulaOf(t)) && SqlFilter.PlainOperands(FormulaOf(t))
    ensures TokensOf(t) == ReverseTokens(e)
    ensures ColumnsBelow(e, width) && FilterStencil.IsStencil(alu, e, width, p, beyond, rows, stencil) ==>
              FiltersAsSql(alu, t, FilterStencil.AllValid(p, beyond), rows, stencil)
  {
    var f := FormulaOf(t);
    ConditionKnown(t);
    CompilerTokens(t);
    FormulaIsTyped(t);
    e := FilterStencil.ToExpr(f);
    if ColumnsBelow(e, width) && FilterStencil.IsStencil(alu, e, width, p, beyond, rows, stencil) {
      TextAgrees(alu, t, width, p, beyond, rows, stencil);
    }
  }

  /** A text without null tests keeps nothing on which SQL does not say yes, and everything on which it does if it
      is guarded. */
  lemma WhereWithoutNullTests(alu: Alu<int>, t: Tree, width: nat, p: ProjectPlan, beyond: set<nat>,
                              rows: seq<Row<int>>, stencil: seq<FilterStencil.Entry>) returns (e: Expr)
    requires FilterStencil.IntegerAlu(alu) && ValidTree(t) && Flattens(t) && IsCondition(t)
    requires FilterStencil.ByteSafe(FormulaOf(t)) && ValidityLoads.NothingBeyond(p, beyond)
    requires !ValidityLoads.TestsNull(FilterStencil.ToExpr(FormulaOf(t)))
    ensures TokensOf(t) == ReverseTokens(e)
    ensures ColumnsBelow(e, width) && FilterStencil.IsStencil(alu, e, width, p, beyond, rows, stencil) ==>
              forall i :: 0 <= i < |rows| ==>
                (i in FilterStencil.Kept(stencil) ==> SqlOf(t, SqlOn(alu, rows[i])) == SqlStates.Yes)
                && (GuardedText(t, true) && SqlOf(t, SqlOn(alu, rows[i])) == SqlStates.Yes
                    ==> i in FilterStencil.Kept(stencil))
  {
    SqlFilter.PlainWithoutTests(FormulaOf(t));
    FormulaIsTyped(t);
    ConditionKnown(t);
    CompilerTokens(t);
    e := FilterStencil.ToExpr(FormulaOf(t));
    if ColumnsBelow(e, width) && FilterStencil.IsStencil(alu, e, width, p, beyond, rows, stencil) {
      ValidityLoads.LoadsAreNulls(e, width, p, beyond);
      SqlFilter.NothingSneaks(FormulaOf(t), true);
      SqlFilter.GuardedIsComplete(FormulaOf(t), true);
      GuardedMeans(t, true);
      TextAgrees(alu, t, width, p, beyond, rows, stencil);
    }
  }

  lemma TextAgrees(alu: Alu<int>, t: Tree, width: nat, p: ProjectPlan, beyond: set<nat>, rows: seq<Row<int>>,
                   stencil: seq<FilterStencil.Entry>)
    requires FilterStencil.IntegerAlu(alu) && IsCondition(t) && FilterStencil.Atoms(FormulaOf(t))
    requires FilterStencil.ByteSafe(FormulaOf(t)) && SqlFilter.PlainOperands(FormulaOf(t))
    requires ColumnsBelow(FilterStencil.ToExpr(FormulaOf(t)), width)
    requires FilterStencil.IsStencil(alu, FilterStencil.ToExpr(FormulaOf(t)), width, p, beyond, rows, stencil)
    ensures FiltersAsSql(alu, t, FilterStencil.AllValid(p, beyond), rows, stencil)
  {
    SqlFilter.FilterIsSql(alu, FormulaOf(t), width, p, beyond, rows, stencil);
    forall i | 0 <= i < |rows|
      ensures SqlFilter.SqlValue(alu, FormulaOf(t), rows[i]) == SqlOf(t, SqlOn(alu, rows[i]))
    {
      assert RowOf(rows[i], width);
      SqlOfRow(alu, t, rows[i]);
    }
  }
}
