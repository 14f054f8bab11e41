/** Which operation each name of the two operator maps stands for, and what conditions and arithmetic written with
    them say. */
module OperatorNames {
  import opened CalciteText
  import opened ConnectiveExpansion
  import opened CalciteTokens
  import opened CalciteExpression
  import FilterStencil
  import WhereClause
  import LeafTexts

  function Pair(name: string, a: Tree, b: Tree): Tree {
    Node(name, Cons(a, Cons(b, Nil)))
  }

  function Single(name: string, a: Tree): Tree {
    Node(name, Cons(a, Nil))
  }

  /** The name with two operands is the binary operation. */
  ghost predicate IsBinary(name: string, op: GdfBinary, a: Tree, b: Tree)
    requires Fixed(a) && Fixed(b)
  {
    && Classified(name) == BinaryToken(op) && Fixed(Pair(name, a, b))
    && Typed(Pair(name, a, b)) == Binary(op, Typed(a), Typed(b))
  }

  ghost predicate IsUnary(name: string, op: GdfUnary, a: Tree)
    requires Fixed(a)
  {
    && Classified(name) == UnaryToken(op) && Fixed(Single(name, a))
    && Typed(Single(name, a)) == Unary(op, Typed(a))
  }

  lemma BinaryName(name: string, op: GdfBinary, a: Tree, b: Tree)
    requires Fixed(a) && Fixed(b) && name in BINARY_OPERATORS && BINARY_OPERATORS[name] == op
    ensures IsBinary(name, op, a, b)
  {
    ClassifiedOperator(name);
    var args := Cons(a, Cons(b, Nil));
    assert CalciteTokens.Arity(name) == 2 && IsPair(args) && args.head == a && args.tail.head == b;
  }

  /** No name is in both maps. */
  lemma MapsApart(name: string)
    requires name in UNARY_OPERATORS
    ensures name !in BINARY_OPERATORS
  {
  }

  lemma UnaryName(name: string, op: GdfUnary, a: Tree)
    requires Fixed(a) && name in UNARY_OPERATORS && UNARY_OPERATORS[name] == op
    ensures IsUnary(name, op, a)
  {
    MapsApart(name);
    ClassifiedOperator(name);
    var args := Cons(a, Nil);
    assert IsSingle(args) && args.head == a;
  }

  lemma EqualityNames(a: Tree, b: Tree)
    requires Fixed(a) && Fixed(b)
    ensures IsBinary("=", GdfEqual, a, b) && IsBinary("<>", GdfNotEqual, a, b)
  {
    BinaryName("=", GdfEqual, a, b);
    BinaryName("<>", GdfNotEqual, a, b);
  }

  lemma OrderNames(a: Tree, b: Tree)
    requires Fixed(a) && Fixed(b)
    ensures IsBinary(">", GdfGreater, a, b) && IsBinary(">=", GdfGreaterEqual, a, b)
    ensures IsBinary("<", GdfLess, a, b) && IsBinary("<=", GdfLessEqual, a, b)
  {
    BinaryName(">", GdfGreater, a, b);
    BinaryName(">=", GdfGreaterEqual, a, b);
    BinaryName("<", GdfLess, a, b);
    BinaryName("<=", GdfLessEqual, a, b);
  }

  lemma SumNames(a: Tree, b: Tree)
    requires Fixed(a) && Fixed(b)
    ensures IsBinary("+", GdfAdd, a, b) && IsBinary("-", GdfSub, a, b)
    ensures IsBinary("*", GdfMul, a, b)
  {
    BinaryName("+", GdfAdd, a, b);
    BinaryName("-", GdfSub, a, b);
    BinaryName("*", GdfMul, a, b);
  }

  lemma QuotientNames(a: Tree, b: Tree)
    requires Fixed(a) && Fixed(b)
    ensures IsBinary("/", GdfDiv, a, b) && IsBinary("POWER", GdfPow, a, b)
    ensures IsBinary("MOD", GdfMod, a, b)
  {
    BinaryName("/", GdfDiv, a, b);
    BinaryName("POWER", GdfPow, a, b);
    BinaryName("MOD", GdfMod, a, b);
  }

  lemma ConnectiveNames(a: Tree, b: Tree)
    requires Fixed(a) && Fixed(b)
    ensures IsBinary("AND", GdfMul, a, b) && IsBinary("OR", GdfAdd, a, b)
    ensures IsBinary("COALESCE", GdfCoalesce, a, b)
  {
    BinaryName("AND", GdfMul, a, b);
    BinaryName("OR", GdfAdd, a, b);
    BinaryName("COALESCE", GdfCoalesce, a, b);
  }

  /** `gdf_binary_operator_map`, name by name. */
  lemma BinaryNames(a: Tree, b: Tree)
    requires Fixed(a) && Fixed(b)
    ensures IsBinary("=", GdfEqual, a, b) && IsBinary("<>", GdfNotEqual, a, b)
    ensures IsBinary(">", GdfGreater, a, b) && IsBinary(">=", GdfGreaterEqual, a, b)
    ensures IsBinary("<", GdfLess, a, b) && IsBinary("<=", GdfLessEqual, a, b)
    ensures IsBinary("+", GdfAdd, a, b) && IsBinary("-", GdfSub, a, b)
    ensures IsBinary("*", GdfMul, a, b) && IsBinary("/", GdfDiv, a, b)
    ensures IsBinary("POWER", GdfPow, a, b) && IsBinary("MOD", GdfMod, a, b)
    ensures IsBinary("AND", GdfMul, a, b) && IsBinary("OR", GdfAdd, a, b)
    ensures IsBinary("COALESCE", GdfCoalesce, a, b)
  {
    EqualityNames(a, b);
    OrderNames(a, b);
    SumNames(a, b);
    QuotientNames(a, b);
    ConnectiveNames(a, b);
  }

  lemma ConditionNames(a: Tree)
    requires Fixed(a)
    ensures IsUnary("NOT", BlzNot, a) && IsUnary("IS_NULL", BlzIsNull, a)
    ensures IsUnary("IS_NOT_NULL", BlzIsNotNull, a)
  {
    UnaryName("NOT", BlzNot, a);
    UnaryName("IS_NULL", BlzIsNull, a);
    UnaryName("IS_NOT_NULL", BlzIsNotNull, a);
  }

  lemma SineNames(a: Tree)
    requires Fixed(a)
    ensures IsUnary("SIN", BlzSin, a) && IsUnary("ASIN", BlzAsin, a)
  {
    UnaryName("SIN", BlzSin, a);
    UnaryName("ASIN", BlzAsin, a);
  }

  lemma CosineNames(a: Tree)
    requires Fixed(a)
    ensures IsUnary("COS", BlzCos, a) && IsUnary("ACOS", BlzAcos, a)
  {
    UnaryName("COS", BlzCos, a);
    UnaryName("ACOS", BlzAcos, a);
  }

  lemma TangentNames(a: Tree)
    requires Fixed(a)
    ensures IsUnary("TAN", BlzTan, a) && IsUnary("ATAN", BlzAtan, a)
  {
    UnaryName("TAN", BlzTan, a);
    UnaryName("ATAN", BlzAtan, a);
  }

  lemma RoundingNames(a: Tree)
    requires Fixed(a)
    ensures IsUnary("BL_FLOUR", BlzFloor, a) && IsUnary("CEIL", BlzCeil, a)
    ensures IsUnary("ABS", BlzAbs, a)
  {
    UnaryName("BL_FLOUR", BlzFloor, a);
    UnaryName("CEIL", BlzCeil, a);
    UnaryName("ABS", BlzAbs, a);
  }

  lemma LogarithmNames(a: Tree)
    requires Fixed(a)
    ensures IsUnary("LOG10", BlzLog, a) && IsUnary("LN", BlzLn, a)
  {
    UnaryName("LOG10", BlzLog, a);
    UnaryName("LN", BlzLn, a);
  }

  lemma DateNames(a: Tree)
    requires Fixed(a)
    ensures IsUnary("BL_YEAR", BlzYear, a) && IsUnary("BL_MONTH", BlzMonth, a)
    ensures IsUnary("BL_DAY", BlzDay, a)
  {
    UnaryName("BL_YEAR", BlzYear, a);
    UnaryName("BL_MONTH", BlzMonth, a);
    UnaryName("BL_DAY", BlzDay, a);
  }

  lemma TimeNames(a: Tree)
    requires Fixed(a)
    ensures IsUnary("BL_HOUR", BlzHour, a) && IsUnary("BL_MINUTE", BlzMinute, a)
    ensures IsUnary("BL_SECOND", BlzSecond, a)
  {
    UnaryName("BL_HOUR", BlzHour, a);
    UnaryName("BL_MINUTE", BlzMinute, a);
    UnaryName("BL_SECOND", BlzSecond, a);
  }

  /** `gdf_unary_operator_map`, name by name. */
  lemma UnaryNames(a: Tree)
    requires Fixed(a)
    ensures IsUnary("NOT", BlzNot, a) && IsUnary("IS_NULL", BlzIsNull, a)
    ensures IsUnary("IS_NOT_NULL", BlzIsNotNull, a) && IsUnary("SIN", BlzSin, a)
    ensures IsUnary("ASIN", BlzAsin, a) && IsUnary("COS", BlzCos, a)
    ensures IsUnary("ACOS", BlzAcos, a) && IsUnary("TAN", BlzTan, a)
    ensures IsUnary("ATAN", BlzAtan, a) && IsUnary("BL_FLOUR", BlzFloor, a)
    ensures IsUnary("CEIL", BlzCeil, a) && IsUnary("ABS", BlzAbs, a)
    ensures IsUnary("LOG10", BlzLog, a) && IsUnary("LN", BlzLn, a)
    ensures IsUnary("BL_YEAR", BlzYear, a) && IsUnary("BL_MONTH", BlzMonth, a)
    ensures IsUnary("BL_DAY", BlzDay, a) && IsUnary("BL_HOUR", BlzHour, a)
    ensures IsUnary("BL_MINUTE", BlzMinute, a) && IsUnary("BL_SECOND", BlzSecond, a)
  {
    ConditionNames(a);
    SineNames(a);
    CosineNames(a);
    TangentNames(a);
    RoundingNames(a);
    LogarithmNames(a);
    DateNames(a);
    TimeNames(a);
  }

  // ----- conditions -----------------------------------------------------------------------------

  ghost predicate IsComparisonText(name: string, a: Tree, b: Tree, r: WhereClause.Reading, holds: bool)
    requires Known(a) && Known(b)
  {
    WhereClause.IsCondition(Pair(name, a, b)) && WhereClause.Holds(Pair(name, a, b), r) == holds
  }

  /** The six comparisons, by their names. */
  lemma ComparisonsMean(a: Tree, b: Tree, r: WhereClause.Reading)
    requires Known(a) && Known(b)
    ensures var x, y := r.value(WhereClause.OperandOf(a)), r.value(WhereClause.OperandOf(b));
      && IsComparisonText("=", a, b, r, x == y) && IsComparisonText("<>", a, b, r, x != y)
      && IsComparisonText(">", a, b, r, x > y) && IsComparisonText(">=", a, b, r, x >= y)
      && IsComparisonText("<", a, b, r, x < y) && IsComparisonText("<=", a, b, r, x <= y)
  {
    var args := Cons(a, Cons(b, Nil));
    assert IsPair(args) && args.head == a && args.tail.head == b;
  }

  ghost function ColumnLeaf(n: nat): Tree {
    Leaf("$" + LeafTexts.Decimal(n))
  }

  /** Comparisons and null tests of columns on a row: "<($i, $j)" compares cell i with cell j. */
  lemma ColumnConditions(alu: Alu<int>, row: Row<int>, bits: seq<bool>, i: nat, j: nat)
    requires |row.valid| == |row.values| && i < |row.values| && j < |row.values|
    ensures Known(ColumnLeaf(i)) && Known(ColumnLeaf(j))
    ensures var r := WhereClause.On(alu, row, bits); var a, b := ColumnLeaf(i), ColumnLeaf(j);
      && IsComparisonText("<", a, b, r, row.values[i] < row.values[j])
      && IsComparisonText(">=", a, b, r, row.values[i] >= row.values[j])
      && IsComparisonText(">", a, b, r, row.values[i] > row.values[j])
      && IsComparisonText("<=", a, b, r, row.values[i] <= row.values[j])
      && IsComparisonText("=", a, b, r, row.values[i] == row.values[j])
      && IsComparisonText("<>", a, b, r, row.values[i] != row.values[j])
    ensures var r := WhereClause.On(alu, row, bits);
      && IsTestText("IS_NULL", ColumnLeaf(i), r, !row.valid[i])
      && IsTestText("IS_NOT_NULL", ColumnLeaf(i), r, row.valid[i])
  {
    LeafTexts.ColumnLeaf(i);
    LeafTexts.ColumnLeaf(j);
    ComparisonsMean(ColumnLeaf(i), ColumnLeaf(j), WhereClause.On(alu, row, bits));
  }

  // ----- arithmetic -----------------------------------------------------------------------------

  /** "COALESCE($c, x)" is cell c where it is not null, and x where it is. */
  lemma CoalesceMeans<V>(alu: Alu<V>, c: nat, b: Tree, row: Row<V>)
    requires alu.probing && Fixed(b) && |row.valid| == |row.values| && c < |row.values|
    requires ColumnsBelow(Typed(b), |row.values|)
    ensures IsValueText(alu, Pair("COALESCE", ColumnLeaf(c), b), row,
                        if row.valid[c] then row.values[c] else Eval(alu, Typed(b), row))
  {
    LeafTexts.ColumnLeaf(c);
    ConnectiveNames(ColumnLeaf(c), b);
  }

  /** Null tests of a column look at whether the cell is null. */
  lemma NullTestsMean<V>(alu: Alu<V>, c: nat, row: Row<V>)
    requires alu.probing && |row.valid| == |row.values| && c < |row.values|
    ensures IsValueText(alu, Single("IS_NULL", ColumnLeaf(c)), row, alu.truth(!row.valid[c]))
    ensures IsValueText(alu, Single("IS_NOT_NULL", ColumnLeaf(c)), row, alu.truth(row.valid[c]))
  {
    LeafTexts.ColumnLeaf(c);
    ConditionNames(ColumnLeaf(c));
  }

  ghost predicate IsValueText<V>(alu: Alu<V>, t: Tree, row: Row<V>, v: V)
    requires |row.valid| == |row.values|
  {
    Fixed(t) && ColumnsBelow(Typed(t), |row.values|) && Eval(alu, Typed(t), row) == v
  }

  /** Sums and products over integers. */
  lemma ArithmeticMeans(alu: Alu<int>, a: Tree, b: Tree, row: Row<int>)
    requires FilterStencil.IntegerAlu(alu) && Fixed(a) && Fixed(b) && |row.valid| == |row.values|
    requires ColumnsBelow(Typed(a), |row.values|) && ColumnsBelow(Typed(b), |row.values|)
    ensures var x, y := Eval(alu, Typed(a), row), Eval(alu, Typed(b), row);
            IsValueText(alu, Pair("+", a, b), row, x + y) && IsValueText(alu, Pair("*", a, b), row, x * y)
  {
    SumNames(a, b);
  }

  ghost predicate IsTestText(name: string, a: Tree, r: WhereClause.Reading, holds: bool) {
    WhereClause.IsCondition(Single(name, a)) && WhereClause.Holds(Single(name, a), r) == holds
  }
}
