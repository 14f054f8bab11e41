/** Expressions as the planner hands them over, their prefix tokens, and what they mean on one row. */
module CalciteExpression {

  datatype GdfBinary =
    | GdfEqual | GdfNotEqual | GdfGreater | GdfGreaterEqual | GdfLess | GdfLessEqual
    | GdfAdd | GdfSub | GdfMul | GdfDiv | GdfPow | GdfMod | GdfCoalesce
    | GdfInvalidBinary

  datatype GdfUnary =
    | BlzNot | BlzSin | BlzAsin | BlzCos | BlzAcos | BlzTan | BlzAtan | BlzFloor | BlzCeil | BlzAbs
    | BlzLog | BlzLn | BlzYear | BlzMonth | BlzDay | BlzHour | BlzMinute | BlzSecond
    | BlzIsNull | BlzIsNotNull
    | BlzInvalidUnary

  /** `gdf_binary_operator_map`: the connectives share the arithmetic operators. */
  const BINARY_OPERATORS: map<string, GdfBinary> := map[
    "=" := GdfEqual, "<>" := GdfNotEqual, ">" := GdfGreater, ">=" := GdfGreaterEqual,
    "<" := GdfLess, "<=" := GdfLessEqual, "+" := GdfAdd, "-" := GdfSub, "*" := GdfMul, "/" := GdfDiv,
    "POWER" := GdfPow, "MOD" := GdfMod, "AND" := GdfMul, "OR" := GdfAdd, "COALESCE" := GdfCoalesce]

  /** `gdf_unary_operator_map`. */
  const UNARY_OPERATORS: map<string, GdfUnary> := map[
    "NOT" := BlzNot, "SIN" := BlzSin, "ASIN" := BlzAsin, "COS" := BlzCos, "ACOS" := BlzAcos,
    "TAN" := BlzTan, "ATAN" := BlzAtan, "BL_FLOUR" := BlzFloor, "CEIL" := BlzCeil, "ABS" := BlzAbs,
    "LOG10" := BlzLog, "LN" := BlzLn, "BL_YEAR" := BlzYear, "BL_MONTH" := BlzMonth, "BL_DAY" := BlzDay,
    "BL_HOUR" := BlzHour, "BL_MINUTE" := BlzMinute, "BL_SECOND" := BlzSecond,
    "IS_NULL" := BlzIsNull, "IS_NOT_NULL" := BlzIsNotNull]

  /** An operator name neither map knows is carried as `OtherToken`. */
  datatype Token =
    | BinaryToken(op: GdfBinary)
    | UnaryToken(op1: GdfUnary)
    | OtherToken
    | ColumnToken(index: nat)
    | LiteralToken(text: string)

  datatype Expr =
    | Column(index: nat)
    | Literal(text: string)
    | Unary(uop: GdfUnary, arg: Expr)
    | Binary(op: GdfBinary, left: Expr, right: Expr)
  {
    predicate IsOperator() { Unary? || Binary? }
  }

  function Max(a: nat, b: nat): nat { if a < b then b else a }

  /** Operator levels of an expression. */
  function Height(e: Expr): nat {
    match e
    case Column(_) => 0
    case Literal(_) => 0
    case Unary(_, a) => 1 + Height(a)
    case Binary(_, l, r) => 1 + Max(Height(l), Height(r))
  }

  /** The expression's prefix tokens, last token first, as `get_tokens_in_reverse_order` yields them:
      the right operand's, the left operand's, the operator, and then what follows. */
  function TokensThen(e: Expr, rest: seq<Token>): (ts: seq<Token>)
    ensures ts != []
  {
    match e
    case Column(i) => [ColumnToken(i)] + rest
    case Literal(t) => [LiteralToken(t)] + rest
    case Unary(op, a) => TokensThen(a, [UnaryToken(op)] + rest)
    case Binary(op, l, r) => TokensThen(r, TokensThen(l, [BinaryToken(op)] + rest))
  }

  function ReverseTokens(e: Expr): (ts: seq<Token>)
    ensures ts != []
  {
    TokensThen(e, [])
  }

  /** An operator all of whose operands are literals. */
  predicate LiteralOnly(e: Expr) {
    match e
    case Unary(_, a) => a.Literal?
    case Binary(_, l, r) => l.Literal? && r.Literal?
    case _ => false
  }

  predicate HasLiteralOnly(e: Expr) {
    LiteralOnly(e) ||
    match e
    case Unary(_, a) => HasLiteralOnly(a)
    case Binary(_, l, r) => HasLiteralOnly(l) || HasLiteralOnly(r)
    case _ => false
  }

  predicate ColumnsBelow(e: Expr, width: nat) {
    match e
    case Column(i) => i < width
    case Literal(_) => true
    case Unary(_, a) => ColumnsBelow(a, width)
    case Binary(_, l, r) => ColumnsBelow(l, width) && ColumnsBelow(r, width)
  }

  // ----- meaning --------------------------------------------------------------------------------

  /** The arithmetic of one pass of the kernel over a register type V. The data pass takes COALESCE and
      the null tests from the validity mask of an input column (`probing`); the validity pass combines
      masks and probes nothing. */
  datatype Alu<!V> = Alu(
    binary: (GdfBinary, V, V) -> V,
    unary: (GdfUnary, V) -> V,
    scalar: string -> V,
    truth: bool -> V,
    junk: V,
    probing: bool)

  predicate ProbesBinary<V>(alu: Alu<V>, op: GdfBinary) {
    alu.probing && op == GdfCoalesce
  }

  predicate ProbesUnary<V>(alu: Alu<V>, op: GdfUnary) {
    alu.probing && (op == BlzIsNull || op == BlzIsNotNull)
  }

  function ApplyBinary<V>(alu: Alu<V>, op: GdfBinary, leftValid: bool, l: V, r: V): V {
    if ProbesBinary(alu, op) then (if leftValid then l else r) else alu.binary(op, l, r)
  }

  function ApplyUnary<V>(alu: Alu<V>, op: GdfUnary, valid: bool, v: V): V {
    if ProbesUnary(alu, op) then alu.truth(if op == BlzIsNull then !valid else valid) else alu.unary(op, v)
  }

  /** `null` is the one text whose scalar is not valid; its value is whatever the register held. */
  function ScalarValue<V>(alu: Alu<V>, text: string): V {
    if text == "null" then alu.junk else alu.scalar(text)
  }

  /** A row: the values of its columns and which of them are not null. */
  datatype Row<V> = Row(values: seq<V>, valid: seq<bool>)

  predicate RowOf<V>(row: Row<V>, width: nat) {
    |row.values| == width && |row.valid| == width
  }

  /** Only a column has a validity mask to probe. */
  predicate OperandValid<V>(e: Expr, row: Row<V>)
    requires ColumnsBelow(e, |row.values|) && |row.valid| == |row.values|
  {
    match e
    case Column(i) => row.valid[i]
    case _ => true
  }

  function Eval<V>(alu: Alu<V>, e: Expr, row: Row<V>): V
    requires |row.valid| == |row.values| && ColumnsBelow(e, |row.values|)
  {
    match e
    case Column(i) => row.values[i]
    case Literal(t) => ScalarValue(alu, t)
    case Unary(op, a) => ApplyUnary(alu, op, OperandValid(a, row), Eval(alu, a, row))
    case Binary(op, l, r) =>
      ApplyBinary(alu, op, OperandValid(l, row), Eval(alu, l, row), Eval(alu, r, row))
  }

  /** Every probing operator of the expression has a column to probe. */
  predicate ProbesColumnsOnly<V>(alu: Alu<V>, e: Expr) {
    match e
    case Unary(op, a) => (ProbesUnary(alu, op) ==> a.Column?) && ProbesColumnsOnly(alu, a)
    case Binary(op, l, r) =>
      (ProbesBinary(alu, op) ==> l.Column?) && ProbesColumnsOnly(alu, l) && ProbesColumnsOnly(alu, r)
    case _ => true
  }
}
