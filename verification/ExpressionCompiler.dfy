/** Why the emitted code computes the expression: the token machine is a compiler on trees. */
module ExpressionCompiler {
  import opened CalciteExpression
  import opened RegisterMachine
  import opened LogicalFilter

  // ----- the compiler on trees ------------------------------------------------------------------

  /** Where an expression's value is found once its code has run, with k temporaries already in use. */
  function OperandOf(e: Expr, start: nat, k: nat, indices: seq<int>): Operand
    requires ColumnsBelow(e, |indices|)
  {
    match e
    case Column(i) => RegisterOperand(indices[i])
    case Literal(t) => LiteralOperand(t)
    case _ => RegisterOperand(Slot(start, k))
  }

  /** Temporaries in use once the value of `e` is on the stack. */
  function After(e: Expr, start: nat, k: nat): nat {
    if e.IsOperator() && start + k < PROCESSING_SPACES then k + 1 else k
  }

  function Compile(e: Expr, start: nat, k: nat, out: int, indices: seq<int>): Plan
    requires ColumnsBelow(e, |indices|)
  {
    match e
    case Column(_) => EMPTY_PLAN
    case Literal(_) => EMPTY_PLAN
    case Unary(op, a) =>
      Append(Compile(a, start, k, Slot(start, k), indices),
             Append(EmitUnary(op, OperandOf(a, start, k, indices)), Output(out)))
    case Binary(op, l, r) =>
      var k' := After(r, start, k);
      Append(Compile(r, start, k, Slot(start, k), indices),
             Append(Compile(l, start, k', Slot(start, k'), indices),
                    Append(EmitBinary(op, OperandOf(l, start, k', indices), OperandOf(r, start, k, indices)),
                           Output(out))))
  }

  ghost predicate Indices(indices: seq<int>, start: nat) {
    forall i :: 0 <= i < |indices| ==> indices[i] < start
  }

  lemma {:induction false} TokensReady(e: Expr, rest: seq<Token>, depth: nat, indices: seq<int>, start: nat)
    requires ColumnsBelow(e, |indices|) && Indices(indices, start)
    requires StackSafe(rest, depth + 1) && Mapped(rest, indices, start)
    ensures StackSafe(TokensThen(e, rest), depth) && Mapped(TokensThen(e, rest), indices, start)
    decreases e
  {
    match e
    case Column(i) => FirstReady(ColumnToken(i), rest, depth, indices, start);
    case Literal(t) => FirstReady(LiteralToken(t), rest, depth, indices, start);
    case Unary(op, a) =>
      FirstReady(UnaryToken(op), rest, depth + 1, indices, start);
      TokensReady(a, [UnaryToken(op)] + rest, depth, indices, start);
    case Binary(op, l, r) =>
      FirstReady(BinaryToken(op), rest, depth + 2, indices, start);
      TokensReady(l, [BinaryToken(op)] + rest, depth + 1, indices, start);
      TokensReady(r, TokensThen(l, [BinaryToken(op)] + rest), depth, indices, start);
  }

  lemma FirstReady(t: Token, rest: seq<Token>, depth: nat, indices: seq<int>, start: nat)
    requires Arity(t) <= depth && StackSafe(rest, depth - Arity(t) + 1)
    requires Mapped(rest, indices, start)
    requires t.ColumnToken? ==> t.index < |indices| && indices[t.index] < start
    ensures StackSafe([t] + rest, depth) && Mapped([t] + rest, indices, start)
  {
    assert ([t] + rest)[1..] == rest;
  }

  /** One token in front of others. */
  lemma ProcessFirst(t: Token, rest: seq<Token>, s: State, start: nat, out: int, indices: seq<int>)
    requires StackSafe([t] + rest, |s.stack|) && Mapped([t] + rest, indices, start)
    ensures Arity(t) <= |s.stack| && Mapped([t], indices, start) && Mapped(rest, indices, start)
    ensures var s' := StepToken(t, rest == [], s, start, out, indices);
            && (rest == [] || StackSafe(rest, |s'.stack|))
            && Process([t] + rest, s, start, out, indices)
               == if rest == [] then s' else Process(rest, s', start, out, indices)
  {
    var ts := [t] + rest;
    assert ts[0] == t && ts[1..] == rest && t in ts;
    forall u | u in rest ensures u in ts {}
  }

  /** What processing an expression's tokens leaves behind when more tokens follow. */
  function AfterExpr(e: Expr, s: State, start: nat, indices: seq<int>): State
    requires ColumnsBelow(e, |indices|)
  {
    var k := Live(s.stack, start);
    State(s.stack + [OperandOf(e, start, k, indices)],
          Append(s.plan, Compile(e, start, k, Slot(start, k), indices)))
  }

  lemma LiveAfter(e: Expr, stack: seq<Operand>, start: nat, indices: seq<int>)
    requires ColumnsBelow(e, |indices|) && Indices(indices, start)
    ensures var k := Live(stack, start);
            Live(stack + [OperandOf(e, start, k, indices)], start) == After(e, start, k)
  {
    LivePush(stack, OperandOf(e, start, Live(stack, start), indices), start);
  }

  /** Processing an expression's tokens compiles it. */
  lemma {:induction false} ProcessCompiles(
    e: Expr, rest: seq<Token>, s: State, start: nat, out: int, indices: seq<int>)
    requires ColumnsBelow(e, |indices|) && Indices(indices, start)
    requires rest != [] && StackSafe(rest, |s.stack| + 1) && Mapped(rest, indices, start)
    ensures StackSafe(TokensThen(e, rest), |s.stack|) && Mapped(TokensThen(e, rest), indices, start)
    ensures Process(TokensThen(e, rest), s, start, out, indices)
            == Process(rest, AfterExpr(e, s, start, indices), start, out, indices)
    decreases e
  {
    TokensReady(e, rest, |s.stack|, indices, start);
    match e {
      case Column(i) =>
        ProcessFirst(ColumnToken(i), rest, s, start, out, indices);
        assert AfterExpr(e, s, start, indices).plan == s.plan;
      case Literal(t) =>
        ProcessFirst(LiteralToken(t), rest, s, start, out, indices);
        assert AfterExpr(e, s, start, indices).plan == s.plan;
      case Unary(op, a) =>
        var s1 := AfterExpr(a, s, start, indices);
        FirstReady(UnaryToken(op), rest, |s.stack| + 1, indices, start);
        ProcessCompiles(a, [UnaryToken(op)] + rest, s, start, out, indices);
        ProcessFirst(UnaryToken(op), rest, s1, start, out, indices);
        StepUnary(e, s, false, start, out, indices);
      case Binary(op, l, r) =>
        var s1 := AfterExpr(r, s, start, indices);
        var s2 := AfterExpr(l, s1, start, indices);
        var tail := [BinaryToken(op)] + rest;
        FirstReady(BinaryToken(op), rest, |s.stack| + 2, indices, start);
        TokensReady(l, tail, |s.stack| + 1, indices, start);
        ProcessCompiles(r, TokensThen(l, tail), s, start, out, indices);
        ProcessCompiles(l, tail, s1, start, out, indices);
        ProcessFirst(BinaryToken(op), rest, s2, start, out, indices);
        StepBinary(e, s, false, start, out, indices);
    }
  }

  lemma StepUnary(e: Expr, s: State, last: bool, start: nat, out: int, indices: seq<int>)
    requires e.Unary? && ColumnsBelow(e, |indices|)
    ensures var k := Live(s.stack, start);
            var s' := StepToken(UnaryToken(e.uop), last, AfterExpr(e.arg, s, start, indices), start, out, indices);
            if last then s'.plan == Append(s.plan, Compile(e, start, k, out, indices))
            else s' == AfterExpr(e, s, start, indices)
  {
    var k := Live(s.stack, start);
    var s1 := AfterExpr(e.arg, s, start, indices);
    var output := if last then out else Slot(start, k);
    assert s1.stack[..|s1.stack| - 1] == s.stack;
    var code := Compile(e.arg, start, k, Slot(start, k), indices);
    var emitted := EmitUnary(e.uop, OperandOf(e.arg, start, k, indices));
    AppendAssociative(s.plan, code, emitted);
    AppendAssociative(s.plan, Append(code, emitted), Output(output));
    AppendAssociative(code, emitted, Output(output));
  }

  lemma StepBinary(e: Expr, s: State, last: bool, start: nat, out: int, indices: seq<int>)
    requires e.Binary? && ColumnsBelow(e, |indices|) && Indices(indices, start)
    ensures var k := Live(s.stack, start);
            var s2 := AfterExpr(e.left, AfterExpr(e.right, s, start, indices), start, indices);
            var s' := StepToken(BinaryToken(e.op), last, s2, start, out, indices);
            if last then s'.plan == Append(s.plan, Compile(e, start, k, out, indices))
            else s' == AfterExpr(e, s, start, indices)
  {
    var k := Live(s.stack, start);
    var s1 := AfterExpr(e.right, s, start, indices);
    LiveAfter(e.right, s.stack, start, indices);
    var k' := After(e.right, start, k);
    var s2 := AfterExpr(e.left, s1, start, indices);
    var output := if last then out else Slot(start, k);
    assert s2.stack[..|s2.stack| - 2] == s.stack;
    var codeR := Compile(e.right, start, k, Slot(start, k), indices);
    var codeL := Compile(e.left, start, k', Slot(start, k'), indices);
    var emitted := EmitBinary(e.op, OperandOf(e.left, start, k', indices), OperandOf(e.right, start, k, indices));
    var own := Append(emitted, Output(output));
    AppendAssociative(Append(s.plan, codeR), codeL, emitted);
    AppendAssociative(s2.plan, emitted, Output(output));
    AppendAssociative(Append(s.plan, codeR), codeL, own);
    AppendAssociative(s.plan, codeR, Append(codeL, own));
  }

  lemma AppendAssociative(a: Plan, b: Plan, c: Plan)
    ensures Append(Append(a, b), c) == Append(a, Append(b, c))
  {
  }

  /** The whole of `add_expression_to_plan` on an operator expression: the compiled code is appended,
      with the last operation writing the expression's output register. */
  lemma PlanIsCompiled(e: Expr, plan: Plan, start: nat, out: int, indices: seq<int>)
    requires e.IsOperator() && ColumnsBelow(e, |indices|) && Indices(indices, start)
    ensures StackSafe(ReverseTokens(e), 0) && Mapped(ReverseTokens(e), indices, start)
    ensures Process(ReverseTokens(e), State([], plan), start, out, indices).plan
            == Append(plan, Compile(e, start, 0, out, indices))
  {
    var s := State([], plan);
    TokensReady(e, [], 0, indices, start);
    match e {
      case Unary(op, a) =>
        var s1 := AfterExpr(a, s, start, indices);
        FirstReady(UnaryToken(op), [], 1, indices, start);
        ProcessCompiles(a, [UnaryToken(op)] + [], s, start, out, indices);
        ProcessFirst(UnaryToken(op), [], s1, start, out, indices);
        StepUnary(e, s, true, start, out, indices);
      case Binary(op, l, r) =>
        var s1 := AfterExpr(r, s, start, indices);
        var s2 := AfterExpr(l, s1, start, indices);
        var tail := [BinaryToken(op)] + [];
        FirstReady(BinaryToken(op), [], 2, indices, start);
        TokensReady(l, tail, 1, indices, start);
        ProcessCompiles(r, TokensThen(l, tail), s, start, out, indices);
        ProcessCompiles(l, tail, s1, start, out, indices);
        ProcessFirst(BinaryToken(op), [], s2, start, out, indices);
        StepBinary(e, s, true, start, out, indices);
    }
  }

  // ----- alignment of the vectors ---------------------------------------------------------------

  function OperatorCount(e: Expr): nat {
    match e
    case Unary(_, a) => 1 + OperatorCount(a)
    case Binary(_, l, r) => 1 + OperatorCount(l) + OperatorCount(r)
    case _ => 0
  }

  function UnaryOnLiterals(e: Expr): nat {
    match e
    case Unary(_, a) => (if a.Literal? then 1 else 0) + UnaryOnLiterals(a)
    case Binary(_, l, r) => UnaryOnLiterals(l) + UnaryOnLiterals(r)
    case _ => 0
  }

  function BinaryOnLiterals(e: Expr): nat {
    match e
    case Unary(_, a) => BinaryOnLiterals(a)
    case Binary(_, l, r) =>
      (if l.Literal? && r.Literal? then 1 else 0) + BinaryOnLiterals(l) + BinaryOnLiterals(r)
    case _ => 0
  }

  /** n operations, u of them unary on a literal, b binary on two literals. */
  ghost predicate Lengths(p: Plan, n: int, u: int, b: int) {
    && |p.outputs| == |p.operators| == |p.unaryOperators| == n
    && |p.leftInputs| == n - u
    && |p.rightInputs| == |p.leftScalars| == |p.rightScalars| == n - u - b
  }

  lemma AppendLengths(p: Plan, q: Plan, n: int, u: int, b: int, n': int, u': int, b': int)
    requires Lengths(p, n, u, b) && Lengths(q, n', u', b')
    ensures Lengths(Append(p, q), n + n', u + u', b + b')
  {
  }

  lemma {:induction false} VectorLengths(e: Expr, start: nat, k: nat, out: int, indices: seq<int>)
    requires ColumnsBelow(e, |indices|)
    ensures Lengths(Compile(e, start, k, out, indices), OperatorCount(e), UnaryOnLiterals(e), BinaryOnLiterals(e))
  {
    match e
    case Unary(op, a) =>
      VectorLengths(a, start, k, Slot(start, k), indices);
      var own := Append(EmitUnary(op, OperandOf(a, start, k, indices)), Output(out));
      var u := if a.Literal? then 1 else 0;
      assert Lengths(own, 1, u, 0);
      AppendLengths(Compile(a, start, k, Slot(start, k), indices), own,
                    OperatorCount(a), UnaryOnLiterals(a), BinaryOnLiterals(a), 1, u, 0);
    case Binary(op, l, r) =>
      var k' := After(r, start, k);
      VectorLengths(r, start, k, Slot(start, k), indices);
      VectorLengths(l, start, k', Slot(start, k'), indices);
      var own := Append(EmitBinary(op, OperandOf(l, start, k', indices), OperandOf(r, start, k, indices)), Output(out));
      var b := if l.Literal? && r.Literal? then 1 else 0;
      assert Lengths(own, 1, 0, b);
      var codeL := Compile(l, start, k', Slot(start, k'), indices);
      AppendLengths(codeL, own, OperatorCount(l), UnaryOnLiterals(l), BinaryOnLiterals(l), 1, 0, b);
      AppendLengths(Compile(r, start, k, Slot(start, k), indices), Append(codeL, own),
                    OperatorCount(r), UnaryOnLiterals(r), BinaryOnLiterals(r),
                    1 + OperatorCount(l), UnaryOnLiterals(l), b + BinaryOnLiterals(l));
    case _ =>
  }

  lemma {:induction false} LiteralOnlyCounted(e: Expr)
    ensures UnaryOnLiterals(e) + BinaryOnLiterals(e) > 0 <==> HasLiteralOnly(e)
  {
    match e
    case Unary(_, a) => LiteralOnlyCounted(a);
    case Binary(_, l, r) => LiteralOnlyCounted(l); LiteralOnlyCounted(r);
    case _ =>
  }

  /** The vectors stay parallel exactly when no operator has only literal operands. */
  lemma AlignedIff(e: Expr, plan: Plan, start: nat, k: nat, out: int, indices: seq<int>)
    requires ColumnsBelow(e, |indices|) && Aligned(plan)
    ensures Aligned(Compile(e, start, k, out, indices)) <==> !HasLiteralOnly(e)
    ensures Aligned(Append(plan, Compile(e, start, k, out, indices))) <==> !HasLiteralOnly(e)
  {
    VectorLengths(e, start, k, out, indices);
    LiteralOnlyCounted(e);
  }

  // ----- registers needed -----------------------------------------------------------------------

  /** Temporaries the code of an expression uses besides its output register. */
  function TempNeed(e: Expr): nat
    decreases e, 0
  {
    match e
    case Unary(_, a) => Need(a)
    case Binary(_, l, r) => Max(Need(r), (if r.IsOperator() then 1 else 0) + Need(l))
    case _ => 0
  }

  /** The same when the output is itself a temporary. */
  function Need(e: Expr): nat
    decreases e, 1
  {
    if e.IsOperator() then Max(1, TempNeed(e)) else 0
  }

  lemma {:induction false} NeedAtMostHeight(e: Expr)
    ensures Need(e) <= Height(e) && TempNeed(e) <= Height(e)
  {
    match e
    case Unary(_, a) => NeedAtMostHeight(a);
    case Binary(_, l, r) => NeedAtMostHeight(l); NeedAtMostHeight(r);
    case _ =>
  }

  // ----- meaning is preserved -------------------------------------------------------------------

  /** The registers hold the columns the expression mentions. */
  ghost predicate Loaded<V>(e: Expr, indices: seq<int>, row: Row<V>, regs: seq<V>, valid: seq<bool>)
    requires ColumnsBelow(e, |indices|) && RowOf(row, |indices|)
  {
    match e
    case Column(i) =>
      && 0 <= indices[i] < |valid| && indices[i] < |regs|
      && regs[indices[i]] == row.values[i] && valid[indices[i]] == row.valid[i]
    case Literal(_) => true
    case Unary(_, a) => Loaded(a, indices, row, regs, valid)
    case Binary(_, l, r) => Loaded(l, indices, row, regs, valid) && Loaded(r, indices, row, regs, valid)
  }

  /** Registers below `limit`, `out` excepted, are as before. */
  ghost predicate Keeps<V>(regs: seq<V>, regs': seq<V>, limit: int, out: int) {
    |regs'| == |regs| && forall i :: 0 <= i < limit && i < |regs| && i != out ==> regs'[i] == regs[i]
  }

  lemma {:induction false} LoadedKept<V>(
    e: Expr, indices: seq<int>, row: Row<V>, regs: seq<V>, regs': seq<V>, valid: seq<bool>, limit: int, out: int)
    requires ColumnsBelow(e, |indices|) && RowOf(row, |indices|)
    requires Loaded(e, indices, row, regs, valid) && Keeps(regs, regs', limit, out)
    requires |valid| <= limit && |valid| <= out
    ensures Loaded(e, indices, row, regs', valid)
  {
    match e
    case Unary(_, a) => LoadedKept(a, indices, row, regs, regs', valid, limit, out);
    case Binary(_, l, r) =>
      LoadedKept(l, indices, row, regs, regs', valid, limit, out);
      LoadedKept(r, indices, row, regs, regs', valid, limit, out);
    case _ =>
  }

  /** The operand an expression leaves on the stack holds its value. */
  ghost predicate Holds<V>(alu: Alu<V>, e: Expr, o: Operand, row: Row<V>, regs: seq<V>)
    requires |row.valid| == |row.values| && ColumnsBelow(e, |row.values|)
  {
    match o
    case LiteralOperand(t) => e == Literal(t)
    case RegisterOperand(p) => 0 <= p < |regs| && regs[p] == Eval(alu, e, row)
  }

  /** The code of an expression, run from registers that hold its columns, leaves its value in the
      output register and everything below the temporaries untouched, provided that COALESCE and the
      null tests have a column to look at; otherwise the run leaves the mask table. */
  ghost predicate Computes<V>(
    alu: Alu<V>, e: Expr, code: seq<Instruction>, limit: int, out: int, row: Row<V>, regs: seq<V>, valid: seq<bool>)
    requires |row.valid| == |row.values| && ColumnsBelow(e, |row.values|)
  {
    match Run(alu, code, regs, valid)
    case None => !ProbesColumnsOnly(alu, e)
    case Some(regs') =>
      && ProbesColumnsOnly(alu, e)
      && Keeps(regs, regs', limit, out)
      && 0 <= out < |regs'| && regs'[out] == Eval(alu, e, row)
  }

  lemma RunOne<V>(alu: Alu<V>, i: Instruction, regs: seq<V>, valid: seq<bool>)
    ensures Run(alu, [i], regs, valid) == Step(alu, i, regs, valid)
  {
    assert [i][1..] == [];
    match Step(alu, i, regs, valid) {
      case None =>
      case Some(r) => assert Run(alu, [], r, valid) == Some(r);
    }
  }

  /** The operation of a unary operator, its operand in place. */
  lemma RunUnary<V>(alu: Alu<V>, e: Expr, o: Operand, limit: int, out: int, row: Row<V>, regs: seq<V>, valid: seq<bool>)
    requires e.Unary? && !e.arg.Literal?
    requires |row.valid| == |row.values| && ColumnsBelow(e, |row.values|)
    requires Holds(alu, e.arg, o, row, regs) && o.RegisterOperand?
    requires if e.arg.Column? then o.position < |valid| && valid[o.position] == row.valid[e.arg.index]
             else o.position >= |valid|
    requires 0 <= out < |regs| && ProbesColumnsOnly(alu, e.arg)
    ensures var p := Append(EmitUnary(e.uop, o), Output(out));
            Aligned(p) && Computes(alu, e, Instructions(p), limit, out, row, regs, valid)
  {
    var p := Append(EmitUnary(e.uop, o), Output(out));
    var i := InstructionAt(p, 0);
    assert Instructions(p) == [i];
    RunOne(alu, i, regs, valid);
  }

  lemma RunBinary<V>(
    alu: Alu<V>, e: Expr, ol: Operand, or: Operand, limit: int, out: int, row: Row<V>, regs: seq<V>, valid: seq<bool>)
    requires e.Binary? && !(e.left.Literal? && e.right.Literal?)
    requires |row.valid| == |row.values| && ColumnsBelow(e, |row.values|)
    requires Holds(alu, e.left, ol, row, regs) && Holds(alu, e.right, or, row, regs)
    requires e.left.Literal? <==> ol.LiteralOperand?
    requires e.right.Literal? <==> or.LiteralOperand?
    requires if e.left.Column? then ol.position < |valid| && valid[ol.position] == row.valid[e.left.index]
             else ol.RegisterOperand? ==> ol.position >= |valid|
    requires 0 <= out < |regs| && ProbesColumnsOnly(alu, e.left) && ProbesColumnsOnly(alu, e.right)
    ensures var p := Append(EmitBinary(e.op, ol, or), Output(out));
            Aligned(p) && Computes(alu, e, Instructions(p), limit, out, row, regs, valid)
  {
    var p := Append(EmitBinary(e.op, ol, or), Output(out));
    var i := InstructionAt(p, 0);
    assert Instructions(p) == [i];
    RunOne(alu, i, regs, valid);
  }

  /** What `CompileComputes` asks of its surroundings. */
  ghost predicate Ready<V>(
    e: Expr, start: nat, k: nat, need: nat, indices: seq<int>, row: Row<V>, regs: seq<V>, valid: seq<bool>)
  {
    && ColumnsBelow(e, |indices|) && RowOf(row, |indices|) && !HasLiteralOnly(e)
    && Loaded(e, indices, row, regs, valid) && |valid| <= start
    && start + k + need <= PROCESSING_SPACES && start + k + need <= |regs|
  }

  /** A subexpression: its code leaves its operand in place and disturbs no temporary below. */
  ghost predicate Delivers<V>(
    alu: Alu<V>, e: Expr, start: nat, k: nat, indices: seq<int>, row: Row<V>, regs: seq<V>, valid: seq<bool>)
    requires ColumnsBelow(e, |indices|) && RowOf(row, |indices|)
  {
    var p := Compile(e, start, k, Slot(start, k), indices);
    Aligned(p) &&
    match Run(alu, Instructions(p), regs, valid)
    case None => !ProbesColumnsOnly(alu, e)
    case Some(regs') =>
      && ProbesColumnsOnly(alu, e)
      && Keeps(regs, regs', start + k, -1)
      && Holds(alu, e, OperandOf(e, start, k, indices), row, regs')
  }

  lemma {:induction false} SubexpressionDelivers<V>(
    alu: Alu<V>, e: Expr, start: nat, k: nat, indices: seq<int>, row: Row<V>, regs: seq<V>, valid: seq<bool>)
    requires Ready(e, start, k, Need(e), indices, row, regs, valid)
    ensures Delivers(alu, e, start, k, indices, row, regs, valid)
    decreases e, 1
  {
    if e.IsOperator() {
      CompileComputes(alu, e, start, k, Slot(start, k), indices, row, regs, valid);
    } else {
      assert Instructions(EMPTY_PLAN) == [];
    }
  }

  /** The code of a binary operator after its right operand's. */
  function LeftAndOwn(e: Expr, start: nat, k: nat, out: int, indices: seq<int>): Plan
    requires e.Binary? && ColumnsBelow(e, |indices|)
  {
    var k' := After(e.right, start, k);
    Append(Compile(e.left, start, k', Slot(start, k'), indices),
           Append(EmitBinary(e.op, OperandOf(e.left, start, k', indices), OperandOf(e.right, start, k, indices)),
                  Output(out)))
  }

  /** Left operand and operation, with the right operand in place. */
  lemma {:induction false} LeftAndOwnComputes<V>(
    alu: Alu<V>, e: Expr, start: nat, k: nat, out: int, indices: seq<int>, row: Row<V>, regs: seq<V>, valid: seq<bool>)
    requires e.Binary? && Ready(e, start, k, TempNeed(e), indices, row, regs, valid)
    requires |valid| <= out < |regs|
    requires ProbesColumnsOnly(alu, e.right)
    requires Holds(alu, e.right, OperandOf(e.right, start, k, indices), row, regs)
    ensures var p := LeftAndOwn(e, start, k, out, indices);
            Aligned(p) && Computes(alu, e, Instructions(p), start + k, out, row, regs, valid)
    decreases e, 0, 0
  {
    var l, r := e.left, e.right;
    var k' := After(r, start, k);
    var code := Compile(l, start, k', Slot(start, k'), indices);
    var ol, or := OperandOf(l, start, k', indices), OperandOf(r, start, k, indices);
    var own := Append(EmitBinary(e.op, ol, or), Output(out));
    SubexpressionDelivers(alu, l, start, k', indices, row, regs, valid);
    AppendInstructions(code, own);
    RunConcat(alu, Instructions(code), Instructions(own), regs, valid);
    match Run(alu, Instructions(code), regs, valid) {
      case None =>
      case Some(regs') =>
        LoadedKept(l, indices, row, regs, regs', valid, start + k', start + k');
        LoadedKept(r, indices, row, regs, regs', valid, start + k', start + k');
        RunBinary(alu, e, ol, or, start + k, out, row, regs', valid);
    }
  }

  /** Compilation preserves meaning. */
  lemma {:induction false} CompileComputes<V>(
    alu: Alu<V>, e: Expr, start: nat, k: nat, out: int, indices: seq<int>, row: Row<V>, regs: seq<V>, valid: seq<bool>)
    requires e.IsOperator() && Ready(e, start, k, TempNeed(e), indices, row, regs, valid)
    requires |valid| <= out < |regs|
    ensures var p := Compile(e, start, k, out, indices);
            Aligned(p) && Computes(alu, e, Instructions(p), start + k, out, row, regs, valid)
    decreases e, 0, 1
  {
    match e {
      case Unary(op, a) =>
        UnaryComputes(alu, e, start, k, out, indices, row, regs, valid);
      case Binary(op, l, r) =>
        SubexpressionDelivers(alu, r, start, k, indices, row, regs, valid);
        var code := Compile(r, start, k, Slot(start, k), indices);
        var own := LeftAndOwn(e, start, k, out, indices);
        AlignedIff(e, EMPTY_PLAN, start, k, out, indices);
        assert Compile(e, start, k, out, indices) == Append(code, own);
        AppendInstructions(code, own);
        RunConcat(alu, Instructions(code), Instructions(own), regs, valid);
        match Run(alu, Instructions(code), regs, valid) {
          case None =>
          case Some(regs') =>
            LoadedKept(e, indices, row, regs, regs', valid, start + k, start + k);
            LeftAndOwnComputes(alu, e, start, k, out, indices, row, regs', valid);
        }
    }
  }

  lemma {:induction false} UnaryComputes<V>(
    alu: Alu<V>, e: Expr, start: nat, k: nat, out: int, indices: seq<int>, row: Row<V>, regs: seq<V>, valid: seq<bool>)
    requires e.Unary? && Ready(e, start, k, TempNeed(e), indices, row, regs, valid)
    requires |valid| <= out < |regs|
    ensures var p := Compile(e, start, k, out, indices);
            Aligned(p) && Computes(alu, e, Instructions(p), start + k, out, row, regs, valid)
    decreases e, 0, 0
  {
    var a := e.arg;
    SubexpressionDelivers(alu, a, start, k, indices, row, regs, valid);
    var code := Compile(a, start, k, Slot(start, k), indices);
    var o := OperandOf(a, start, k, indices);
    var own := Append(EmitUnary(e.uop, o), Output(out));
    AppendInstructions(code, own);
    RunConcat(alu, Instructions(code), Instructions(own), regs, valid);
    match Run(alu, Instructions(code), regs, valid) {
      case None =>
      case Some(regs') =>
        LoadedKept(a, indices, row, regs, regs', valid, start + k, start + k);
        RunUnary(alu, e, o, start + k, out, row, regs', valid);
    }
  }
}
