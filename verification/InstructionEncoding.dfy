/** How the instructions of compiled expressions are encoded: register numbers from 0 on, -1 for the missing operand
    of a unary operation, -2 for a scalar and -3 for the scalar null (src/LogicalFilter.cpp). */
module InstructionEncoding {
  import opened CalciteExpression
  import opened RegisterMachine
  import opened LogicalFilter
  import opened ExpressionCompiler
  import opened Projection

  predicate EncodedOperand(position: int, scalar: Scalar) {
    match scalar
    case DummyScalar => position >= 0
    case TextScalar(text) => position == if text == "null" then -3 else -2
  }

  /** One operation, unary or binary, with its operands. */
  predicate Encoded(i: Instruction) {
    && EncodedOperand(i.left, i.leftScalar)
    && if i.right == -1 then i.op == GdfInvalidBinary && i.left >= 0 && i.rightScalar == DummyScalar
       else i.uop == BlzInvalidUnary && EncodedOperand(i.right, i.rightScalar)
  }

  ghost predicate AllEncoded(p: Plan) {
    Aligned(p) && forall i :: 0 <= i < |p.outputs| ==> Encoded(InstructionAt(p, i))
  }

  lemma AppendEncoded(p: Plan, q: Plan)
    requires AllEncoded(p) && AllEncoded(q)
    ensures AllEncoded(Append(p, q))
  {
    AppendInstructions(p, q);
    var all := Append(p, q);
    forall i | 0 <= i < |all.outputs|
      ensures Encoded(InstructionAt(all, i))
    {
      assert InstructionAt(all, i) == Instructions(all)[i];
      assert i < |p.outputs| ==> Instructions(all)[i] == InstructionAt(p, i);
      assert i >= |p.outputs| ==> Instructions(all)[i] == InstructionAt(q, i - |p.outputs|);
    }
  }

  predicate IsOperand(o: Operand) {
    o.RegisterOperand? ==> o.position >= 0
  }

  lemma BinaryEncoded(op: GdfBinary, l: Operand, r: Operand, out: int)
    requires IsOperand(l) && IsOperand(r) && !(l.LiteralOperand? && r.LiteralOperand?)
    ensures AllEncoded(Append(EmitBinary(op, l, r), Output(out)))
    ensures Append(EmitBinary(op, l, r), Output(out)).operators == [op]
  {
  }

  lemma UnaryEncoded(op: GdfUnary, a: Operand, out: int)
    requires IsOperand(a) && a.RegisterOperand?
    ensures AllEncoded(Append(EmitUnary(op, a), Output(out)))
    ensures Append(EmitUnary(op, a), Output(out)).unaryOperators == [op]
  {
  }

  /** The columns the expression mentions have registers. */
  ghost predicate HasRegisters(e: Expr, indices: seq<int>) {
    forall c :: 0 <= c < |indices| && Mentions(e, c) ==> indices[c] >= 0
  }

  lemma OperandInPlace(e: Expr, start: nat, k: nat, indices: seq<int>)
    requires ColumnsBelow(e, |indices|) && HasRegisters(e, indices) && start + k + Need(e) <= PROCESSING_SPACES
    ensures IsOperand(OperandOf(e, start, k, indices))
  {
    assert e.Column? ==> Mentions(e, e.index);
  }

  /** Every instruction of a compiled expression is encoded so. */
  lemma {:induction false} CompiledEncoded(e: Expr, start: nat, k: nat, out: int, indices: seq<int>)
    requires ColumnsBelow(e, |indices|) && HasRegisters(e, indices) && !HasLiteralOnly(e)
    requires start + k + TempNeed(e) <= 512
    ensures AllEncoded(Compile(e, start, k, out, indices))
    decreases e
  {
    match e
    case Unary(op, a) =>
      var o := OperandOf(a, start, k, indices);
      OperandInPlace(a, start, k, indices);
      CompiledEncoded(a, start, k, Slot(start, k), indices);
      UnaryEncoded(op, o, out);
      AppendEncoded(Compile(a, start, k, Slot(start, k), indices), Append(EmitUnary(op, o), Output(out)));
    case Binary(op, l, r) =>
      var k' := After(r, start, k);
      var ol, or := OperandOf(l, start, k', indices), OperandOf(r, start, k, indices);
      OperandInPlace(r, start, k, indices);
      OperandInPlace(l, start, k', indices);
      CompiledEncoded(r, start, k, Slot(start, k), indices);
      CompiledEncoded(l, start, k', Slot(start, k'), indices);
      BinaryEncoded(op, ol, or, out);
      var own := Append(EmitBinary(op, ol, or), Output(out));
      var codeL := Compile(l, start, k', Slot(start, k'), indices);
      AppendEncoded(codeL, own);
      AppendEncoded(Compile(r, start, k, Slot(start, k), indices), Append(codeL, own));
    case _ =>
  }

  /** Without a register operand, what is missing is missing: of two literals only the place of the left one is
      appended, and of a unary operation's literal nothing. */
  lemma LiteralsEncoded(op: GdfBinary, uop: GdfUnary, left: string, right: string)
    ensures EmitBinary(op, LiteralOperand(left), LiteralOperand(right)) == Plan([-2], [], [], [op], [BlzInvalidUnary], [], [])
    ensures EmitUnary(uop, LiteralOperand(left)) == Plan([], [], [], [GdfInvalidBinary], [uop], [], [])
  {
  }
}
