/** The register machine one GPU thread runs for one row: parallel instruction vectors over a register
    file that starts with the input columns. */
module RegisterMachine {
  import opened CalciteExpression

  const UNARY_INDEX := -1
  const SCALAR_INDEX := -2
  const SCALAR_NULL_INDEX := -3

  datatype Option<+T> = None | Some(value: T)

  datatype Scalar = DummyScalar | TextScalar(text: string)

  /** The seven vectors a plan consists of; entry i of each belongs to operation i. */
  datatype Plan = Plan(
    leftInputs: seq<int>, rightInputs: seq<int>, outputs: seq<int>,
    operators: seq<GdfBinary>, unaryOperators: seq<GdfUnary>,
    leftScalars: seq<Scalar>, rightScalars: seq<Scalar>)

  const EMPTY_PLAN := Plan([], [], [], [], [], [], [])

  datatype Instruction = Instruction(
    left: int, right: int, output: int, op: GdfBinary, uop: GdfUnary, leftScalar: Scalar, rightScalar: Scalar)

  predicate Aligned(p: Plan) {
    |p.leftInputs| == |p.rightInputs| == |p.outputs| == |p.operators| == |p.unaryOperators|
    == |p.leftScalars| == |p.rightScalars|
  }

  function InstructionAt(p: Plan, i: nat): Instruction
    requires Aligned(p) && i < |p.outputs|
  {
    Instruction(p.leftInputs[i], p.rightInputs[i], p.outputs[i], p.operators[i], p.unaryOperators[i],
                p.leftScalars[i], p.rightScalars[i])
  }

  function Instructions(p: Plan): (s: seq<Instruction>)
    requires Aligned(p)
    ensures |s| == |p.outputs|
    ensures forall i :: 0 <= i < |s| ==> s[i] == InstructionAt(p, i)
  {
    seq(|p.outputs|, i requires 0 <= i < |p.outputs| => InstructionAt(p, i))
  }

  function Append(p: Plan, q: Plan): Plan {
    Plan(p.leftInputs + q.leftInputs, p.rightInputs + q.rightInputs, p.outputs + q.outputs,
         p.operators + q.operators, p.unaryOperators + q.unaryOperators,
         p.leftScalars + q.leftScalars, p.rightScalars + q.rightScalars)
  }

  lemma AppendInstructions(p: Plan, q: Plan)
    requires Aligned(p) && Aligned(q)
    ensures Aligned(Append(p, q)) && Instructions(Append(p, q)) == Instructions(p) + Instructions(q)
  {
  }

  /** A value fetched for an operand: a register, the operation's scalar, or whatever was there. */
  function Fetch<V>(alu: Alu<V>, position: int, scalar: Scalar, regs: seq<V>): Option<V> {
    if position == SCALAR_INDEX then
      (match scalar case TextScalar(t) => Some(alu.scalar(t)) case DummyScalar => Some(alu.junk))
    else if position >= |regs| then None
    else if position >= 0 then Some(regs[position])
    else Some(alu.junk)
  }

  /** Registers past the input columns have no validity mask; probing one reads out of bounds. */
  predicate ProbeInBounds<V>(alu: Alu<V>, i: Instruction, columns: nat) {
    (if i.right == UNARY_INDEX then ProbesUnary(alu, i.uop) else ProbesBinary(alu, i.op))
    ==> 0 <= i.left < columns
  }

  /** `process_operator`; None where the kernel would leave the register file or the mask table. */
  function Step<V>(alu: Alu<V>, i: Instruction, regs: seq<V>, valid: seq<bool>): Option<seq<V>> {
    if !ProbeInBounds(alu, i, |valid|) || !(0 <= i.output < |regs|) then None
    else
      var leftValid := if 0 <= i.left < |valid| then valid[i.left] else true;
      match Fetch(alu, i.left, i.leftScalar, regs)
      case None => None
      case Some(l) =>
        if i.right == UNARY_INDEX then
          Some(regs[i.output := ApplyUnary(alu, i.uop, leftValid, l)])
        else
          match Fetch(alu, i.right, i.rightScalar, regs)
          case None => None
          case Some(r) => Some(regs[i.output := ApplyBinary(alu, i.op, leftValid, l, r)])
  }

  function Run<V>(alu: Alu<V>, code: seq<Instruction>, regs: seq<V>, valid: seq<bool>): (r: Option<seq<V>>)
    ensures r.Some? ==> |r.value| == |regs|
  {
    if code == [] then Some(regs)
    else
      match Step(alu, code[0], regs, valid)
      case None => None
      case Some(regs') => Run(alu, code[1..], regs', valid)
  }

  lemma {:induction false} RunConcat<V>(
    alu: Alu<V>, a: seq<Instruction>, b: seq<Instruction>, regs: seq<V>, valid: seq<bool>)
    ensures Run(alu, a + b, regs, valid)
            == (match Run(alu, a, regs, valid) case None => None case Some(regs') => Run(alu, b, regs', valid))
  {
    if a == [] {
      assert a + b == b;
    } else {
      assert (a + b)[0] == a[0] && (a + b)[1..] == a[1..] + b;
      match Step(alu, a[0], regs, valid) {
        case None =>
        case Some(regs') => RunConcat(alu, a[1..], b, regs', valid);
      }
    }
  }

  /** The largest output register, from which `perform_operation` sizes the register file. */
  method MaxOutput(outputs: seq<int>) returns (maxOutput: int)
    ensures maxOutput >= 0 && forall i :: 0 <= i < |outputs| ==> outputs[i] <= maxOutput
    ensures maxOutput == 0 || maxOutput in outputs
  {
    maxOutput := 0;
    for i := 0 to |outputs|
      invariant maxOutput >= 0 && forall j :: 0 <= j < i ==> outputs[j] <= maxOutput
      invariant maxOutput == 0 || maxOutput in outputs
    {
      if maxOutput < outputs[i] {
        maxOutput := outputs[i];
      }
    }
  }
}
