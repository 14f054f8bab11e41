/** `add_expression_to_plan`: prefix tokens to register code, with first-fit temporaries.

    The specification allocates by counting: the temporaries in use are always the lowest ones, in the
    order in which they lie on the operand stack. The method searches the array of free positions, as
    the source does, and is proved to make the same choices. A temporary is freed as soon as the operator
    that reads it is met, so that the operator's own output may reuse its register. */
module LogicalFilter {
  import opened CalciteExpression
  import opened RegisterMachine

  const PROCESSING_SPACES := 512

  /** An entry of the operand stack. */
  datatype Operand = LiteralOperand(text: string) | RegisterOperand(position: int)

  // ----- what is emitted ------------------------------------------------------------------------

  function ScalarPosition(text: string): int {
    if text == "null" then SCALAR_NULL_INDEX else SCALAR_INDEX
  }

  /** With two literals the source fills in the left position only. */
  function EmitBinary(op: GdfBinary, l: Operand, r: Operand): Plan {
    var left := match l case LiteralOperand(t) => ScalarPosition(t) case RegisterOperand(p) => p;
    var right := match r case LiteralOperand(t) => ScalarPosition(t) case RegisterOperand(p) => p;
    if l.LiteralOperand? && r.LiteralOperand? then
      Plan([SCALAR_INDEX], [], [], [op], [BlzInvalidUnary], [], [])
    else
      Plan([left], [right], [], [op], [BlzInvalidUnary],
           [if l.LiteralOperand? then TextScalar(l.text) else DummyScalar],
           [if r.LiteralOperand? then TextScalar(r.text) else DummyScalar])
  }

  /** A unary operator on a literal gets no operands at all. */
  function EmitUnary(op: GdfUnary, a: Operand): Plan {
    match a
    case LiteralOperand(_) => Plan([], [], [], [GdfInvalidBinary], [op], [], [])
    case RegisterOperand(p) =>
      Plan([p], [UNARY_INDEX], [], [GdfInvalidBinary], [op], [DummyScalar], [DummyScalar])
  }

  function Output(position: int): Plan {
    Plan([], [], [position], [], [], [], [])
  }

  // ----- the token machine ----------------------------------------------------------------------

  datatype State = State(stack: seq<Operand>, plan: Plan)

  predicate IsTemporary(o: Operand, start: nat) {
    o.RegisterOperand? && o.position >= start
  }

  /** Temporaries on the stack. */
  function Live(stack: seq<Operand>, start: nat): nat {
    if stack == [] then 0
    else Live(stack[..|stack| - 1], start) + (if IsTemporary(stack[|stack| - 1], start) then 1 else 0)
  }

  /** The register the k-th temporary gets; -1 once the 512 positions are used up. */
  function Slot(start: nat, k: nat): int {
    if start + k < PROCESSING_SPACES then start + k else -1
  }

  function Arity(t: Token): nat {
    match t
    case BinaryToken(_) => 2
    case UnaryToken(_) => 1
    case _ => 0
  }

  predicate IsOperatorToken(t: Token) {
    t.BinaryToken? || t.UnaryToken? || t.OtherToken?
  }

  /** The stack never runs empty under an operator. */
  predicate StackSafe(tokens: seq<Token>, depth: nat) {
    tokens == [] ||
    (Arity(tokens[0]) <= depth && StackSafe(tokens[1..], depth - Arity(tokens[0]) + 1))
  }

  /** Every column token has a place among the inputs. */
  predicate Mapped(tokens: seq<Token>, indices: seq<int>, start: nat) {
    forall t :: t in tokens && t.ColumnToken? ==> t.index < |indices| && indices[t.index] < start
  }

  /** What an operator token pops and emits. */
  function Operands(t: Token, stack: seq<Operand>): Plan
    requires Arity(t) <= |stack|
  {
    match t
    case BinaryToken(op) => EmitBinary(op, stack[|stack| - 1], stack[|stack| - 2])
    case UnaryToken(op) => EmitUnary(op, stack[|stack| - 1])
    case _ => EMPTY_PLAN
  }

  function StepToken(t: Token, last: bool, s: State, start: nat, out: int, indices: seq<int>): State
    requires Arity(t) <= |s.stack| && Mapped([t], indices, start)
  {
    assert t in [t];
    if IsOperatorToken(t) then
      var rest := s.stack[..|s.stack| - Arity(t)];
      var output := if last then out else Slot(start, Live(rest, start));
      State(if last then rest else rest + [RegisterOperand(output)],
            Append(Append(s.plan, Operands(t, s.stack)), Output(output)))
    else
      s.(stack := s.stack + [if t.LiteralToken? then LiteralOperand(t.text)
                             else RegisterOperand(indices[t.index])])
  }

  function Process(tokens: seq<Token>, s: State, start: nat, out: int, indices: seq<int>): State
    requires StackSafe(tokens, |s.stack|) && Mapped(tokens, indices, start)
    decreases |tokens|
  {
    if tokens == [] then s
    else
      assert tokens[0] in tokens;
      var s' := StepToken(tokens[0], |tokens| == 1, s, start, out, indices);
      assert |tokens| > 1 ==> |s'.stack| == |s.stack| - Arity(tokens[0]) + 1;
      if |tokens| == 1 then s'
      else Process(tokens[1..], s', start, out, indices)
  }

  // ----- the allocator --------------------------------------------------------------------------

  /** The temporaries on the stack are start, start + 1, ... from the bottom up. */
  ghost predicate InOrder(stack: seq<Operand>, start: nat) {
    forall j :: 0 <= j < |stack| && IsTemporary(stack[j], start)
      ==> stack[j].position == start + Live(stack[..j], start) < PROCESSING_SPACES
  }

  /** The array of the source: input and output registers are never free, and among the temporaries
      exactly those on the stack are taken. */
  ghost predicate FreeMatches(free: seq<bool>, start: nat, live: nat) {
    && |free| == PROCESSING_SPACES
    && start + live <= PROCESSING_SPACES
    && forall p :: 0 <= p < |free| ==> (free[p] <==> start + live <= p)
  }

  lemma LivePush(stack: seq<Operand>, o: Operand, start: nat)
    ensures Live(stack + [o], start) == Live(stack, start) + (if IsTemporary(o, start) then 1 else 0)
  {
    assert (stack + [o])[..|stack|] == stack;
  }

  lemma InOrderPush(stack: seq<Operand>, o: Operand, start: nat)
    requires InOrder(stack, start)
    requires IsTemporary(o, start) ==> o.position == start + Live(stack, start) < PROCESSING_SPACES
    ensures InOrder(stack + [o], start)
  {
    var s := stack + [o];
    forall j | 0 <= j < |s| && IsTemporary(s[j], start)
      ensures s[j].position == start + Live(s[..j], start) < PROCESSING_SPACES
    {
      assert s[..j] == stack[..j];
      assert j == |stack| ==> stack[..j] == stack;
    }
  }

  lemma InOrderPop(stack: seq<Operand>, start: nat)
    requires InOrder(stack, start) && |stack| > 0
    ensures InOrder(stack[..|stack| - 1], start)
    ensures IsTemporary(stack[|stack| - 1], start)
            ==> stack[|stack| - 1].position == start + Live(stack[..|stack| - 1], start) < PROCESSING_SPACES
  {
    var s := stack[..|stack| - 1];
    forall j | 0 <= j < |s| && IsTemporary(s[j], start)
      ensures s[j].position == start + Live(s[..j], start) < PROCESSING_SPACES
    {
      assert s[..j] == stack[..j];
    }
  }

  /** The first free position from `start` on, or -1. */
  ghost predicate FirstOpen(free: seq<bool>, start: nat, index: int) {
    if index == -1 then forall p :: start <= p < |free| ==> !free[p]
    else start <= index < |free| && free[index] && forall p :: start <= p < index ==> !free[p]
  }

  /** Takes the first free position from `startPosition` on. */
  method GetFirstOpenPosition(openPositions: array<bool>, startPosition: nat) returns (index: int)
    modifies openPositions
    ensures FirstOpen(old(openPositions[..]), startPosition, index)
    ensures openPositions[..] == if index == -1 then old(openPositions[..]) else old(openPositions[..])[index := false]
  {
    var i := startPosition;
    while i < openPositions.Length
      invariant startPosition <= i
      invariant openPositions[..] == old(openPositions[..])
      invariant forall p :: startPosition <= p < i && p < openPositions.Length ==> !openPositions[p]
    {
      if openPositions[i] {
        openPositions[i] := false;
        return i;
      }
      i := i + 1;
    }
    return -1;
  }

  /** First fit is counting, as long as the positions in use are the lowest ones. */
  lemma FirstFitCounts(free: seq<bool>, start: nat, live: nat, index: int)
    requires FreeMatches(free, start, live) && FirstOpen(free, start, index)
    ensures index == Slot(start, live)
    ensures index != -1 ==> FreeMatches(free[index := false], start, live + 1)
  {
    if start + live < PROCESSING_SPACES {
      assert free[start + live];
    }
  }

  /** The vectors `add_expression_to_plan` appends to. */
  class PlanVectors {
    var leftInputs: seq<int>
    var rightInputs: seq<int>
    var outputs: seq<int>
    var operators: seq<GdfBinary>
    var unaryOperators: seq<GdfUnary>
    var leftScalars: seq<Scalar>
    var rightScalars: seq<Scalar>

    constructor ()
      ensures View() == EMPTY_PLAN
    {
      leftInputs, rightInputs, outputs, operators := [], [], [], [];
      unaryOperators, leftScalars, rightScalars := [], [], [];
    }

    function View(): Plan
      reads this
    {
      Plan(leftInputs, rightInputs, outputs, operators, unaryOperators, leftScalars, rightScalars)
    }

    /** The code for a binary operator, case by case on which operands are literals. */
    method PushBinary(op: GdfBinary, l: Operand, r: Operand)
      modifies this
      ensures View() == Append(old(View()), EmitBinary(op, l, r))
    {
      operators := operators + [op];
      unaryOperators := unaryOperators + [BlzInvalidUnary];
      if l.LiteralOperand? && r.LiteralOperand? {
        leftInputs := leftInputs + [SCALAR_INDEX];
      } else if l.LiteralOperand? {
        leftScalars := leftScalars + [TextScalar(l.text)];
        rightScalars := rightScalars + [DummyScalar];
        leftInputs := leftInputs + [ScalarPosition(l.text)];
        rightInputs := rightInputs + [r.position];
      } else if r.LiteralOperand? {
        rightScalars := rightScalars + [TextScalar(r.text)];
        leftScalars := leftScalars + [DummyScalar];
        rightInputs := rightInputs + [ScalarPosition(r.text)];
        leftInputs := leftInputs + [l.position];
      } else {
        leftInputs := leftInputs + [l.position];
        rightInputs := rightInputs + [r.position];
        leftScalars := leftScalars + [DummyScalar];
        rightScalars := rightScalars + [DummyScalar];
      }
    }

    method PushUnary(op: GdfUnary, a: Operand)
      modifies this
      ensures View() == Append(old(View()), EmitUnary(op, a))
    {
      operators := operators + [GdfInvalidBinary];
      unaryOperators := unaryOperators + [op];
      if a.RegisterOperand? {
        leftInputs := leftInputs + [a.position];
        rightInputs := rightInputs + [UNARY_INDEX];
        leftScalars := leftScalars + [DummyScalar];
        rightScalars := rightScalars + [DummyScalar];
      }
    }

    method PushOutput(output: int)
      modifies this
      ensures View() == Append(old(View()), Output(output))
    {
      outputs := outputs + [output];
    }
  }

  /** Pops the top operand; a temporary becomes free again. */
  method PopOperand(stack: seq<Operand>, free: array<bool>, start: nat) returns (top: Operand, rest: seq<Operand>)
    requires |stack| > 0 && InOrder(stack, start)
    requires FreeMatches(free[..], start, Live(stack, start))
    modifies free
    ensures top == stack[|stack| - 1] && rest == stack[..|stack| - 1]
    ensures InOrder(rest, start) && FreeMatches(free[..], start, Live(rest, start))
  {
    InOrderPop(stack, start);
    top := stack[|stack| - 1];
    if top.RegisterOperand? {
      if top.position >= start {
        free[top.position] := true;
      }
    }
    rest := stack[..|stack| - 1];
  }

  method PopAndEmit(token: Token, stack: seq<Operand>, free: array<bool>, start: nat, plan: PlanVectors)
    returns (rest: seq<Operand>)
    requires IsOperatorToken(token) && Arity(token) <= |stack|
    requires InOrder(stack, start) && FreeMatches(free[..], start, Live(stack, start))
    modifies free, plan
    ensures rest == stack[..|stack| - Arity(token)]
    ensures InOrder(rest, start) && FreeMatches(free[..], start, Live(rest, start))
    ensures plan.View() == Append(old(plan.View()), Operands(token, stack))
  {
    rest := stack;
    if token.BinaryToken? {
      var left, right;
      left, rest := PopOperand(rest, free, start);
      right, rest := PopOperand(rest, free, start);
      plan.PushBinary(token.op, left, right);
    } else if token.UnaryToken? {
      var left;
      left, rest := PopOperand(rest, free, start);
      plan.PushUnary(token.op1, left);
    }
  }

  /** Writes to a temporary, which goes onto the stack. */
  method PushTemporary(stack: seq<Operand>, free: array<bool>, start: nat, plan: PlanVectors)
    returns (pushed: seq<Operand>)
    requires InOrder(stack, start) && FreeMatches(free[..], start, Live(stack, start))
    modifies free, plan
    ensures pushed == stack + [RegisterOperand(Slot(start, Live(stack, start)))]
    ensures InOrder(pushed, start) && FreeMatches(free[..], start, Live(pushed, start))
    ensures plan.View() == Append(old(plan.View()), Output(Slot(start, Live(stack, start))))
  {
    var outputPosition := GetFirstOpenPosition(free, start);
    FirstFitCounts(old(free[..]), start, Live(stack, start), outputPosition);
    plan.PushOutput(outputPosition);
    var operand := RegisterOperand(outputPosition);
    LivePush(stack, operand, start);
    InOrderPush(stack, operand, start);
    pushed := stack + [operand];
  }

  /** The body of the token loop. */
  method ProcessToken(
    token: Token, last: bool, stack: seq<Operand>, free: array<bool>, start: nat, out: int,
    newInputIndices: seq<int>, plan: PlanVectors)
    returns (stack': seq<Operand>)
    requires Arity(token) <= |stack| && Mapped([token], newInputIndices, start)
    requires InOrder(stack, start) && FreeMatches(free[..], start, Live(stack, start))
    modifies free, plan
    ensures State(stack', plan.View())
            == StepToken(token, last, State(stack, old(plan.View())), start, out, newInputIndices)
    ensures InOrder(stack', start) && FreeMatches(free[..], start, Live(stack', start))
  {
    if IsOperatorToken(token) {
      stack' := PopAndEmit(token, stack, free, start, plan);
      if last {
        plan.PushOutput(out);
      } else {
        stack' := PushTemporary(stack', free, start, plan);
      }
    } else {
      assert token in [token];
      var operand := if token.LiteralToken? then LiteralOperand(token.text)
                     else RegisterOperand(newInputIndices[token.index]);
      LivePush(stack, operand, start);
      InOrderPush(stack, operand, start);
      stack' := stack + [operand];
    }
  }

  method NewProcessingSpaces(start: nat) returns (free: array<bool>)
    requires start <= PROCESSING_SPACES
    ensures fresh(free) && FreeMatches(free[..], start, 0)
  {
    free := new bool[PROCESSING_SPACES](_ => true);
    for i := 0 to start
      invariant forall p :: 0 <= p < PROCESSING_SPACES ==> (free[p] <==> i <= p)
    {
      free[i] := false;
    }
  }

  lemma ProcessCons(tokens: seq<Token>, i: nat, s: State, start: nat, out: int, indices: seq<int>)
    requires i < |tokens|
    requires StackSafe(tokens[i..], |s.stack|) && Mapped(tokens, indices, start)
    ensures Arity(tokens[i]) <= |s.stack| && Mapped([tokens[i]], indices, start)
    ensures var s' := StepToken(tokens[i], i == |tokens| - 1, s, start, out, indices);
            && (i == |tokens| - 1 || StackSafe(tokens[i + 1..], |s'.stack|))
            && Process(tokens[i..], s, start, out, indices)
               == if i == |tokens| - 1 then s' else Process(tokens[i + 1..], s', start, out, indices)
  {
    assert tokens[i..][0] == tokens[i] && tokens[i..][1..] == tokens[i + 1..] && tokens[i] in tokens;
  }

  /** `add_expression_to_plan`. */
  method AddExpressionToPlan(
    tokens: seq<Token>, expressionPosition: nat, numOutputs: nat, numInputs: nat,
    newInputIndices: seq<int>, plan: PlanVectors)
    requires numInputs + numOutputs <= PROCESSING_SPACES
    requires StackSafe(tokens, 0) && Mapped(tokens, newInputIndices, numInputs + numOutputs)
    modifies plan
    ensures plan.View()
            == Process(tokens, State([], old(plan.View())), numInputs + numOutputs,
                       expressionPosition + numInputs, newInputIndices).plan
  {
    var start := numInputs + numOutputs;
    var out := expressionPosition + numInputs;
    ghost var goal := Process(tokens, State([], plan.View()), start, out, newInputIndices);
    var stack: seq<Operand> := [];
    var processingSpaceFree := NewProcessingSpaces(start);
    var tokenInd := 0;
    assert tokens[0..] == tokens;
    while tokenInd < |tokens|
      invariant 0 <= tokenInd <= |tokens|
      invariant tokenInd < |tokens|
                ==> StackSafe(tokens[tokenInd..], |stack|)
                    && Process(tokens[tokenInd..], State(stack, plan.View()), start, out, newInputIndices) == goal
      invariant tokenInd == |tokens| ==> plan.View() == goal.plan
      invariant InOrder(stack, start) && FreeMatches(processingSpaceFree[..], start, Live(stack, start))
      invariant fresh(processingSpaceFree)
    {
      var last := tokenInd == |tokens| - 1;
      ProcessCons(tokens, tokenInd, State(stack, plan.View()), start, out, newInputIndices);
      stack := ProcessToken(tokens[tokenInd], last, stack, processingSpaceFree, start, out, newInputIndices, plan);
      tokenInd := tokenInd + 1;
    }
  }
}
