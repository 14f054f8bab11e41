/** How many temporaries the allocator hands out: exactly as many as are ever live at once. */
module RegisterUse {
  import opened Basics
  import opened CalciteExpression
  import opened RegisterMachine
  import opened LogicalFilter
  import opened ExpressionCompiler

  /** The temporaries a compiled operator writes, its own output left out. */
  function Temporaries(e: Expr, start: nat, k: nat, indices: seq<int>): seq<int>
    requires ColumnsBelow(e, |indices|)
    decreases e, 0
  {
    match e
    case Unary(_, a) => WithOwn(a, start, k, indices)
    case Binary(_, l, r) => WithOwn(r, start, k, indices) + WithOwn(l, start, After(r, start, k), indices)
    case _ => []
  }

  function WithOwn(e: Expr, start: nat, k: nat, indices: seq<int>): seq<int>
    requires ColumnsBelow(e, |indices|)
    decreases e, 1
  {
    Temporaries(e, start, k, indices) + (if e.IsOperator() then [Slot(start, k)] else [])
  }

  lemma OwnOutput(own: Plan, out: int)
    requires own.outputs == []
    ensures Append(own, Output(out)).outputs == [out]
  {
  }

  lemma {:induction false} OutputsAre(e: Expr, start: nat, k: nat, out: int, indices: seq<int>)
    requires ColumnsBelow(e, |indices|)
    ensures Compile(e, start, k, out, indices).outputs
            == Temporaries(e, start, k, indices) + (if e.IsOperator() then [out] else [])
    decreases e
  {
    match e
    case Unary(op, a) =>
      OutputsAre(a, start, k, Slot(start, k), indices);
      OwnOutput(EmitUnary(op, OperandOf(a, start, k, indices)), out);
    case Binary(op, l, r) =>
      var k' := After(r, start, k);
      OutputsAre(r, start, k, Slot(start, k), indices);
      OutputsAre(l, start, k', Slot(start, k'), indices);
      OwnOutput(EmitBinary(op, OperandOf(l, start, k', indices), OperandOf(r, start, k, indices)), out);
      Associate(WithOwn(r, start, k, indices), WithOwn(l, start, k', indices), [out]);
    case _ =>
  }

  /** `need` temporaries from start + k on: written where they fit, -1 where they do not. */
  ghost predicate Uses(ts: seq<int>, start: nat, k: nat, need: nat) {
    && (forall o :: o in ts ==> o == -1 || start + k <= o < start + k + need)
    && (-1 in ts <==> start + k + need > PROCESSING_SPACES)
    && (need > 0 && start + k + need <= PROCESSING_SPACES ==> start + k + need - 1 in ts)
  }

  lemma UsesConcat(a: seq<int>, b: seq<int>, start: nat, k: nat, m: nat, k': nat, n: nat)
    requires start + k <= PROCESSING_SPACES && Uses(a, start, k, m) && Uses(b, start, k', n)
    requires k <= k' <= k + 1 && start + k' <= PROCESSING_SPACES
    requires k' == k + 1 ==> m > 0
    ensures Uses(a + b, start, k, Max(m, k' - k + n))
  {
    var need := Max(m, k' - k + n);
    assert forall o :: o in a + b <==> o in a || o in b;
    if need > 0 && start + k + need <= PROCESSING_SPACES {
      if need == m {
        assert start + k + m - 1 in a;
      } else {
        assert n > 0 && start + k' + n - 1 in b;
      }
    }
  }

  lemma UsesOwn(e: Expr, start: nat, k: nat, indices: seq<int>)
    requires ColumnsBelow(e, |indices|) && start + k <= PROCESSING_SPACES
    requires Uses(Temporaries(e, start, k, indices), start, k, TempNeed(e))
    ensures Uses(WithOwn(e, start, k, indices), start, k, Need(e))
  {
    if e.IsOperator() {
      var ts, o := Temporaries(e, start, k, indices), Slot(start, k);
      assert WithOwn(e, start, k, indices) == ts + [o];
      assert forall x :: x in ts + [o] <==> x in ts || x == o;
    }
  }

  lemma UsesFull(a: seq<int>, b: seq<int>, start: nat, k: nat, m: nat, n: nat)
    requires start + k == PROCESSING_SPACES && Uses(a, start, k, m) && Uses(b, start, k, n) && m > 0
    ensures Uses(a + b, start, k, Max(m, 1 + n))
  {
    assert forall o :: o in a + b <==> o in a || o in b;
  }

  lemma SidesUse(a: seq<int>, b: seq<int>, start: nat, k: nat, m: nat, k': nat, n: nat, temporary: bool)
    requires start + k <= PROCESSING_SPACES && start + k' <= PROCESSING_SPACES
    requires Uses(a, start, k, m) && Uses(b, start, k', n) && (temporary ==> m > 0)
    requires if temporary && start + k < PROCESSING_SPACES then k' == k + 1 else k' == k
    ensures Uses(a + b, start, k, Max(m, (if temporary then 1 else 0) + n))
  {
    if temporary && k' == k {
      UsesFull(a, b, start, k, m, n);
    } else {
      UsesConcat(a, b, start, k, m, k', n);
    }
  }

  lemma BinaryUses(l: Expr, r: Expr, start: nat, k: nat, indices: seq<int>)
    requires ColumnsBelow(l, |indices|) && ColumnsBelow(r, |indices|) && start + k <= PROCESSING_SPACES
    requires Uses(Temporaries(r, start, k, indices), start, k, TempNeed(r))
    requires var k' := After(r, start, k);
             start + k' <= PROCESSING_SPACES && Uses(Temporaries(l, start, k', indices), start, k', TempNeed(l))
    ensures var k' := After(r, start, k);
            Uses(WithOwn(r, start, k, indices) + WithOwn(l, start, k', indices), start, k,
                 Max(Need(r), (if r.IsOperator() then 1 else 0) + Need(l)))
  {
    var k' := After(r, start, k);
    UsesOwn(r, start, k, indices);
    UsesOwn(l, start, k', indices);
    SidesUse(WithOwn(r, start, k, indices), WithOwn(l, start, k', indices), start, k, Need(r), k', Need(l), r.IsOperator());
  }

  lemma {:induction false} TemporariesUsed(e: Expr, start: nat, k: nat, indices: seq<int>)
    requires ColumnsBelow(e, |indices|) && start + k <= PROCESSING_SPACES
    ensures Uses(Temporaries(e, start, k, indices), start, k, TempNeed(e))
    decreases e
  {
    match e {
      case Unary(_, a) =>
        TemporariesUsed(a, start, k, indices);
        UsesOwn(a, start, k, indices);
      case Binary(_, l, r) =>
        var k' := After(r, start, k);
        TemporariesUsed(r, start, k, indices);
        TemporariesUsed(l, start, k', indices);
        BinaryUses(l, r, start, k, indices);
      case _ =>
    }
  }

  /** Most temporaries on the stack at any moment of a run of the token machine. */
  function Peak(tokens: seq<Token>, s: State, start: nat, out: int, indices: seq<int>): nat
    requires StackSafe(tokens, |s.stack|) && Mapped(tokens, indices, start)
    decreases |tokens|
  {
    if tokens == [] then Live(s.stack, start)
    else
      assert tokens[0] in tokens;
      var s' := StepToken(tokens[0], |tokens| == 1, s, start, out, indices);
      if |tokens| == 1 then Max(Live(s.stack, start), Live(s'.stack, start))
      else Max(Live(s.stack, start), Peak(tokens[1..], s', start, out, indices))
  }

  lemma LivePop(stack: seq<Operand>, n: nat, start: nat)
    requires n <= |stack|
    ensures Live(stack[..|stack| - n], start) <= Live(stack, start)
  {
    if n == 0 {
      assert stack[..|stack|] == stack;
    } else {
      LivePop(stack[..|stack| - 1], n - 1, start);
      assert stack[..|stack| - 1][..|stack| - n] == stack[..|stack| - n];
    }
  }

  ghost predicate OutputsGrow(s: State, s': State, start: nat) {
    && s.plan.outputs <= s'.plan.outputs
    && (-1 !in s'.plan.outputs ==>
          && (forall o :: o in s'.plan.outputs ==>
                o in s.plan.outputs || o < start || o == start + Live(s'.stack, start) - 1)
          && (Live(s'.stack, start) > Live(s.stack, start) ==> start + Live(s'.stack, start) - 1 in s'.plan.outputs))
  }

  lemma OperatorPeak(t: Token, last: bool, s: State, start: nat, out: int, indices: seq<int>)
    requires Arity(t) <= |s.stack| && Mapped([t], indices, start) && out < start && IsOperatorToken(t)
    ensures OutputsGrow(s, StepToken(t, last, s, start, out, indices), start)
  {
    var s' := StepToken(t, last, s, start, out, indices);
    var rest := s.stack[..|s.stack| - Arity(t)];
    var output := if last then out else Slot(start, Live(rest, start));
    LivePop(s.stack, Arity(t), start);
    assert s'.plan.outputs == s.plan.outputs + [output];
    if !last { LivePush(rest, RegisterOperand(output), start); }
  }

  /** One token: a temporary is written exactly when one more becomes live than was before. */
  lemma StepPeak(t: Token, last: bool, s: State, start: nat, out: int, indices: seq<int>)
    requires Arity(t) <= |s.stack| && Mapped([t], indices, start) && out < start
    ensures OutputsGrow(s, StepToken(t, last, s, start, out, indices), start)
  {
    if IsOperatorToken(t) {
      OperatorPeak(t, last, s, start, out, indices);
    } else {
      assert t in [t];
      LivePush(s.stack, if t.LiteralToken? then LiteralOperand(t.text) else RegisterOperand(indices[t.index]), start);
    }
  }

  /** `after` extends `before` with temporaries below start + peak, and reaches that bound if the peak
      is above `live`. */
  ghost predicate Highest(before: seq<int>, after: seq<int>, start: int, live: int, peak: int) {
    && before <= after
    && (-1 !in after ==>
          && (forall o :: o in after ==> o in before || o < start + peak)
          && (peak > live ==> start + peak - 1 in after))
  }

  lemma HighestChain(a: seq<int>, b: seq<int>, c: seq<int>, start: int, live: nat, live': nat, peak: nat)
    requires a <= b && Highest(b, c, start, live', peak) && peak >= live'
    requires -1 !in b ==>
               && (forall o :: o in b ==> o in a || o < start || o == start + live' - 1)
               && (live' > live ==> start + live' - 1 in b)
    ensures Highest(a, c, start, live, if live < peak then peak else live)
  {
    forall o | o in b ensures o in c {
      var j :| 0 <= j < |b| && b[j] == o;
      assert c[j] == o;
    }
    assert -1 !in c ==> -1 !in b;
  }

  /** One token's step, and the highest temporary of the rest. */
  lemma PeakStep(t: Token, last: bool, s: State, start: nat, out: int, indices: seq<int>, after: seq<int>, peak: nat)
    requires Arity(t) <= |s.stack| && Mapped([t], indices, start) && out < start
    requires var s' := StepToken(t, last, s, start, out, indices);
             Highest(s'.plan.outputs, after, start, Live(s'.stack, start), peak) && peak >= Live(s'.stack, start)
    ensures Highest(s.plan.outputs, after, start, Live(s.stack, start), Max(Live(s.stack, start), peak))
  {
    var s' := StepToken(t, last, s, start, out, indices);
    StepPeak(t, last, s, start, out, indices);
    HighestChain(s.plan.outputs, s'.plan.outputs, after, start, Live(s.stack, start), Live(s'.stack, start), peak);
  }

  /** In any run of the token machine the highest temporary written is start + peak - 1. */
  lemma {:induction false} PeakIsHighest(tokens: seq<Token>, s: State, start: nat, out: int, indices: seq<int>)
    requires StackSafe(tokens, |s.stack|) && Mapped(tokens, indices, start) && out < start
    ensures Peak(tokens, s, start, out, indices) >= Live(s.stack, start)
    ensures Highest(s.plan.outputs, Process(tokens, s, start, out, indices).plan.outputs,
                    start, Live(s.stack, start), Peak(tokens, s, start, out, indices))
    decreases |tokens|
  {
    if tokens != [] {
      assert tokens[0] in tokens;
      var s' := StepToken(tokens[0], |tokens| == 1, s, start, out, indices);
      if |tokens| > 1 {
        PeakIsHighest(tokens[1..], s', start, out, indices);
        PeakStep(tokens[0], false, s, start, out, indices, Process(tokens[1..], s', start, out, indices).plan.outputs,
                 Peak(tokens[1..], s', start, out, indices));
      } else {
        PeakStep(tokens[0], true, s, start, out, indices, s'.plan.outputs, Live(s'.stack, start));
      }
    }
  }

  lemma OutputBounds(e: Expr, start: nat, out: nat, indices: seq<int>)
    requires e.IsOperator() && ColumnsBelow(e, |indices|)
    requires out < start <= 512
    ensures var outputs := Compile(e, start, 0, out, indices).outputs; var need := TempNeed(e);
            && (-1 in outputs <==> start + need > 512)
            && (forall o :: o in outputs ==> o < start + need)
            && (0 < need <= 512 - start ==> start + need - 1 in outputs)
  {
    OutputsAre(e, start, 0, out, indices);
    TemporariesUsed(e, start, 0, indices);
    var ts := Temporaries(e, start, 0, indices);
    assert forall o :: o in ts + [out] <==> o in ts || o == out;
  }

  /** The allocator is tight: the highest temporary in the emitted code is start plus the most that are
      ever live at once, minus one; that is at most the height of the expression; and -1 is emitted
      exactly when they do not fit in the 512 positions. */
  lemma AllocationIsTight(e: Expr, start: nat, out: nat, indices: seq<int>)
    requires e.IsOperator() && ColumnsBelow(e, |indices|) && Indices(indices, start)
    requires out < start <= 512
    ensures TempNeed(e) <= Height(e)
    ensures -1 in Compile(e, start, 0, out, indices).outputs <==> start + TempNeed(e) > 512
    ensures start + TempNeed(e) <= 512 ==>
              && StackSafe(ReverseTokens(e), 0) && Mapped(ReverseTokens(e), indices, start)
              && var peak := Peak(ReverseTokens(e), State([], EMPTY_PLAN), start, out, indices);
                 var outputs := Compile(e, start, 0, out, indices).outputs;
              && peak == TempNeed(e)
              && (forall o :: o in outputs ==> o < start + peak)
              && (peak > 0 ==> start + peak - 1 in outputs)
  {
    NeedAtMostHeight(e);
    OutputBounds(e, start, out, indices);
    if start + TempNeed(e) <= PROCESSING_SPACES {
      PlanIsCompiled(e, EMPTY_PLAN, start, out, indices);
      PeakIsHighest(ReverseTokens(e), State([], EMPTY_PLAN), start, out, indices);
      assert Process(ReverseTokens(e), State([], EMPTY_PLAN), start, out, indices).plan.outputs
             == Compile(e, start, 0, out, indices).outputs;
    }
  }
}
