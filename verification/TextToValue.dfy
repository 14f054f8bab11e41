/** The whole way of an expression: its text is cleaned, split and compiled, and the program computes it. */
module TextToValue {
  import opened CalciteText
  import opened ConnectiveExpansion
  import opened CalciteTokens
  import opened CalciteExpression
  import opened RegisterMachine
  import opened LogicalFilter
  import opened ExpressionCompiler

  /** The tokens that reach the compiler. */
  ghost function TokensOf(t: Tree): seq<Token> {
    ClassifiedAll(Reversed(Words(Flat(Print(LeftNest(t))), "", false)))
  }

  lemma AppendToNothing(p: Plan)
    ensures Append(EMPTY_PLAN, p) == p
  {
  }

  /** For the text of any expression that is an operator and has no operator over literals only: the
      program made from it leaves the expression's value, AND and OR of any number of operands included,
      in its output register, and fails only if a COALESCE or null test has no column to look at. */
  lemma TextComputes<V>(
    alu: Alu<V>, t: Tree, start: nat, out: nat, indices: seq<int>, row: Row<V>, regs: seq<V>, valid: seq<bool>)
    requires ValidTree(t) && Flattens(t) && Known(t) && Fixed(LeftNest(t)) && Typed(LeftNest(t)).IsOperator()
    requires Indices(indices, start) && |valid| <= out < |regs|
    requires var e := Typed(LeftNest(t)); Ready(e, start, 0, TempNeed(e), indices, row, regs, valid)
    ensures StackSafe(TokensOf(t), 0) && Mapped(TokensOf(t), indices, start)
    ensures var p := Process(TokensOf(t), State([], EMPTY_PLAN), start, out, indices).plan;
            Aligned(p) && Computes(alu, Typed(LeftNest(t)), Instructions(p), start, out, row, regs, valid)
  {
    var e := Typed(LeftNest(t));
    CompilerTokens(t);
    PlanIsCompiled(e, EMPTY_PLAN, start, out, indices);
    AppendToNothing(Compile(e, start, 0, out, indices));
    CompileComputes(alu, e, start, 0, out, indices, row, regs, valid);
  }
}
