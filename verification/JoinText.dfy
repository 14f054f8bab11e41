/** The join from the text of its condition: equalities of columns joined by AND, of any number. */
module JoinText {
  import opened Collections
  import opened Tables
  import opened CalciteText
  import opened ConnectiveExpansion
  import opened CalciteTokens
  import JoinCondition
  import Exchange
  import DistributedJoin

  type Condition = JoinCondition.Condition

  predicate IsColumn(t: Tree) {
    t.Leaf? && t.text != "" && t.text[0] == '$'
  }

  ghost predicate IsEquijoin(t: Tree) {
    match t
    case Leaf(_) => false
    case Node(op, args) =>
      if op == "AND" then args.Cons? && args.tail.Cons? && IsEquijoin(args.head) && AllEquijoins(args.tail)
      else op == "=" && IsPair(args) && IsColumn(args.head) && IsColumn(args.tail.head)
  }

  ghost predicate AllEquijoins(ts: Trees) {
    match ts
    case Nil => true
    case Cons(t, tail) => IsEquijoin(t) && AllEquijoins(tail)
  }

  // ----- what the text says ---------------------------------------------------------------------

  ghost function ColumnOf(t: Tree): nat
    requires IsColumn(t)
  {
    Number(t.text[1..])
  }

  ghost predicate Holds(t: Tree, row: Row)
    requires IsEquijoin(t)
  {
    match t
    case Node(op, args) =>
      if op == "AND" then Holds(args.head, row) && AllHold(args.tail, row)
      else
        var a, b := CellOf(row, ColumnOf(args.head)), CellOf(row, ColumnOf(args.tail.head));
        a.Num? && a == b
  }

  ghost predicate AllHold(ts: Trees, row: Row)
    requires AllEquijoins(ts)
  {
    match ts
    case Nil => true
    case Cons(t, tail) => Holds(t, row) && AllHold(tail, row)
  }

  /** Every equality relates a column of the left table and one of the right, in either order. */
  ghost predicate Crosses(t: Tree, width: nat, rightWidth: nat)
    requires IsEquijoin(t)
  {
    match t
    case Node(op, args) =>
      if op == "AND" then Crosses(args.head, width, rightWidth) && AllCross(args.tail, width, rightWidth)
      else
        var a, b := ColumnOf(args.head), ColumnOf(args.tail.head);
        (a < width <= b < width + rightWidth) || (b < width <= a < width + rightWidth)
  }

  ghost predicate AllCross(ts: Trees, width: nat, rightWidth: nat)
    requires AllEquijoins(ts)
  {
    match ts
    case Nil => true
    case Cons(t, tail) => Crosses(t, width, rightWidth) && AllCross(tail, width, rightWidth)
  }

  // ----- the binary condition -------------------------------------------------------------------

  ghost function ConditionOf(t: Tree): Condition
    requires IsEquijoin(t)
    decreases t
  {
    match t
    case Node(op, args) =>
      if op == "AND" then AllOf(ConditionOf(args.head), args.tail)
      else JoinCondition.Equals(ColumnOf(args.head), ColumnOf(args.tail.head))
  }

  ghost function AllOf(c: Condition, ts: Trees): Condition
    requires AllEquijoins(ts)
    decreases ts
  {
    match ts
    case Nil => c
    case Cons(t, tail) => AllOf(JoinCondition.And(c, ConditionOf(t)), tail)
  }

  lemma {:induction false} ConditionMeans(t: Tree, row: Row, width: nat, rightWidth: nat)
    requires IsEquijoin(t)
    ensures DistributedJoin.Holds(ConditionOf(t), row) == Holds(t, row)
    ensures JoinCondition.Crosses(ConditionOf(t), width, rightWidth) == Crosses(t, width, rightWidth)
    decreases t, 0
  {
    match t
    case Node(op, args) =>
      if op == "AND" {
        ConditionMeans(args.head, row, width, rightWidth);
        AllOfMeans(ConditionOf(args.head), args.tail, row, width, rightWidth);
      }
  }

  lemma {:induction false} AllOfMeans(c: Condition, ts: Trees, row: Row, width: nat, rightWidth: nat)
    requires AllEquijoins(ts)
    ensures DistributedJoin.Holds(AllOf(c, ts), row) == (DistributedJoin.Holds(c, row) && AllHold(ts, row))
    ensures JoinCondition.Crosses(AllOf(c, ts), width, rightWidth)
         == (JoinCondition.Crosses(c, width, rightWidth) && AllCross(ts, width, rightWidth))
    decreases ts, 1
  {
    match ts
    case Nil =>
    case Cons(t, tail) =>
      ConditionMeans(t, row, width, rightWidth);
      AllOfMeans(JoinCondition.And(c, ConditionOf(t)), tail, row, width, rightWidth);
  }

  // ----- the words of the text ------------------------------------------------------------------

  /** What the parser sees in a token. */
  ghost function WordOf(token: string): JoinCondition.Word {
    if IsOperatorToken(token) || token == "" then JoinCondition.Operator(token)
    else JoinCondition.Operand(Number(token[1..]))
  }

  ghost function WordsOfTokens(tokens: seq<string>): seq<JoinCondition.Word> {
    if tokens == [] then [] else [WordOf(tokens[0])] + WordsOfTokens(tokens[1..])
  }

  lemma OneToken(token: string, rest: seq<string>)
    ensures WordsOfTokens([token] + rest) == [WordOf(token)] + WordsOfTokens(rest)
  {
  }

  /** A tree with binary AND, and its condition. */
  ghost predicate Corresponds(t: Tree, c: Condition) {
    match c
    case Equals(a, b) =>
      && t.Node? && t.op == "=" && IsPair(t.args) && IsColumn(t.args.head) && IsColumn(t.args.tail.head)
      && a == ColumnOf(t.args.head) && b == ColumnOf(t.args.tail.head)
    case And(l, r) =>
      && t.Node? && t.op == "AND" && IsPair(t.args)
      && Corresponds(t.args.head, l) && Corresponds(t.args.tail.head, r)
  }

  lemma PairOf(args: Trees)
    requires IsPair(args)
    ensures args == Cons(args.head, Cons(args.tail.head, Nil))
  {
  }

  lemma ColumnWord(t: Tree)
    requires IsColumn(t)
    ensures WordOf(t.text) == JoinCondition.Operand(ColumnOf(t))
  {
  }

  lemma {:induction false} WordsCorrespond(t: Tree, c: Condition, rest: seq<string>)
    requires Corresponds(t, c)
    ensures WordsOfTokens(BackwardsThen(t, rest)) == JoinCondition.WordsThen(c, WordsOfTokens(rest))
    decreases c
  {
    var a, b := t.args.head, t.args.tail.head;
    PairOf(t.args);
    ArgsOfPair(a, b, [t.op] + rest);
    KnownIsOperator(t.op);
    OneToken(t.op, rest);
    match c
    case Equals(_, _) =>
      ColumnWord(a);
      ColumnWord(b);
      OneToken(a.text, [t.op] + rest);
      OneToken(b.text, [a.text] + ([t.op] + rest));
    case And(l, r) =>
      WordsCorrespond(a, l, [t.op] + rest);
      WordsCorrespond(b, r, BackwardsThen(a, [t.op] + rest));
  }

  lemma {:induction false} NestCorresponds(t: Tree)
    requires IsEquijoin(t)
    ensures Corresponds(LeftNest(t), ConditionOf(t))
    decreases t, 0
  {
    match t
    case Node(op, args) =>
      if op == "AND" {
        NestCorresponds(args.head);
        FoldCorresponds(LeftNest(args.head), ConditionOf(args.head), args.tail);
      } else {
        PairOf(args);
        NestPair(args.head, args.tail.head);
      }
  }

  lemma {:induction false} FoldCorresponds(acc: Tree, c: Condition, ts: Trees)
    requires Corresponds(acc, c) && AllEquijoins(ts)
    ensures Corresponds(Fold("AND", acc, LeftNestAll(ts)), AllOf(c, ts))
    decreases ts, 1
  {
    match ts
    case Nil =>
    case Cons(t, tail) =>
      NestCorresponds(t);
      var pair := Node("AND", Cons(acc, Cons(LeftNest(t), Nil)));
      assert Corresponds(pair, JoinCondition.And(c, ConditionOf(t)));
      FoldCorresponds(pair, JoinCondition.And(c, ConditionOf(t)), tail);
  }

  /** The tokens of the cleaned text are the words of the condition, last word first. */
  lemma TextIsWords(t: Tree)
    requires Flattens(t) && IsEquijoin(t)
    ensures WordsOfTokens(Reversed(Words(Flat(Print(LeftNest(t))), "", false)))
         == JoinCondition.WordsThen(ConditionOf(t), [])
  {
    NestFlattens(t);
    TokensOfText(LeftNest(t));
    NestCorresponds(t);
    WordsCorrespond(LeftNest(t), ConditionOf(t), []);
  }

  // ----- the join -------------------------------------------------------------------------------

  /** The join as its text defines it. */
  ghost function JoinOn(left: Table, right: Table, t: Tree): multiset<Row>
    requires IsEquijoin(t)
  {
    Total(left, RowOn(right, t))
  }

  ghost function RowOn(right: Table, t: Tree): Row -> multiset<Row>
    requires IsEquijoin(t)
  {
    (l: Row) => Total(right, PairOn(l, t))
  }

  ghost function PairOn(l: Row, t: Tree): Row -> multiset<Row>
    requires IsEquijoin(t)
  {
    (r: Row) => if IsEquijoin(t) && Holds(t, l + r) then multiset{l + r} else multiset{}
  }

  lemma JoinWhereIsOn(left: Table, right: Table, t: Tree)
    requires IsEquijoin(t)
    ensures DistributedJoin.JoinWhere(left, right, ConditionOf(t)) == JoinOn(left, right, t)
  {
    var c := ConditionOf(t);
    forall l: Row
      ensures DistributedJoin.RowWhere(right, c)(l) == RowOn(right, t)(l)
    {
      forall r: Row
        ensures DistributedJoin.PairWhere(l, c)(r) == PairOn(l, t)(r)
      {
        ConditionMeans(t, l + r, 0, 0);
      }
      TotalSame(right, DistributedJoin.PairWhere(l, c), PairOn(l, t));
    }
    TotalSame(left, DistributedJoin.RowWhere(right, c), RowOn(right, t));
  }

  /** The distributed join is correct from the text on. The words of the cleaned text are those the parser gets;
      if every equality of the text relates the two tables, then in every run in which no node takes a message
      of another round the nodes' results are the pairs of rows that satisfy the text, each once. */
  lemma DistributedJoinOfText(q: Exchange.Query<Table>, states: seq<Exchange.Net<Table>>,
                              steps: seq<Exchange.Step<Table>>, t: Tree, lefts: seq<Table>, rights: seq<Table>,
                              leftParts: seq<seq<Table>>, rightParts: seq<seq<Table>>, outs: seq<Table>,
                              width: nat, rightWidth: nat, hash: Key -> nat)
    requires Flattens(t) && IsEquijoin(t) && Crosses(t, width, rightWidth)
    requires DistributedJoin.JoinRun(q, states, steps, ConditionOf(t), lefts, rights, leftParts, rightParts, outs,
                                     width, rightWidth, hash)
    requires forall u :: 0 <= u < |steps| ==> Exchange.Timely(states[u], steps[u])
    ensures WordsOfTokens(Reversed(Words(Flat(Print(LeftNest(t))), "", false)))
         == JoinCondition.WordsThen(ConditionOf(t), [])
    ensures multiset(Collections.Flatten(outs)) == JoinOn(Collections.Flatten(lefts), Collections.Flatten(rights), t)
  {
    TextIsWords(t);
    ConditionMeans(t, [], width, rightWidth);
    DistributedJoin.DistributedJoinMeans(q, states, steps, ConditionOf(t), lefts, rights, leftParts, rightParts, outs,
                                         width, rightWidth, hash);
    JoinWhereIsOn(Collections.Flatten(lefts), Collections.Flatten(rights), t);
  }
}
