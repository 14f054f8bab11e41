/** The columns of an equijoin: read from the condition (src/JoinProcessor.cpp), and split between the two
    tables (src/operators/JoinOperator.cpp). */
module JoinCondition {
  import opened Basics
  import opened Collections

  /** A token of the condition: an operator, or an operand with the column index `get_index` reads from it. */
  datatype Word = Operator(name: string) | Operand(index: nat)

  /** The conditions the planner writes for equijoins, connectives made binary. */
  datatype Condition = Equals(a: nat, b: nat) | And(left: Condition, right: Condition)

  /** The words of a condition in prefix order, last word first, and what follows. */
  function WordsThen(c: Condition, rest: seq<Word>): seq<Word> {
    match c
    case Equals(a, b) => [Operand(b)] + ([Operand(a)] + ([Operator("=")] + rest))
    case And(l, r) => WordsThen(r, WordsThen(l, [Operator("AND")] + rest))
  }

  function Ordered(a: nat, b: nat): seq<nat> {
    if b < a then [b, a] else [a, b]
  }

  /** The column pairs in the order of the text, the smaller index of each first, and what follows. */
  function PairsThen(c: Condition, rest: seq<nat>): seq<nat> {
    match c
    case Equals(a, b) => Ordered(a, b) + rest
    case And(l, r) => PairsThen(l, PairsThen(r, rest))
  }

  predicate Supports(w: Word) {
    w.Operator? ==> w.name == "=" || w.name == "AND"
  }

  predicate Supported(words: seq<Word>) {
    words == [] || (Supports(words[0]) && Supported(words[1..]))
  }

  /** A condition is turned down exactly if it has an operator other than = and AND. */
  lemma {:induction false} SupportedIff(words: seq<Word>)
    ensures Supported(words) <==>
              forall i :: 0 <= i < |words| && words[i].Operator? ==> words[i].name == "=" || words[i].name == "AND"
  {
    if words != [] {
      SupportedIff(words[1..]);
      assert forall i :: 1 <= i < |words| ==> words[i] == words[1..][i - 1];
    }
  }

  /** The operand stack after the words; its top is its last element. */
  function Pushed(words: seq<Word>, stack: seq<nat>): seq<nat> {
    if words == [] then stack
    else Pushed(words[1..], if words[0].Operand? then stack + [words[0].index] else stack)
  }

  function Equalities(words: seq<Word>): nat {
    if words == [] then 0
    else (if words[0] == Operator("=") then 1 else 0) + Equalities(words[1..])
  }

  /** Two operands at a time from the top of the stack. */
  function PairsFrom(stack: seq<nat>, n: nat): (indices: seq<nat>)
    requires |stack| >= 2 * n
    ensures |indices| == 2 * n
  {
    if n == 0 then []
    else Ordered(stack[|stack| - 2], stack[|stack| - 1]) + PairsFrom(stack[..|stack| - 2], n - 1)
  }

  datatype JoinError = NotAnEquijoin

  /** `parseJoinConditionToColumnIndices`: fails on any operator but = and AND. With fewer operands than the
      equalities need, the source would take the top of an empty stack. */
  method ParseJoinCondition(tokens: seq<Word>) returns (columnIndices: Result<seq<nat>, JoinError>)
    requires Supported(tokens) ==> |Pushed(tokens, [])| >= 2 * Equalities(tokens)
    ensures columnIndices.Ok? <==> Supported(tokens)
    ensures columnIndices.Err? <==>
              exists i :: 0 <= i < |tokens| && tokens[i].Operator? && tokens[i].name != "=" && tokens[i].name != "AND"
    ensures columnIndices.Ok? ==> columnIndices.value == PairsFrom(Pushed(tokens, []), Equalities(tokens))
  {
    SupportedIff(tokens);
    var operatorCount := 0;
    var operand: seq<nat> := [];
    for i := 0 to |tokens|
      invariant Pushed(tokens[i..], operand) == Pushed(tokens, [])
      invariant operatorCount + Equalities(tokens[i..]) == Equalities(tokens)
      invariant Supported(tokens[i..]) <==> Supported(tokens)
    {
      assert tokens[i..][1..] == tokens[i + 1..];
      match tokens[i] {
        case Operator(name) =>
          if name == "=" {
            operatorCount := operatorCount + 1;
          } else if name != "AND" {
            return Err(NotAnEquijoin);
          }
        case Operand(index) =>
          operand := operand + [index];
      }
    }
    var indices := PopPairs(operand, operatorCount);
    return Ok(indices);
  }

  /** The second loop: pops two operands for each equality. */
  method PopPairs(operands: seq<nat>, operatorCount: nat) returns (columnIndices: seq<nat>)
    requires |operands| >= 2 * operatorCount
    ensures columnIndices == PairsFrom(operands, operatorCount)
  {
    var operand := operands;
    columnIndices := [];
    for i := 0 to operatorCount
      invariant |operand| == |operands| - 2 * i
      invariant columnIndices + PairsFrom(operand, operatorCount - i) == PairsFrom(operands, operatorCount)
    {
      var rightIndex, leftIndex := operand[|operand| - 1], operand[|operand| - 2];
      operand := operand[..|operand| - 2];
      if rightIndex < leftIndex {
        leftIndex, rightIndex := rightIndex, leftIndex;
      }
      Associate(columnIndices, [leftIndex, rightIndex], PairsFrom(operand, operatorCount - i - 1));
      columnIndices := columnIndices + [leftIndex, rightIndex];
    }
  }

  // ----- the parser on printed conditions -------------------------------------------------------

  function Size(c: Condition): nat {
    match c
    case Equals(_, _) => 1
    case And(l, r) => Size(l) + Size(r)
  }

  /** The stack with the operands of a condition on top. */
  function StackThen(c: Condition, stack: seq<nat>): (s: seq<nat>)
    ensures |s| == |stack| + 2 * Size(c)
  {
    match c
    case Equals(a, b) => stack + [b, a]
    case And(l, r) => StackThen(l, StackThen(r, stack))
  }

  lemma OneWord(w: Word, rest: seq<Word>, stack: seq<nat>)
    ensures Pushed([w] + rest, stack) == Pushed(rest, if w.Operand? then stack + [w.index] else stack)
    ensures Equalities([w] + rest) == Equalities(rest) + (if w == Operator("=") then 1 else 0)
    ensures Supported([w] + rest) <==> Supports(w) && Supported(rest)
  {
    assert ([w] + rest)[1..] == rest;
  }

  lemma {:induction false} WordsOf(c: Condition, rest: seq<Word>, stack: seq<nat>)
    ensures Pushed(WordsThen(c, rest), stack) == Pushed(rest, StackThen(c, stack))
    ensures Equalities(WordsThen(c, rest)) == Size(c) + Equalities(rest)
    ensures Supported(WordsThen(c, rest)) <==> Supported(rest)
    decreases c
  {
    match c
    case Equals(a, b) =>
      var one := [Operator("=")] + rest;
      var two := [Operand(a)] + one;
      OneWord(Operand(b), two, stack);
      OneWord(Operand(a), one, stack + [b]);
      OneWord(Operator("="), rest, stack + [b] + [a]);
      assert stack + [b] + [a] == stack + [b, a];
    case And(l, r) =>
      var mid := [Operator("AND")] + rest;
      WordsOf(r, WordsThen(l, mid), stack);
      WordsOf(l, mid, StackThen(r, stack));
      OneWord(Operator("AND"), rest, StackThen(l, StackThen(r, stack)));
  }

  lemma {:induction false} PairsOf(c: Condition, stack: seq<nat>, n: nat, total: nat)
    requires |stack| >= 2 * n && total == Size(c) + n
    ensures PairsFrom(StackThen(c, stack), total) == PairsThen(c, PairsFrom(stack, n))
    decreases c
  {
    match c
    case Equals(a, b) =>
    case And(l, r) =>
      var m := Size(r) + n;
      PairsOf(r, stack, n, m);
      PairsOf(l, StackThen(r, stack), m, total);
  }

  /** For every condition, the parser reads the words of its text back as its equalities, in their order. */
  lemma ConditionParses(c: Condition)
    ensures var words := WordsThen(c, []);
            && Supported(words) && |Pushed(words, [])| == 2 * Equalities(words)
            && PairsFrom(Pushed(words, []), Equalities(words)) == PairsThen(c, [])
  {
    WordsOf(c, [], []);
    var n := Size(c);
    PairsOf(c, [], 0, n);
    assert Equalities(WordsThen(c, [])) == n;
  }

  // ----- indices table by table -----------------------------------------------------------------

  /** The indices that fall into a table, relative to it. */
  function Local(indices: seq<nat>, processed: nat, size: nat): seq<nat> {
    if indices == [] then []
    else
      (if processed <= indices[0] < processed + size then [indices[0] - processed] else [])
      + Local(indices[1..], processed, size)
  }

  method LocalOf(globalColumnIndices: seq<nat>, processedColumns: nat, size: nat) returns (localIndices: seq<nat>)
    ensures localIndices == Local(globalColumnIndices, processedColumns, size)
  {
    localIndices := [];
    for k := 0 to |globalColumnIndices|
      invariant localIndices + Local(globalColumnIndices[k..], processedColumns, size)
             == Local(globalColumnIndices, processedColumns, size)
    {
      var i := globalColumnIndices[k];
      assert globalColumnIndices[k..][1..] == globalColumnIndices[k + 1..];
      if processedColumns <= i < processedColumns + size {
        Associate(localIndices, [i - processedColumns], Local(globalColumnIndices[k + 1..], processedColumns, size));
        localIndices := localIndices + [i - processedColumns];
      }
    }
  }

  /** The loop of `process_distribution` over the tables of the frame. */
  method LocalIndices(globalColumnIndices: seq<nat>, widths: seq<nat>) returns (local: seq<seq<nat>>)
    requires |widths| == 2
    ensures local == [Local(globalColumnIndices, 0, widths[0]), Local(globalColumnIndices, widths[0], widths[1])]
  {
    var processedColumns := 0;
    local := [];
    for t := 0 to |widths|
      invariant |local| == t && processedColumns == if t == 0 then 0 else if t == 1 then widths[0] else widths[0] + widths[1]
      invariant t > 0 ==> local[0] == Local(globalColumnIndices, 0, widths[0])
      invariant t > 1 ==> local[1] == Local(globalColumnIndices, widths[0], widths[1])
    {
      var localIndices := LocalOf(globalColumnIndices, processedColumns, widths[t]);
      processedColumns := processedColumns + widths[t];
      local := local + [localIndices];
    }
  }

  /** Every equality has one column in the left table, the first `width` columns, and one in the right. */
  ghost predicate Crossing(indices: seq<nat>, width: nat) {
    |indices| % 2 == 0 && forall i :: 0 <= i < |indices| / 2 ==> indices[2 * i] < width <= indices[2 * i + 1]
  }

  /** The first columns of the pairs, and the second ones relative to the right table. */
  function Firsts(indices: seq<nat>): seq<nat> {
    if |indices| < 2 then [] else [indices[0]] + Firsts(indices[2..])
  }

  function Seconds(indices: seq<nat>, width: nat): seq<nat> {
    if |indices| < 2 then []
    else [if indices[1] < width then 0 else indices[1] - width] + Seconds(indices[2..], width)
  }

  lemma LocalTwo(indices: seq<nat>, processed: nat, size: nat)
    requires |indices| >= 2
    ensures Local(indices, processed, size)
         == (if processed <= indices[0] < processed + size then [indices[0] - processed] else [])
            + ((if processed <= indices[1] < processed + size then [indices[1] - processed] else [])
               + Local(indices[2..], processed, size))
  {
    assert indices[1..][1..] == indices[2..];
  }

  lemma CrossingRest(indices: seq<nat>, width: nat)
    requires |indices| >= 2
    ensures Crossing(indices, width) <==> indices[0] < width <= indices[1] && Crossing(indices[2..], width)
  {
    var rest := indices[2..];
    if Crossing(indices, width) {
      assert indices[2 * 0] < width <= indices[2 * 0 + 1];
      forall i | 0 <= i < |rest| / 2
        ensures rest[2 * i] < width <= rest[2 * i + 1]
      {
        assert indices[2 * (i + 1)] < width <= indices[2 * (i + 1) + 1];
      }
    }
    if indices[0] < width <= indices[1] && Crossing(rest, width) {
      forall i | 0 <= i < |indices| / 2
        ensures indices[2 * i] < width <= indices[2 * i + 1]
      {
        if i > 0 { assert rest[2 * (i - 1)] < width <= rest[2 * (i - 1) + 1]; }
      }
    }
  }

  /** Every equality of the condition relates a column of the left table and one of the right, in either
      order. */
  predicate Crosses(c: Condition, width: nat, rightWidth: nat) {
    match c
    case Equals(a, b) =>
      || (a < width <= b < width + rightWidth)
      || (b < width <= a < width + rightWidth)
    case And(l, r) => Crosses(l, width, rightWidth) && Crosses(r, width, rightWidth)
  }

  ghost predicate InFrame(indices: seq<nat>, columns: nat) {
    forall i :: 0 <= i < |indices| ==> indices[i] < columns
  }

  lemma FrameRest(indices: seq<nat>, columns: nat)
    requires |indices| >= 2
    ensures InFrame(indices, columns) <==> indices[0] < columns && indices[1] < columns && InFrame(indices[2..], columns)
  {
    var rest := indices[2..];
    if InFrame(indices, columns) {
      forall i | 0 <= i < |rest|
        ensures rest[i] < columns
      {
        assert rest[i] == indices[i + 2];
      }
    }
    if indices[0] < columns && indices[1] < columns && InFrame(rest, columns) {
      forall i | 0 <= i < |indices|
        ensures indices[i] < columns
      {
        if i >= 2 { assert indices[i] == rest[i - 2]; }
      }
    }
  }

  /** Smaller index first: that is why the pairs of a condition that crosses the tables do so too. */
  lemma {:induction false} CrossesPairs(c: Condition, rest: seq<nat>, width: nat, rightWidth: nat)
    ensures Crosses(c, width, rightWidth) && Crossing(rest, width) && InFrame(rest, width + rightWidth)
       <==> Crossing(PairsThen(c, rest), width) && InFrame(PairsThen(c, rest), width + rightWidth)
    decreases c
  {
    match c
    case Equals(a, b) =>
      var pairs := Ordered(a, b) + rest;
      assert pairs[2..] == rest && pairs[..2] == Ordered(a, b);
      CrossingRest(pairs, width);
      FrameRest(pairs, width + rightWidth);
    case And(l, r) =>
      CrossesPairs(r, rest, width, rightWidth);
      CrossesPairs(l, PairsThen(r, rest), width, rightWidth);
  }

  /** The column list of a condition crosses the tables exactly if its equalities do. */
  lemma CrossesIff(c: Condition, width: nat, rightWidth: nat)
    ensures Crosses(c, width, rightWidth)
       <==> Crossing(PairsThen(c, []), width) && InFrame(PairsThen(c, []), width + rightWidth)
  {
    CrossesPairs(c, [], width, rightWidth);
  }

  /** If every equality crosses the tables, the local lists are the two sides of the pairs, aligned. */
  lemma {:induction false} CrossingAligns(indices: seq<nat>, width: nat, rightWidth: nat)
    requires Crossing(indices, width) && InFrame(indices, width + rightWidth)
    ensures Local(indices, 0, width) == Firsts(indices)
    ensures Local(indices, width, rightWidth) == Seconds(indices, width)
  {
    if indices != [] {
      CrossingRest(indices, width);
      FrameRest(indices, width + rightWidth);
      CrossingAligns(indices[2..], width, rightWidth);
      LocalTwo(indices, 0, width);
      LocalTwo(indices, width, rightWidth);
    }
  }

  lemma {:induction false} SidesAt(indices: seq<nat>, width: nat, i: nat)
    requires i < |indices| / 2
    ensures |Firsts(indices)| == |Seconds(indices, width)| == |indices| / 2
    ensures Firsts(indices)[i] == indices[2 * i]
    ensures indices[2 * i + 1] >= width ==> Seconds(indices, width)[i] + width == indices[2 * i + 1]
  {
    if |indices| / 2 > 1 {
      SidesAt(indices[2..], width, if i == 0 then 0 else i - 1);
    }
  }

  lemma {:induction false} LocalInRange(indices: seq<nat>, processed: nat, size: nat)
    ensures forall i :: 0 <= i < |Local(indices, processed, size)| ==> Local(indices, processed, size)[i] < size
  {
    if indices != [] { LocalInRange(indices[1..], processed, size); }
  }

  /** Entry i of the one list and entry i of the other are the two columns of equality i. */
  ghost predicate Aligned(indices: seq<nat>, left: seq<nat>, right: seq<nat>, width: nat) {
    && |left| == |right| == |indices| / 2
    && forall i :: 0 <= i < |left| ==> indices[2 * i] == left[i] && indices[2 * i + 1] == right[i] + width
  }

  lemma CrossingIsAligned(indices: seq<nat>, width: nat, rightWidth: nat)
    requires Crossing(indices, width) && InFrame(indices, width + rightWidth)
    ensures Aligned(indices, Local(indices, 0, width), Local(indices, width, rightWidth), width)
  {
    CrossingAligns(indices, width, rightWidth);
    var left, right := Local(indices, 0, width), Local(indices, width, rightWidth);
    assert |left| == |right| == |indices| / 2 by {
      if |indices| >= 2 { SidesAt(indices, width, 0); }
    }
    forall i | 0 <= i < |left|
      ensures indices[2 * i] == left[i] && indices[2 * i + 1] == right[i] + width
    {
      SidesAt(indices, width, i);
      assert indices[2 * i] < width <= indices[2 * i + 1];
    }
  }

  /** The local lists are aligned pair by pair if and only if every equality crosses the two tables. */
  lemma AlignedIffCrossing(indices: seq<nat>, width: nat, rightWidth: nat)
    requires |indices| % 2 == 0 && InFrame(indices, width + rightWidth)
    ensures Aligned(indices, Local(indices, 0, width), Local(indices, width, rightWidth), width)
       <==> Crossing(indices, width)
  {
    if Crossing(indices, width) {
      CrossingIsAligned(indices, width, rightWidth);
    }
    AlignedCrosses(indices, Local(indices, 0, width), Local(indices, width, rightWidth), width, rightWidth);
  }

  lemma AlignedCrosses(indices: seq<nat>, left: seq<nat>, right: seq<nat>, width: nat, rightWidth: nat)
    requires |indices| % 2 == 0 && left == Local(indices, 0, width)
    ensures Aligned(indices, left, right, width) ==> Crossing(indices, width)
  {
    LocalInRange(indices, 0, width);
  }
}