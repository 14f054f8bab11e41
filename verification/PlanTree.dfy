/** The evaluator of plan trees (src/CalciteInterpreter.cpp): one line a node, two spaces a level. */
module PlanTree {
  import opened Collections

  datatype Plan = Scan(name: string) | Single(name: string, child: Plan) | Double(name: string, left: Plan, right: Plan)

  // ----- what a line is -------------------------------------------------------------------------

  ghost predicate OccursAt(text: string, needle: string, p: nat) {
    p + |needle| <= |text| && text[p..p + |needle|] == needle
  }

  ghost predicate Contains(text: string, needle: string) {
    exists p: nat :: OccursAt(text, needle, p)
  }

  /** `find(needle) != npos` */
  method Find(text: string, needle: string) returns (found: bool)
    ensures found <==> Contains(text, needle)
  {
    found := false;
    var p := 0;
    while p + |needle| <= |text| && !found
      invariant found ==> Contains(text, needle)
      invariant !found ==> forall i: nat :: i < p ==> !OccursAt(text, needle, i)
      decreases |text| - p, !found
    {
      if text[p..p + |needle|] == needle {
        assert OccursAt(text, needle, p);
        found := true;
      } else {
        p := p + 1;
      }
    }
  }

  ghost predicate IsScan(line: string) {
    Contains(line, "LogicalTableScan") || Contains(line, "BindableTableScan")
  }

  ghost predicate IsDoubleInput(line: string) {
    Contains(line, "LogicalJoin") || Contains(line, "LogicalUnion")
  }

  ghost predicate IsSingleInput(line: string) {
    || Contains(line, "LogicalProject") || Contains(line, "LogicalAggregate")
    || Contains(line, "LogicalSort") || Contains(line, "LogicalFilter")
  }

  /** Whole spaces come in pairs; the source looks at every other character. */
  function LeadingPairs(line: string, j: nat): (pairs: nat)
    decreases |line| - j
  {
    if j < |line| && line[j] == ' ' then 1 + LeadingPairs(line, j + 2) else 0
  }

  // ----- printing -------------------------------------------------------------------------------

  function Indent(depth: nat): (s: string)
    ensures |s| == 2 * depth && forall i :: 0 <= i < |s| ==> s[i] == ' '
  {
    if depth == 0 then "" else "  " + Indent(depth - 1)
  }

  function Line(name: string, depth: nat): string {
    Indent(depth) + name
  }

  function Print(plan: Plan, depth: nat): (lines: seq<string>)
    ensures lines != [] && lines[0] == Line(plan.name, depth)
  {
    match plan
    case Scan(name) => [Line(name, depth)]
    case Single(name, child) => [Line(name, depth)] + Print(child, depth + 1)
    case Double(name, left, right) => [Line(name, depth)] + (Print(left, depth + 1) + Print(right, depth + 1))
  }

  ghost predicate IsLabel(name: string) {
    name != "" && name[0] != ' '
  }

  /** The plans the planner prints: each node's text says what it is. */
  ghost predicate Valid(plan: Plan) {
    IsLabel(plan.name) &&
    match plan
    case Scan(name) => IsScan(name)
    case Single(name, child) => !IsDoubleInput(name) && IsSingleInput(name) && Valid(child)
    case Double(name, left, right) => IsDoubleInput(name) && Valid(left) && Valid(right)
  }

  lemma IndentHidesNothing(name: string, depth: nat, needle: string)
    requires needle != "" && needle[0] != ' '
    ensures Contains(Line(name, depth), needle) <==> Contains(name, needle)
  {
    var line := Line(name, depth);
    if Contains(line, needle) {
      var p: nat :| OccursAt(line, needle, p);
      assert line[p] == needle[0];
      assert line[p..p + |needle|] == name[p - 2 * depth..p - 2 * depth + |needle|];
      assert OccursAt(name, needle, p - 2 * depth);
    }
    if Contains(name, needle) {
      var p: nat :| OccursAt(name, needle, p);
      assert line[p + 2 * depth..p + 2 * depth + |needle|] == name[p..p + |needle|];
      assert OccursAt(line, needle, p + 2 * depth);
    }
  }

  lemma KindOfLine(name: string, depth: nat)
    ensures IsScan(Line(name, depth)) <==> IsScan(name)
    ensures IsDoubleInput(Line(name, depth)) <==> IsDoubleInput(name)
    ensures IsSingleInput(Line(name, depth)) <==> IsSingleInput(name)
  {
    IndentHidesNothing(name, depth, "LogicalTableScan");
    IndentHidesNothing(name, depth, "BindableTableScan");
    IndentHidesNothing(name, depth, "LogicalJoin");
    IndentHidesNothing(name, depth, "LogicalUnion");
    IndentHidesNothing(name, depth, "LogicalProject");
    IndentHidesNothing(name, depth, "LogicalAggregate");
    IndentHidesNothing(name, depth, "LogicalSort");
    IndentHidesNothing(name, depth, "LogicalFilter");
  }

  lemma OccursWithin(prefix: string, needle: string, suffix: string)
    ensures Contains(prefix + needle + suffix, needle)
  {
    assert OccursAt(prefix + needle + suffix, needle, |prefix|);
  }

  /** Wherever in a line a node's name stands, it says what the node takes. */
  lemma KindByName(prefix: string, suffix: string)
    ensures IsScan(prefix + "LogicalTableScan" + suffix) && IsScan(prefix + "BindableTableScan" + suffix)
    ensures IsDoubleInput(prefix + "LogicalJoin" + suffix) && IsDoubleInput(prefix + "LogicalUnion" + suffix)
    ensures IsSingleInput(prefix + "LogicalProject" + suffix) && IsSingleInput(prefix + "LogicalAggregate" + suffix)
    ensures IsSingleInput(prefix + "LogicalSort" + suffix) && IsSingleInput(prefix + "LogicalFilter" + suffix)
  {
    OccursWithin(prefix, "LogicalTableScan", suffix);
    OccursWithin(prefix, "BindableTableScan", suffix);
    OccursWithin(prefix, "LogicalJoin", suffix);
    OccursWithin(prefix, "LogicalUnion", suffix);
    OccursWithin(prefix, "LogicalProject", suffix);
    OccursWithin(prefix, "LogicalAggregate", suffix);
    OccursWithin(prefix, "LogicalSort", suffix);
    OccursWithin(prefix, "LogicalFilter", suffix);
  }

  /** A name with one capital L, at its start, that differs in its second word or ends before it does. */
  predicate DiffersFrom(name: string, needle: string) {
    |needle| > 7 && needle[0] == 'L' && (forall p :: 0 < p < |name| ==> name[p] != 'L')
    && (|name| < |needle| || name[7] != needle[7] || name[0] != 'L')
  }

  lemma NotWithin(name: string, needle: string)
    requires DiffersFrom(name, needle)
    ensures !Contains(name, needle)
  {
    forall p: nat
      ensures OccursAt(name, needle, p) ==> p + |needle| <= |name| && name[p] == needle[0] && name[p + 7] == needle[7]
    {
      FoundAt(name, needle, p);
    }
  }

  lemma FoundAt(name: string, needle: string, p: nat)
    requires |needle| > 7
    ensures OccursAt(name, needle, p) ==> p + |needle| <= |name| && name[p] == needle[0] && name[p + 7] == needle[7]
  {
    if OccursAt(name, needle, p) {
      assert name[p..p + |needle|][0] == name[p] && name[p..p + |needle|][7] == name[p + 7];
    }
  }

  lemma IsNotDouble(name: string)
    requires DiffersFrom(name, "LogicalJoin") && DiffersFrom(name, "LogicalUnion")
    ensures !IsDoubleInput(name)
  {
    NotWithin(name, "LogicalJoin");
    NotWithin(name, "LogicalUnion");
  }

  lemma IsNotSingle(name: string)
    requires DiffersFrom(name, "LogicalProject") && DiffersFrom(name, "LogicalAggregate")
    requires DiffersFrom(name, "LogicalSort") && DiffersFrom(name, "LogicalFilter")
    ensures !IsSingleInput(name)
  {
    NotWithin(name, "LogicalProject");
    NotWithin(name, "LogicalAggregate");
    NotWithin(name, "LogicalSort");
    NotWithin(name, "LogicalFilter");
  }

  /** The names by themselves are not taken for those of other kinds. */
  lemma KindsApart()
    ensures !IsDoubleInput("LogicalProject") && !IsDoubleInput("LogicalAggregate")
    ensures !IsDoubleInput("LogicalSort") && !IsDoubleInput("LogicalFilter")
    ensures !IsSingleInput("LogicalJoin") && !IsSingleInput("LogicalUnion")
    ensures !IsDoubleInput("LogicalTableScan") && !IsSingleInput("LogicalTableScan")
    ensures !IsDoubleInput("BindableTableScan") && !IsSingleInput("BindableTableScan")
  {
    IsNotDouble("LogicalProject");
    IsNotDouble("LogicalAggregate");
    IsNotDouble("LogicalSort");
    IsNotDouble("LogicalFilter");
    IsNotSingle("LogicalJoin");
    IsNotSingle("LogicalUnion");
    IsNotDouble("LogicalTableScan");
    IsNotSingle("LogicalTableScan");
    IsNotDouble("BindableTableScan");
    IsNotSingle("BindableTableScan");
  }

  lemma {:induction false} PairsOfLine(name: string, depth: nat, j: nat)
    requires IsLabel(name) && j <= depth
    ensures LeadingPairs(Line(name, depth), 2 * j) == depth - j
    decreases depth - j
  {
    if j < depth { PairsOfLine(name, depth, j + 1); }
  }

  // ----- meaning --------------------------------------------------------------------------------

  /** What the nodes do with frames of type F; a frame may also fail to come about (an unknown table, an
      operator that throws). Each is given its own line. */
  datatype Algebra<!F> = Algebra(scan: string -> Result<F, PlanError>,
                                 single: (string, F) -> Result<F, PlanError>,
                                 double: (string, F, F) -> Result<F, PlanError>)

  datatype PlanError = UnknownTable | UnsupportedOperator | OperatorFailed | MalformedPlan

  /** The first failure, in evaluation order, left before right. */
  function Meaning<F>(alg: Algebra<F>, plan: Plan, depth: nat): Result<F, PlanError> {
    match plan
    case Scan(name) => alg.scan(Line(name, depth))
    case Single(name, child) =>
      (match Meaning(alg, child, depth + 1)
       case Err(e) => Err(e)
       case Ok(frame) => alg.single(Line(name, depth), frame))
    case Double(name, left, right) =>
      (match Meaning(alg, left, depth + 1)
       case Err(e) => Err(e)
       case Ok(l) =>
         match Meaning(alg, right, depth + 1)
         case Err(e) => Err(e)
         case Ok(r) => alg.double(Line(name, depth), l, r))
  }

  // ----- the split ------------------------------------------------------------------------------

  /** The last line from index 2 on that is one level deeper than the node, or 2 if there is none. */
  function SplitAt(query: seq<string>, callDepth: nat): (at: nat)
    ensures at >= 2 && (at == 2 || at < |query|)
  {
    if |query| <= 2 then 2
    else if LeadingPairs(query[|query| - 1], 0) == callDepth + 1 then |query| - 1
    else SplitAt(query[..|query| - 1], callDepth)
  }

  ghost predicate AllDeeper(lines: seq<string>, depth: nat) {
    forall i :: 0 <= i < |lines| ==> LeadingPairs(lines[i], 0) > depth
  }

  /** Lines of a subtree below its root are deeper than the root. */
  lemma {:induction false} Deeper(plan: Plan, depth: nat)
    requires Valid(plan)
    ensures AllDeeper(Print(plan, depth)[1..], depth)
    decreases plan, 0
  {
    match plan
    case Scan(_) =>
    case Single(_, child) =>
      Subtree(child, depth);
    case Double(_, left, right) =>
      Subtree(left, depth);
      Subtree(right, depth);
  }

  lemma {:induction false} Subtree(plan: Plan, depth: nat)
    requires Valid(plan)
    ensures AllDeeper(Print(plan, depth + 1), depth)
    decreases plan, 1
  {
    RootDepth(plan, depth + 1);
    Deeper(plan, depth + 1);
    var lines := Print(plan, depth + 1);
    assert forall i :: 0 < i < |lines| ==> lines[i] == lines[1..][i - 1];
  }

  lemma RootDepth(plan: Plan, depth: nat)
    requires Valid(plan)
    ensures LeadingPairs(Print(plan, depth)[0], 0) == depth
  {
    PairsOfLine(plan.name, depth, 0);
  }

  /** If a line is one level deeper and none after it is, the query is split there. */
  lemma {:induction false} SplitAtLast(query: seq<string>, callDepth: nat, at: nat)
    requires 2 <= at < |query| && LeadingPairs(query[at], 0) == callDepth + 1
    requires forall i :: at < i < |query| ==> LeadingPairs(query[i], 0) != callDepth + 1
    ensures SplitAt(query, callDepth) == at
  {
    if at < |query| - 1 { SplitAtLast(query[..|query| - 1], callDepth, at); }
  }

  lemma SplitOfTwo(root: string, left: seq<string>, right: seq<string>, depth: nat, query: seq<string>)
    requires left != [] && right != [] && query == [root] + (left + right)
    requires LeadingPairs(right[0], 0) == depth + 1 && AllDeeper(right[1..], depth + 1)
    ensures SplitAt(query, depth) == 1 + |left|
    ensures query[1..1 + |left|] == left && query[1 + |left|..] == right
  {
    var at := 1 + |left|;
    assert query[at..] == right && query[1..at] == left;
    forall i | at < i < |query|
      ensures LeadingPairs(query[i], 0) != depth + 1
    {
      assert query[i] == right[1..][i - at - 1];
    }
    SplitAtLast(query, depth, at);
  }

  /** The split finds the two subtrees of a printed node. */
  lemma SplitRecovers(plan: Plan, depth: nat)
    requires Valid(plan) && plan.Double?
    ensures var query := Print(plan, depth); var at := SplitAt(query, depth);
            && 2 <= at < |query|
            && query[1..at] == Print(plan.left, depth + 1) && query[at..] == Print(plan.right, depth + 1)
  {
    RootDepth(plan.right, depth + 1);
    Deeper(plan.right, depth + 1);
    SplitOfTwo(Line(plan.name, depth), Print(plan.left, depth + 1), Print(plan.right, depth + 1), depth, Print(plan, depth));
  }

  // ----- the evaluator --------------------------------------------------------------------------

  /** Does evaluating the lines end in this result? Where the source would read past the end of the lines,
      the result is `MalformedPlan`. */
  ghost function Evaluation<F>(alg: Algebra<F>, query: seq<string>, callDepth: nat): Result<F, PlanError>
    decreases |query|
  {
    if query == [] then Err(MalformedPlan)
    else if |query| == 1 && IsScan(query[0]) then alg.scan(query[0])
    else if IsDoubleInput(query[0]) then
      if |query| < 2 then Err(MalformedPlan)
      else
        var at := SplitAt(query, callDepth);
        (match Evaluation(alg, query[1..at], callDepth + 1)
         case Err(e) => Err(e)
         case Ok(l) =>
           match Evaluation(alg, query[at..], callDepth + 1)
           case Err(e) => Err(e)
           case Ok(r) => alg.double(query[0], l, r))
    else
      match Evaluation(alg, query[1..], callDepth + 1)
      case Err(e) => Err(e)
      case Ok(frame) => if IsSingleInput(query[0]) then alg.single(query[0], frame) else Err(UnsupportedOperator)
  }

  lemma SingleMeans<F>(alg: Algebra<F>, plan: Plan, depth: nat)
    requires Valid(plan) && plan.Single?
    requires Evaluation(alg, Print(plan.child, depth + 1), depth + 1) == Meaning(alg, plan.child, depth + 1)
    ensures Evaluation(alg, Print(plan, depth), depth) == Meaning(alg, plan, depth)
  {
    KindOfLine(plan.name, depth);
    assert Print(plan, depth)[1..] == Print(plan.child, depth + 1);
  }

  lemma DoubleMeans<F>(alg: Algebra<F>, plan: Plan, depth: nat)
    requires Valid(plan) && plan.Double?
    requires Evaluation(alg, Print(plan.left, depth + 1), depth + 1) == Meaning(alg, plan.left, depth + 1)
    requires Evaluation(alg, Print(plan.right, depth + 1), depth + 1) == Meaning(alg, plan.right, depth + 1)
    ensures Evaluation(alg, Print(plan, depth), depth) == Meaning(alg, plan, depth)
  {
    KindOfLine(plan.name, depth);
    SplitRecovers(plan, depth);
  }

  /** Evaluating a printed plan gives the plan's meaning. */
  lemma {:induction false} EvaluationIsMeaning<F>(alg: Algebra<F>, plan: Plan, depth: nat)
    requires Valid(plan)
    ensures Evaluation(alg, Print(plan, depth), depth) == Meaning(alg, plan, depth)
    decreases plan
  {
    match plan
    case Scan(name) =>
      KindOfLine(name, depth);
    case Single(_, child) =>
      EvaluationIsMeaning(alg, child, depth + 1);
      SingleMeans(alg, plan, depth);
    case Double(_, left, right) =>
      EvaluationIsMeaning(alg, left, depth + 1);
      EvaluationIsMeaning(alg, right, depth + 1);
      DoubleMeans(alg, plan, depth);
  }

  ghost predicate IsKnown(line: string) {
    IsScan(line) || IsSingleInput(line) || IsDoubleInput(line)
  }

  /** Lines that evaluate end with a scan, and there is none among them that does not say what it is. */
  lemma {:induction false} EveryLineKnown<F>(alg: Algebra<F>, query: seq<string>, callDepth: nat)
    requires Evaluation(alg, query, callDepth).Ok?
    ensures query != [] && IsScan(query[|query| - 1])
    ensures forall i :: 0 <= i < |query| ==> IsKnown(query[i])
    decreases |query|
  {
    if |query| == 1 && IsScan(query[0]) {
    } else if IsDoubleInput(query[0]) {
      var at := SplitAt(query, callDepth);
      EveryLineKnown(alg, query[1..at], callDepth + 1);
      EveryLineKnown(alg, query[at..], callDepth + 1);
      assert query == [query[0]] + query[1..at] + query[at..];
    } else {
      EveryLineKnown(alg, query[1..], callDepth + 1);
      assert query == [query[0]] + query[1..];
    }
  }

  /** `evaluate_split_query`: recursion on slices of the lines, with one loop that looks for the split. */
  method EvaluateSplitQuery<F>(alg: Algebra<F>, query: seq<string>, callDepth: nat) returns (frame: Result<F, PlanError>)
    ensures frame == Evaluation(alg, query, callDepth)
    decreases |query|
  {
    if |query| == 0 {
      return Err(MalformedPlan);
    }
    if |query| == 1 {
      var logical := Find(query[0], "LogicalTableScan");
      var bindable := Find(query[0], "BindableTableScan");
      if logical || bindable {
        return alg.scan(query[0]);
      }
    }
    var join := Find(query[0], "LogicalJoin");
    var union := Find(query[0], "LogicalUnion");
    if join || union {
      if |query| < 2 {
        return Err(MalformedPlan);
      }
      var otherDepthOneStart := FindSplit(query, callDepth);
      var left := EvaluateSplitQuery(alg, query[1..otherDepthOneStart], callDepth + 1);
      if left.Err? {
        return left;
      }
      var right := EvaluateSplitQuery(alg, query[otherDepthOneStart..], callDepth + 1);
      if right.Err? {
        return right;
      }
      return alg.double(query[0], left.value, right.value);
    }
    var child := EvaluateSplitQuery(alg, query[1..], callDepth + 1);
    if child.Err? {
      return child;
    }
    var project := Find(query[0], "LogicalProject");
    var aggregate := Find(query[0], "LogicalAggregate");
    var sort := Find(query[0], "LogicalSort");
    var filter := Find(query[0], "LogicalFilter");
    if project || aggregate || sort || filter {
      return alg.single(query[0], child.value);
    }
    return Err(UnsupportedOperator);
  }

  method CountPairs(line: string) returns (pairs: nat)
    ensures pairs == LeadingPairs(line, 0)
  {
    var j := 0;
    pairs := 0;
    while j < |line| && line[j] == ' '
      invariant pairs + LeadingPairs(line, j) == LeadingPairs(line, 0)
      decreases |line| - j
    {
      j := j + 2;
      pairs := pairs + 1;
    }
  }

  method FindSplit(query: seq<string>, callDepth: nat) returns (otherDepthOneStart: nat)
    requires |query| >= 2
    ensures otherDepthOneStart == SplitAt(query, callDepth)
  {
    otherDepthOneStart := 2;
    for i := 2 to |query|
      invariant otherDepthOneStart == SplitAt(query[..i], callDepth)
    {
      assert query[..i + 1][..i] == query[..i];
      var pairs := CountPairs(query[i]);
      if pairs == callDepth + 1 {
        otherDepthOneStart := i;
      }
    }
    assert query[..|query|] == query;
  }
}
