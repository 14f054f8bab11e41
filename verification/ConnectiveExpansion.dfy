/** AND and OR with many arguments made binary, in the text (`expand_if_logical_op` in
    src/CalciteExpressionParsing.cpp). */
module ConnectiveExpansion {
  import opened Basics
  import opened CalciteText

  // ----- on trees -------------------------------------------------------------------------------

  /** op(op(op(acc, b), c), ...) */
  function Fold(op: string, acc: Tree, ts: Trees): Tree
    decreases ts
  {
    match ts
    case Nil => acc
    case Cons(b, more) => Fold(op, Node(op, Cons(acc, Cons(b, Nil))), more)
  }

  /** Every connective binary, nested to the left. */
  function LeftNest(t: Tree): Tree {
    match t
    case Leaf(_) => t
    case Node(op, args) =>
      var nested := LeftNestAll(args);
      if IsConnective(op) && nested.Cons? then Fold(op, nested.head, nested.tail) else Node(op, nested)
  }

  function LeftNestAll(ts: Trees): (nested: Trees)
    ensures Count(nested) == Count(ts)
  {
    match ts
    case Nil => Nil
    case Cons(t, tail) => Cons(LeftNest(t), LeftNestAll(tail))
  }

  function Connectives(t: Tree): nat {
    match t
    case Leaf(_) => 0
    case Node(op, args) => (if IsConnective(op) then 1 else 0) + ConnectivesIn(args)
  }

  function ConnectivesIn(ts: Trees): nat {
    match ts
    case Nil => 0
    case Cons(t, tail) => Connectives(t) + ConnectivesIn(tail)
  }

  // ----- truth ----------------------------------------------------------------------------------

  /** What names and literals stand for; connectives work on truth values. */
  datatype Interpretation<!V> = Interpretation(leaf: string -> V, node: (string, seq<V>) -> V,
                                               truth: V -> bool, ofTruth: bool -> V)

  ghost predicate Lawful<V>(i: Interpretation<V>) {
    forall b :: i.truth(i.ofTruth(b)) == b
  }

  /** AND is true if all of its arguments are, OR if any is. */
  function Value<V>(i: Interpretation<V>, t: Tree): V {
    match t
    case Leaf(text) => i.leaf(text)
    case Node(op, args) =>
      if op == "AND" then i.ofTruth(AllTrue(i, args))
      else if op == "OR" then i.ofTruth(AnyTrue(i, args))
      else i.node(op, Values(i, args))
  }

  function Values<V>(i: Interpretation<V>, ts: Trees): seq<V> {
    match ts
    case Nil => []
    case Cons(t, tail) => [Value(i, t)] + Values(i, tail)
  }

  predicate AllTrue<V>(i: Interpretation<V>, ts: Trees) {
    match ts
    case Nil => true
    case Cons(t, tail) => i.truth(Value(i, t)) && AllTrue(i, tail)
  }

  predicate AnyTrue<V>(i: Interpretation<V>, ts: Trees) {
    match ts
    case Nil => false
    case Cons(t, tail) => i.truth(Value(i, t)) || AnyTrue(i, tail)
  }

  lemma {:induction false} FoldAnd<V>(i: Interpretation<V>, acc: Tree, ts: Trees)
    requires Lawful(i)
    ensures i.truth(Value(i, Fold("AND", acc, ts))) == (i.truth(Value(i, acc)) && AllTrue(i, ts))
    decreases ts
  {
    match ts
    case Nil =>
    case Cons(b, more) =>
      var pair := Node("AND", Cons(acc, Cons(b, Nil)));
      FoldAnd(i, pair, more);
      assert AllTrue(i, Cons(b, Nil)) == i.truth(Value(i, b));
  }

  lemma {:induction false} FoldOr<V>(i: Interpretation<V>, acc: Tree, ts: Trees)
    requires Lawful(i)
    ensures i.truth(Value(i, Fold("OR", acc, ts))) == (i.truth(Value(i, acc)) || AnyTrue(i, ts))
    decreases ts
  {
    match ts
    case Nil =>
    case Cons(b, more) =>
      var pair := Node("OR", Cons(acc, Cons(b, Nil)));
      FoldOr(i, pair, more);
      assert AnyTrue(i, Cons(b, Nil)) == i.truth(Value(i, b));
  }

  lemma {:induction false} FoldIsTruth<V>(i: Interpretation<V>, op: string, acc: Tree, b: Tree, more: Trees)
    returns (truth: bool)
    requires IsConnective(op)
    ensures Value(i, Fold(op, acc, Cons(b, more))) == i.ofTruth(truth)
    decreases more
  {
    var pair := Node(op, Cons(acc, Cons(b, Nil)));
    match more
    case Nil =>
      truth := if op == "AND" then AllTrue(i, pair.args) else AnyTrue(i, pair.args);
    case Cons(c, rest) =>
      truth := FoldIsTruth(i, op, pair, c, rest);
  }

  /** The connectives keep their truth value, and with it the whole expression its value. */
  lemma {:induction false} LeftNestKeepsValue<V>(i: Interpretation<V>, t: Tree)
    requires Lawful(i) && ValidTree(t)
    ensures Value(i, LeftNest(t)) == Value(i, t)
    decreases t
  {
    match t
    case Leaf(_) =>
    case Node(op, args) =>
      LeftNestAllKeepsValues(i, args);
      if IsConnective(op) {
        var nested := LeftNestAll(args);
        FoldAnd(i, nested.head, nested.tail);
        FoldOr(i, nested.head, nested.tail);
        var truth := FoldIsTruth(i, op, nested.head, nested.tail.head, nested.tail.tail);
      }
  }

  lemma {:induction false} LeftNestAllKeepsValues<V>(i: Interpretation<V>, ts: Trees)
    requires Lawful(i) && ValidTrees(ts)
    ensures Values(i, LeftNestAll(ts)) == Values(i, ts)
    ensures AllTrue(i, LeftNestAll(ts)) == AllTrue(i, ts) && AnyTrue(i, LeftNestAll(ts)) == AnyTrue(i, ts)
    decreases ts
  {
    match ts
    case Nil =>
    case Cons(t, tail) =>
      LeftNestKeepsValue(i, t);
      LeftNestAllKeepsValues(i, tail);
  }

  // ----- searching for a connective -------------------------------------------------------------

  predicate IsNeedle(needle: string) {
    needle == "AND(" || needle == "OR("
  }

  /** How far it is to the needle, quoted text aside; all of the text if it does not occur. */
  function Search(s: string, needle: string, inQuotes: bool): (i: nat)
    ensures i <= |s|
  {
    if s == "" then 0
    else if !inQuotes && needle <= s then 0
    else 1 + Search(s[1..], needle, if s[0] == '\'' then !inQuotes else inQuotes)
  }

  function InQuotesAfter(s: string): bool {
    if s == "" then false else InQuotesAfter(s[..|s| - 1]) != (s[|s| - 1] == '\'')
  }

  /** Which characters stand inside quotes; each quote opens or closes. */
  method GenerateQuotedVector(expression: string) returns (isQuoted: seq<bool>)
    ensures |isQuoted| == |expression| && forall i :: 0 <= i < |isQuoted| ==> isQuoted[i] == InQuotesAfter(expression[..i])
  {
    isQuoted := [];
    var inQuotes := false;
    for i := 0 to |expression|
      invariant |isQuoted| == i && inQuotes == InQuotesAfter(expression[..i])
      invariant forall k :: 0 <= k < i ==> isQuoted[k] == InQuotesAfter(expression[..k])
    {
      assert expression[..i + 1][..i] == expression[..i];
      isQuoted := isQuoted + [inQuotes];
      if expression[i] == '\'' {
        inQuotes := !inQuotes;
      }
    }
  }

  method FindFirstNotInQuotes(expression: string, needle: string, start: nat, isQuoted: seq<bool>) returns (first: int)
    requires start <= |expression| == |isQuoted| && needle != ""
    requires forall i :: 0 <= i < |isQuoted| ==> isQuoted[i] == InQuotesAfter(expression[..i])
    ensures var i := start + Search(expression[start..], needle, InQuotesAfter(expression[..start]));
            first == if i == |expression| then -1 else i
  {
    for i := start to |expression|
      invariant i + Search(expression[i..], needle, InQuotesAfter(expression[..i]))
             == start + Search(expression[start..], needle, InQuotesAfter(expression[..start]))
    {
      assert expression[i..][1..] == expression[i + 1..] && expression[..i + 1][..i] == expression[..i];
      if !isQuoted[i] && needle <= expression[i..] {
        return i;
      }
    }
    return -1;
  }

  predicate Punctuation(s: string) {
    forall i :: 0 <= i < |s| ==> s[i] in "(), "
  }

  lemma {:induction false} SearchPunctuation(s: string, rest: string, needle: string)
    requires Punctuation(s) && IsNeedle(needle)
    ensures Search(s + rest, needle, false) == |s| + Search(rest, needle, false)
  {
    if s == "" {
      assert s + rest == rest;
    } else {
      TailOfConcat(s, rest);
      assert s[0] in "(), ";
      SearchPunctuation(s[1..], rest, needle);
    }
  }

  /** A needle ends with a parenthesis, and none before it. */
  lemma NotInPlain(w: string, rest: string, needle: string)
    requires Plain(w) && w != "" && IsNeedle(needle) && TreeEndsBefore(rest)
    ensures !(needle <= w + rest)
  {
    var k, all := |needle| - 1, w + rest;
    assert needle[k] == '(';
    if k < |w| {
      assert all[k] == w[k] && w[k] !in "()[],' ";
    } else if rest != "" {
      assert all[|w|] == rest[0] && needle[|w|] !in ",)";
    }
  }

  lemma {:induction false} SearchPlain(w: string, rest: string, needle: string)
    requires Plain(w) && IsNeedle(needle) && TreeEndsBefore(rest)
    ensures Search(w + rest, needle, false) == |w| + Search(rest, needle, false)
  {
    if w == "" {
      assert w + rest == rest;
    } else {
      NotInPlain(w, rest, needle);
      TailOfConcat(w, rest);
      assert w[0] !in "()[],' ";
      SearchPlain(w[1..], rest, needle);
    }
  }

  lemma {:induction false} SearchInside(w: string, rest: string, needle: string)
    requires NoQuote(w)
    ensures Search(w + ("'" + rest), needle, true) == |w| + 1 + Search(rest, needle, false)
  {
    if w == "" {
      assert w + ("'" + rest) == "'" + rest;
      TailOfConcat("'", rest);
    } else {
      TailOfConcat(w, "'" + rest);
      SearchInside(w[1..], rest, needle);
    }
  }

  lemma SearchLeaf(w: string, rest: string, needle: string)
    requires IsLeafText(w) && IsNeedle(needle) && TreeEndsBefore(rest)
    ensures Search(w + rest, needle, false) == |w| + Search(rest, needle, false)
  {
    if IsName(w) {
      SearchPlain(w, rest, needle);
    } else {
      QuotedParts(w, rest);
      var inner := w[1..|w| - 1];
      TailOfConcat("'", inner + ("'" + rest));
      SearchInside(inner, rest, needle);
    }
  }

  lemma NotInName(w: string, rest: string, needle: string)
    requires Plain(w) && w != "" && IsNeedle(needle) && !EndsWith(w, "AND") && !EndsWith(w, "OR")
    ensures !(needle <= w + ("(" + rest))
  {
    var k, all := |needle| - 1, w + ("(" + rest);
    assert needle[k] == '(' && all[|w|] == '(';
    if k < |w| {
      assert all[k] == w[k] && w[k] !in "()[],' ";
    } else if k == |w| {
      assert w[|w| - k..] == w && (needle[..k] == "AND" || needle[..k] == "OR");
      assert all[..k] == w && w != needle[..k];
    }
  }

  lemma EndsWithTail(w: string, suffix: string)
    requires w != "" && !EndsWith(w, suffix)
    ensures !EndsWith(w[1..], suffix)
  {
    if |w[1..]| >= |suffix| {
      assert w[1..][|w[1..]| - |suffix|..] == w[|w| - |suffix|..];
    }
  }

  lemma {:induction false} SearchName(w: string, rest: string, needle: string)
    requires Plain(w) && IsNeedle(needle) && !EndsWith(w, "AND") && !EndsWith(w, "OR")
    ensures Search(w + ("(" + rest), needle, false) == |w| + 1 + Search(rest, needle, false)
  {
    if w == "" {
      assert w + ("(" + rest) == "(" + rest;
      TailOfConcat("(", rest);
    } else {
      NotInName(w, rest, needle);
      TailOfConcat(w, "(" + rest);
      assert w[0] !in "()[],' ";
      EndsWithTail(w, "AND");
      EndsWithTail(w, "OR");
      SearchName(w[1..], rest, needle);
    }
  }

  /** At a connective, the search for it ends, and the search for the other one goes on. */
  lemma SearchConnective(op: string, rest: string, needle: string)
    requires IsConnective(op) && IsNeedle(needle)
    ensures Search(op + ("(" + rest), needle, false) == 0 <==> needle == op + "("
  {
    assert op + ("(" + rest) == (op + "(") + rest;
    if needle != op + "(" {
      assert (op + ("(" + rest))[0] != needle[0];
    }
  }

  // ----- the text still to be searched, as pieces -----------------------------------------------

  datatype Pieces = End | Chars(s: string, tail: Pieces) | Whole(t: Tree, tail: Pieces)

  function Text(ps: Pieces): string {
    match ps
    case End => ""
    case Chars(s, tail) => s + Text(tail)
    case Whole(t, tail) => PrintThen(t, Text(tail))
  }

  /** The text the pieces will become. */
  function Target(ps: Pieces): string {
    match ps
    case End => ""
    case Chars(s, tail) => s + Target(tail)
    case Whole(t, tail) => PrintThen(LeftNest(t), Target(tail))
  }

  predicate Good(ps: Pieces) {
    match ps
    case End => true
    case Chars(s, tail) => Punctuation(s) && Good(tail)
    case Whole(t, tail) => ValidTree(t) && TreeEndsBefore(Text(tail)) && Good(tail)
  }

  function ArgPieces(ts: Trees, tail: Pieces): Pieces {
    match ts
    case Nil => tail
    case Cons(t, more) => Whole(t, if more.Nil? then tail else Chars(", ", ArgPieces(more, tail)))
  }

  function ConnectivesLeft(ps: Pieces): nat {
    match ps
    case End => 0
    case Chars(_, tail) => ConnectivesLeft(tail)
    case Whole(t, tail) => Connectives(t) + ConnectivesLeft(tail)
  }

  function TreeWeight(t: Tree): nat {
    match t
    case Leaf(_) => 1
    case Node(_, args) => 2 + TreesWeight(args)
  }

  function TreesWeight(ts: Trees): nat {
    match ts
    case Nil => 0
    case Cons(t, tail) => TreeWeight(t) + 1 + TreesWeight(tail)
  }

  function Weight(ps: Pieces): nat {
    match ps
    case End => 0
    case Chars(_, tail) => 1 + Weight(tail)
    case Whole(t, tail) => TreeWeight(t) + Weight(tail)
  }

  lemma {:induction false} ArgPiecesAre(ts: Trees, tail: Pieces)
    requires ValidTrees(ts) && Good(tail) && TreeEndsBefore(Text(tail))
    ensures Text(ArgPieces(ts, tail)) == ArgsThen(ts, Text(tail))
    ensures Target(ArgPieces(ts, tail)) == ArgsThen(LeftNestAll(ts), Target(tail))
    ensures Good(ArgPieces(ts, tail))
    ensures ConnectivesLeft(ArgPieces(ts, tail)) == ConnectivesIn(ts) + ConnectivesLeft(tail)
    ensures Weight(ArgPieces(ts, tail)) <= TreesWeight(ts) + Weight(tail)
    decreases ts
  {
    match ts
    case Nil =>
    case Cons(t, more) =>
      if more.Cons? {
        ArgPiecesAre(more, tail);
      } else {
        assert LeftNestAll(more) == Nil;
      }
  }

  predicate AtConnective(ps: Pieces) {
    ps.Whole? && ps.t.Node? && IsConnective(ps.t.op)
  }

  /** The pieces without what comes before the first connective or name after it. */
  function Stepped(ps: Pieces): Pieces
    requires !ps.End? && !AtConnective(ps)
  {
    match ps
    case Chars(_, tail) => tail
    case Whole(Leaf(_), tail) => tail
    case Whole(Node(_, args), tail) => ArgPieces(args, Chars(")", tail))
  }

  function StepText(ps: Pieces): string
    requires !ps.End? && !AtConnective(ps)
  {
    match ps
    case Chars(s, _) => s
    case Whole(Leaf(text), _) => text
    case Whole(Node(op, _), _) => op + "("
  }

  lemma {:induction false} QuietText(s: string)
    requires NoQuote(s)
    ensures !InQuotesAfter(s)
  {
    if s != "" { QuietText(s[..|s| - 1]); }
  }

  lemma {:induction false} QuotesConcat(a: string, b: string)
    ensures InQuotesAfter(a + b) == (InQuotesAfter(a) != InQuotesAfter(b))
  {
    if b == "" {
      assert a + b == a;
    } else {
      QuotesConcat(a, b[..|b| - 1]);
      assert (a + b)[..|a + b| - 1] == a + b[..|b| - 1];
    }
  }

  lemma PlainIsQuiet(s: string)
    requires Plain(s) || Punctuation(s)
    ensures NoQuote(s)
  {
    forall i | 0 <= i < |s|
      ensures s[i] != '\''
    {
      assert Punctuation(s) ==> s[i] in "(), ";
      assert Plain(s) ==> s[i] !in "()[],' ";
    }
  }

  lemma LeafClosesQuotes(w: string)
    requires IsLeafText(w)
    ensures !InQuotesAfter(w)
  {
    if IsName(w) {
      PlainIsQuiet(w);
      QuietText(w);
    } else {
      var inner := w[1..|w| - 1];
      assert w[..|w| - 1] == "'" + inner;
      QuotesConcat("'", inner);
      QuietText(inner);
      assert "'"[..0] == "";
    }
  }

  lemma StepQuiet(ps: Pieces)
    requires Good(ps) && !ps.End? && !AtConnective(ps)
    ensures !InQuotesAfter(StepText(ps))
  {
    match ps
    case Chars(s, _) =>
      PlainIsQuiet(s);
      QuietText(s);
    case Whole(Leaf(text), _) =>
      LeafClosesQuotes(text);
    case Whole(Node(op, _), _) =>
      PlainIsQuiet(op);
      QuietText(op);
      QuotesConcat(op, "(");
      QuietText("(");
  }

  lemma StepKeeps(ps: Pieces)
    requires Good(ps) && !ps.End? && !AtConnective(ps)
    ensures Good(Stepped(ps)) && Weight(Stepped(ps)) < Weight(ps)
    ensures ConnectivesLeft(Stepped(ps)) == ConnectivesLeft(ps)
    ensures Text(ps) == StepText(ps) + Text(Stepped(ps)) && Target(ps) == StepText(ps) + Target(Stepped(ps))
  {
    match ps
    case Chars(_, _) =>
    case Whole(Leaf(_), _) =>
    case Whole(Node(op, args), tail) =>
      ArgPiecesAre(args, Chars(")", tail));
      Associate(op, "(", Text(Stepped(ps)));
      Associate(op, "(", Target(Stepped(ps)));
  }

  lemma StepSearch(ps: Pieces, needle: string)
    requires Good(ps) && !ps.End? && !AtConnective(ps) && IsNeedle(needle)
    ensures Search(Text(ps), needle, false) == |StepText(ps)| + Search(Text(Stepped(ps)), needle, false)
  {
    StepKeeps(ps);
    match ps
    case Chars(s, tail) => SearchPunctuation(s, Text(tail), needle);
    case Whole(Leaf(text), tail) => SearchLeaf(text, Text(tail), needle);
    case Whole(Node(op, args), tail) =>
      SearchName(op, Text(Stepped(ps)), needle);
      Associate(op, "(", Text(Stepped(ps)));
  }

  /** Up to the first connective, or to the end, the text stays as it is. */
  lemma {:induction false} Seek(ps: Pieces) returns (skipped: string, rest: Pieces)
    requires Good(ps)
    ensures Good(rest) && (rest.End? || AtConnective(rest)) && ConnectivesLeft(rest) == ConnectivesLeft(ps)
    ensures Text(ps) == skipped + Text(rest) && Target(ps) == skipped + Target(rest) && !InQuotesAfter(skipped)
    ensures Search(Text(ps), "AND(", false) == |skipped| + Search(Text(rest), "AND(", false)
    ensures Search(Text(ps), "OR(", false) == |skipped| + Search(Text(rest), "OR(", false)
    decreases Weight(ps)
  {
    if ps.End? || AtConnective(ps) {
      skipped, rest := "", ps;
    } else {
      var more: string;
      StepKeeps(ps);
      StepQuiet(ps);
      StepSearch(ps, "AND(");
      StepSearch(ps, "OR(");
      more, rest := Seek(Stepped(ps));
      skipped := StepText(ps) + more;
      QuotesConcat(StepText(ps), more);
      Associate(StepText(ps), more, Text(rest));
      Associate(StepText(ps), more, Target(rest));
    }
  }

  // ----- one connective made binary -------------------------------------------------------------

  function Repeat(s: string, n: nat): (r: string)
  {
    if n == 0 then "" else Repeat(s, n - 1) + s
  }

  /** The arguments after the first, each with what closes its level. */
  function NestTail(ts: Trees, tail: Pieces): Pieces {
    match ts
    case Nil => tail
    case Cons(t, more) => Chars(" ", Whole(t, if more.Nil? then Chars(")", tail) else Chars("),", NestTail(more, tail))))
  }

  function NestPieces(args: Trees, tail: Pieces): Pieces
    requires args.Cons?
  {
    Whole(args.head, Chars(",", NestTail(args.tail, tail)))
  }

  /** Both texts of the pieces, a step further. */
  lemma NestTailText(t: Tree, more: Trees, tail: Pieces)
    ensures Text(NestTail(Cons(t, more), tail))
         == " " + PrintThen(t, if more.Nil? then ")" + Text(tail) else ")," + Text(NestTail(more, tail)))
    ensures Target(NestTail(Cons(t, more), tail))
         == " " + PrintThen(LeftNest(t), if more.Nil? then ")" + Target(tail) else ")," + Target(NestTail(more, tail)))
  {
    var after := if more.Nil? then Chars(")", tail) else Chars("),", NestTail(more, tail));
    assert Text(Whole(t, after)) == PrintThen(t, Text(after));
    assert Target(Whole(t, after)) == PrintThen(LeftNest(t), Target(after));
  }

  lemma NestText(args: Trees, tail: Pieces)
    requires args.Cons?
    ensures Text(NestPieces(args, tail)) == PrintThen(args.head, "," + Text(NestTail(args.tail, tail)))
    ensures Target(NestPieces(args, tail)) == PrintThen(LeftNest(args.head), "," + Target(NestTail(args.tail, tail)))
  {
    var after := Chars(",", NestTail(args.tail, tail));
    assert Text(Whole(args.head, after)) == PrintThen(args.head, Text(after));
    assert Target(Whole(args.head, after)) == PrintThen(LeftNest(args.head), Target(after));
  }

  /** What follows the innermost first argument of nested connectives. */
  function FoldTail(ts: Trees, rest: string): string {
    match ts
    case Nil => rest
    case Cons(b, more) => ", " + PrintThen(b, ")" + FoldTail(more, rest))
  }

  lemma {:induction false} FoldPrints(op: string, acc: Tree, ts: Trees, rest: string)
    ensures PrintThen(Fold(op, acc, ts), rest) == Repeat(op + "(", Count(ts)) + PrintThen(acc, FoldTail(ts, rest))
    decreases ts
  {
    match ts
    case Nil =>
      assert "" + PrintThen(acc, rest) == PrintThen(acc, rest);
    case Cons(b, more) =>
      var pair := Node(op, Cons(acc, Cons(b, Nil)));
      var inner := FoldTail(more, rest);
      FoldPrints(op, pair, more, rest);
      assert ArgsThen(Cons(b, Nil), ")" + inner) == PrintThen(b, ")" + inner);
      var body := PrintThen(acc, FoldTail(ts, rest));
      assert PrintThen(pair, inner) == op + ("(" + body);
      Associate(op, "(", body);
      Associate(Repeat(op + "(", Count(more)), op + "(", body);
  }

  lemma CommaSpace(rest: string)
    ensures "," + (" " + rest) == ", " + rest
    ensures ")," + rest == ")" + ("," + rest)
  {
  }

  lemma PieceOf(t: Tree, after: Pieces)
    requires ValidTree(t) && Good(after) && TreeEndsBefore(Text(after))
    ensures var piece := Chars(" ", Whole(t, after));
            Good(piece) && ConnectivesLeft(piece) == Connectives(t) + ConnectivesLeft(after)
  {
    assert Good(Whole(t, after)) && ConnectivesLeft(Whole(t, after)) == Connectives(t) + ConnectivesLeft(after);
  }

  lemma {:induction false} NestTailIs(ts: Trees, tail: Pieces)
    requires ValidTrees(ts) && ts.Cons? && Good(tail)
    ensures Good(NestTail(ts, tail))
    ensures ConnectivesLeft(NestTail(ts, tail)) == ConnectivesIn(ts) + ConnectivesLeft(tail)
    ensures "," + Target(NestTail(ts, tail)) == FoldTail(LeftNestAll(ts), Target(tail))
    decreases ts
  {
    var t, more := ts.head, ts.tail;
    NestTailText(t, more, tail);
    if more.Nil? {
      assert LeftNestAll(more) == Nil;
      PieceOf(t, Chars(")", tail));
      assert ConnectivesIn(ts) == Connectives(t);
      assert FoldTail(LeftNestAll(ts), Target(tail)) == ", " + PrintThen(LeftNest(t), ")" + Target(tail));
      CommaSpace(PrintThen(LeftNest(t), ")" + Target(tail)));
    } else {
      NestTailIs(more, tail);
      PieceOf(t, Chars("),", NestTail(more, tail)));
      var inner := Target(NestTail(more, tail));
      CommaSpace(inner);
      CommaSpace(PrintThen(LeftNest(t), ")," + inner));
    }
  }

  /** Making one connective binary brings the text closer to its target. */
  lemma NestIs(op: string, args: Trees, tail: Pieces)
    requires IsConnective(op) && ValidTrees(args) && Count(args) >= 2 && Good(tail)
    ensures Good(NestPieces(args, tail))
    ensures ConnectivesLeft(NestPieces(args, tail)) < ConnectivesLeft(Whole(Node(op, args), tail))
    ensures Target(Whole(Node(op, args), tail)) == Repeat(op + "(", Count(args) - 1) + Target(NestPieces(args, tail))
  {
    NestTailIs(args.tail, tail);
    NestText(args, tail);
    var after := Chars(",", NestTail(args.tail, tail));
    assert Good(after) && ConnectivesLeft(after) == ConnectivesIn(args.tail) + ConnectivesLeft(tail);
    assert Connectives(Node(op, args)) == 1 + ConnectivesIn(args);
    var nested := LeftNestAll(args);
    FoldPrints(op, nested.head, nested.tail, Target(tail));
  }

  lemma RegroupTail(p: string, close: string, inner: string, rest: string)
    ensures " " + (p + (close + (inner + rest))) == (" " + (p + (close + inner))) + rest
  {
  }

  lemma {:induction false} NestTailConcat(ts: Trees, tail: Pieces)
    requires ts.Cons?
    ensures Text(NestTail(ts, tail)) == Text(NestTail(ts, End)) + Text(tail)
    decreases ts
  {
    var t, more := ts.head, ts.tail;
    NestTailText(t, more, tail);
    NestTailText(t, more, End);
    if more.Nil? {
      assert Text(NestTail(ts, End)) == " " + PrintThen(t, ")" + "");
      PrintConcat(t, ")" + Text(tail));
      PrintConcat(t, ")" + "");
      RegroupTail(Print(t), ")", "", Text(tail));
      assert ")" + ("" + Text(tail)) == ")" + Text(tail);
      assert Text(NestTail(ts, tail)) == " " + (Print(t) + (")" + ("" + Text(tail))));
      assert Text(NestTail(ts, End)) == " " + (Print(t) + (")" + ""));
    } else {
      NestTailConcat(more, tail);
      var inner := Text(NestTail(more, End));
      PrintConcat(t, ")," + (inner + Text(tail)));
      PrintConcat(t, ")," + inner);
      RegroupTail(Print(t), "),", inner, Text(tail));
      assert Text(NestTail(ts, tail)) == " " + (Print(t) + (")," + (inner + Text(tail))));
      assert Text(NestTail(ts, End)) == " " + (Print(t) + (")," + inner));
    }
  }

  lemma NestConcat(args: Trees, tail: Pieces)
    requires Count(args) >= 2
    ensures Text(NestPieces(args, tail)) == Text(NestPieces(args, End)) + Text(tail)
  {
    NestTailConcat(args.tail, tail);
    NestText(args, tail);
    NestText(args, End);
    var inner := Text(NestTail(args.tail, End));
    PrintConcat(args.head, "," + (inner + Text(tail)));
    PrintConcat(args.head, "," + inner);
    assert Print(args.head) + ("," + (inner + Text(tail))) == (Print(args.head) + ("," + inner)) + Text(tail);
  }

  lemma NestTailStep(t: Tree, more: Trees, before: string)
    requires more.Cons?
    ensures before + Text(NestTail(Cons(t, more), End)) == (before + ((" " + Print(t)) + "),")) + Text(NestTail(more, End))
  {
    var inner := Text(NestTail(more, End));
    NestTailText(t, more, End);
    PrintConcat(t, ")," + inner);
    assert before + (" " + (Print(t) + (")," + inner))) == (before + ((" " + Print(t)) + "),")) + inner;
  }

  lemma NestTailEnds(t: Tree, before: string)
    ensures before + Text(NestTail(Cons(t, Nil), End)) == before + (" " + Print(t)) + ")"
  {
    NestTailText(t, Nil, End);
    PrintConcat(t, ")" + "");
    assert before + (" " + (Print(t) + (")" + ""))) == before + (" " + Print(t)) + ")";
  }

  lemma NestStarts(args: Trees, before: string)
    requires Count(args) >= 2
    ensures before + Text(NestPieces(args, End)) == (before + (Print(args.head) + ",")) + Text(NestTail(args.tail, End))
  {
    var inner := Text(NestTail(args.tail, End));
    NestText(args, End);
    PrintConcat(args.head, "," + inner);
    assert before + (Print(args.head) + ("," + inner)) == (before + (Print(args.head) + ",")) + inner;
  }

  /** The loops that put the arguments of one connective back together; `op` has its parenthesis. */
  method Rejoin(prefix: string, op: string, processed: seq<string>, ghost args: Trees) returns (output: string, startPos: nat)
    requires Count(args) >= 2 && processed == ArgTexts(args, true)
    ensures startPos == |prefix + Repeat(op, Count(args) - 1)|
    ensures output == (prefix + Repeat(op, Count(args) - 1)) + Text(NestPieces(args, End))
  {
    output := prefix;
    startPos := |prefix|;
    for i := 0 to |processed| - 1
      invariant output == prefix + Repeat(op, i) && startPos == |output|
    {
      Associate(prefix, Repeat(op, i), op);
      output := output + op;
      startPos := startPos + |op|;
    }
    ghost var unclosed := output;
    NestStarts(args, output);
    output := output + (processed[0] + ",");
    ghost var left := args.tail;
    for i := 1 to |processed| - 1
      invariant left.Cons? && processed[i..] == ArgTexts(left, false)
      invariant output + Text(NestTail(left, End)) == unclosed + Text(NestPieces(args, End))
    {
      NestTailStep(left.head, left.tail, output);
      assert processed[i] == " " + Print(left.head) && processed[i + 1..] == ArgTexts(left.tail, false);
      output := output + (processed[i] + "),");
      left := left.tail;
    }
    NestTailEnds(left.head, output);
    assert |ArgTexts(left, false)| == 1 && left.tail.Nil?;
    output := output + processed[|processed| - 1] + ")";
  }

  // ----- the whole expansion --------------------------------------------------------------------

  lemma {:induction false} PrintedSize(t: Tree)
    ensures |Print(t)| == Size(t)
    decreases t
  {
    match t
    case Leaf(text) =>
    case Node(op, args) =>
      ArgsConcat(args, ")" + "");
      ArgsPrintedSize(args);
  }

  lemma {:induction false} ArgsPrintedSize(ts: Trees)
    ensures |ArgsThen(ts, "")| == ArgsSize(ts)
    decreases ts
  {
    match ts
    case Nil =>
    case Cons(t, tail) =>
      PrintedSize(t);
      if tail.Cons? {
        ArgsPrintedSize(tail);
        PrintConcat(t, ", " + ArgsThen(tail, ""));
      }
  }

  /** The text around the arguments of a connective, cut in three. */
  lemma ThreeParts(before: string, inner: string, tail: string, expression: string)
    requires expression == (before + "(") + (inner + (")" + tail))
    ensures var from := |before| + 1; var end := from + |inner|;
            && end < |expression| && expression[|before|] == '('
            && expression[from..] == inner + (")" + tail)
            && expression[from..end] == inner && expression[end + 1..] == tail
  {
  }

  lemma ClosesAfter(args: Trees, tail: string)
    requires ValidTrees(args)
    ensures Close(ArgsThen(args, ")" + tail), 1, false) == |ArgsThen(args, "")|
    ensures ArgsThen(args, ")" + tail) == ArgsThen(args, "") + (")" + tail)
  {
    CloseTrees(args, ")" + tail, 1);
    TailOfConcat(")", tail);
    ArgsConcat(args, ")" + tail);
    ArgsPrintedSize(args);
  }

  /** The arguments of a connective, found and split. */
  method Arguments(expression: string, expressionStart: nat, ghost before: string, ghost args: Trees, ghost tail: string)
    returns (processed: seq<string>, expressionEnd: nat)
    requires ValidTrees(args) && args.Cons? && expressionStart == |before|
    requires expression == (before + "(") + ArgsThen(args, ")" + tail)
    ensures processed == ArgTexts(args, true)
    ensures expressionEnd < |expression| && expression[expressionEnd + 1..] == tail
  {
    ClosesAfter(args, tail);
    ThreeParts(before, ArgsThen(args, ""), tail, expression);
    CloseOfParentheses(expression[expressionStart + 1..], 1, false);
    expressionEnd := FindClosingChar(expression, expressionStart);
    var rest := expression[expressionStart + 1..expressionEnd];
    processed := GetExpressionsFromExpressionList(rest);
    SplitArgs(args, "", true);
  }

  lemma {:induction false} RepeatQuiet(name: string, n: nat)
    requires IsConnective(name)
    ensures !InQuotesAfter(Repeat(name + "(", n))
  {
    if n > 0 {
      RepeatQuiet(name, n - 1);
      QuietText(name + "(");
      QuotesConcat(Repeat(name + "(", n - 1), name + "(");
    }
  }

  /** Where the expansion stands: what is done, the pieces left, and both texts. */
  ghost predicate Expanding(expression: string, startPos: nat, done: string, left: Pieces, target: string) {
    && expression == done + Text(left) && startPos == |done|
    && Good(left) && !InQuotesAfter(done) && done + Target(left) == target
  }

  lemma BinaryStays(expression: string, done: string, name: string, args: Trees, tail: Pieces, target: string)
    requires Expanding(expression, |done|, done, Whole(Node(name, args), tail), target)
    requires IsConnective(name) && Count(args) == 2
    ensures var left := Chars("(", ArgPieces(args, Chars(")", tail)));
            Expanding(expression, |done + name|, done + name, left, target)
            && ConnectivesLeft(left) < ConnectivesLeft(Whole(Node(name, args), tail))
  {
    var left := Chars("(", ArgPieces(args, Chars(")", tail)));
    var nested := LeftNestAll(args);
    ArgPiecesAre(args, Chars(")", tail));
    assert nested == Cons(nested.head, Cons(nested.tail.head, Nil));
    assert Fold(name, nested.head, nested.tail) == Node(name, nested);
    Associate(done, name, Text(left));
    Associate(done, name, Target(left));
    QuotesConcat(done, name);
    QuietText(name);
  }

  lemma NestedCloser(expression: string, done: string, name: string, args: Trees, tail: Pieces, target: string)
    requires Expanding(expression, |done|, done, Whole(Node(name, args), tail), target)
    requires IsConnective(name) && Count(args) >= 2
    ensures var done' := done + Repeat(name + "(", Count(args) - 1); var left := NestPieces(args, tail);
            Expanding(done' + Text(left), |done'|, done', left, target)
            && ConnectivesLeft(left) < ConnectivesLeft(Whole(Node(name, args), tail))
  {
    var opening := Repeat(name + "(", Count(args) - 1);
    NestIs(name, args, tail);
    Associate(done, opening, Target(NestPieces(args, tail)));
    QuotesConcat(done, opening);
    RepeatQuiet(name, Count(args) - 1);
  }

  /** What stood behind the connective follows its new text. */
  method Behind(nested: string, expression: string, expressionEnd: nat, ghost tail: string) returns (output: string)
    requires expressionEnd < |expression| && expression[expressionEnd + 1..] == tail
    ensures output == nested + tail
  {
    output := nested;
    if expressionEnd < |expression| - 1 {
      output := output + expression[expressionEnd + 1..];
    } else {
      NothingBehind(expression, expressionEnd, tail, output);
    }
  }

  /** A connective with more than two arguments is made binary. */
  method MakeBinary(expression: string, first: nat, op: string, processed: seq<string>, expressionEnd: nat,
                    ghost done: string, ghost name: string, ghost args: Trees, ghost tail: Pieces, ghost target: string)
    returns (output: string, startPos: nat, ghost done': string, ghost left: Pieces)
    requires Expanding(expression, first, done, Whole(Node(name, args), tail), target)
    requires IsConnective(name) && op == name + "(" && Count(args) >= 2 && processed == ArgTexts(args, true)
    requires expressionEnd < |expression| && expression[expressionEnd + 1..] == Text(tail)
    ensures Expanding(output, startPos, done', left, target)
    ensures ConnectivesLeft(left) < ConnectivesLeft(Whole(Node(name, args), tail))
  {
    assert expression[..first] == done;
    var nested;
    nested, startPos := Rejoin(expression[..first], op, processed, args);
    done', left := done + Repeat(op, Count(args) - 1), NestPieces(args, tail);
    NestConcat(args, tail);
    NestedCloser(expression, done, name, args, tail, target);
    Associate(done', Text(NestPieces(args, End)), Text(tail));
    output := Behind(nested, expression, expressionEnd, Text(tail));
  }

  /** The body of the loop at a connective: a binary one is passed by, any other is made binary. */
  method ExpandAt(expression: string, first: nat, op: string, ghost done: string, ghost name: string, ghost args: Trees,
                  ghost tail: Pieces, ghost target: string)
    returns (output: string, startPos: nat, ghost done': string, ghost left: Pieces)
    requires Expanding(expression, first, done, Whole(Node(name, args), tail), target)
    requires IsConnective(name) && op == name + "("
    ensures Expanding(output, startPos, done', left, target)
    ensures ConnectivesLeft(left) < ConnectivesLeft(Whole(Node(name, args), tail))
  {
    ghost var inside := ArgsThen(args, ")" + Text(tail));
    assert expression == ((done + name) + "(") + inside by {
      Associate(done, name, "(" + inside);
      Associate(done + name, "(", inside);
    }
    assert ValidTree(Node(name, args)) && Count(args) >= 2;
    var expressionStart := first + |op| - 1;
    var processed, expressionEnd := Arguments(expression, expressionStart, done + name, args, Text(tail));
    if |processed| == 2 {
      output, startPos := expression, expressionStart;
      BinaryStays(expression, done, name, args, tail, target);
      done', left := done + name, Chars("(", ArgPieces(args, Chars(")", tail)));
    } else {
      output, startPos, done', left :=
        MakeBinary(expression, first, op, processed, expressionEnd, done, name, args, tail, target);
    }
  }

  lemma NothingBehind(expression: string, end: nat, tail: string, output: string)
    requires end == |expression| - 1 && expression[end + 1..] == tail
    ensures output + tail == output
  {
  }

  /** Where the next connective is: the nearer of the two finds, or none. */
  method NextConnective(expression: string, startPos: nat, ghost done: string, ghost left: Pieces)
    returns (first: int, op: string, ghost skipped: string, ghost rest: Pieces)
    requires expression == done + Text(left) && startPos == |done| < |expression| && Good(left) && !InQuotesAfter(done)
    ensures Good(rest) && ConnectivesLeft(rest) == ConnectivesLeft(left) && !InQuotesAfter(skipped)
    ensures Text(left) == skipped + Text(rest) && Target(left) == skipped + Target(rest)
    ensures first < 0 ==> rest.End?
    ensures first >= 0 ==> AtConnective(rest) && op == rest.t.op + "(" && first == startPos + |skipped|
  {
    skipped, rest := Seek(left);
    assert expression[startPos..] == Text(left) && expression[..startPos] == done;
    var isQuotedVector := GenerateQuotedVector(expression);
    var firstAnd := FindFirstNotInQuotes(expression, "AND(", startPos, isQuotedVector);
    var firstOr := FindFirstNotInQuotes(expression, "OR(", startPos, isQuotedVector);
    if AtConnective(rest) {
      var name, args := rest.t.op, rest.t.args;
      SearchConnective(name, ArgsThen(args, ")" + Text(rest.tail)), "AND(");
      SearchConnective(name, ArgsThen(args, ")" + Text(rest.tail)), "OR(");
    }
    first, op := -1, "";
    if firstAnd >= 0 {
      if firstOr >= 0 && firstOr < firstAnd {
        first, op := firstOr, "OR(";
      } else {
        first, op := firstAnd, "AND(";
      }
    } else {
      first, op := firstOr, "OR(";
    }
  }

  lemma NothingLeft(left: Pieces)
    requires Good(left) && Text(left) == ""
    ensures Target(left) == ""
  {
    var skipped, rest := Seek(left);
  }

  /** `expand_if_logical_op`: for the text of any tree, the result is the text of the tree with its
      connectives binary. The loop ends because each round leaves one connective less to be looked at. */
  method ExpandIfLogicalOp(input: string, ghost t: Tree) returns (output: string)
    requires ValidTree(t) && input == Print(t)
    ensures output == Print(LeftNest(t))
  {
    var expression := input;
    output := expression;
    var startPos: nat := 0;
    ghost var done: string, left := "", Whole(t, End);
    assert Text(left) == PrintThen(t, Text(End)) && Target(left) == PrintThen(LeftNest(t), Target(End));
    assert "" + Text(left) == input && "" + Target(left) == Print(LeftNest(t));
    while startPos < |expression|
      invariant output == expression && Expanding(expression, startPos, done, left, Print(LeftNest(t)))
      decreases ConnectivesLeft(left)
    {
      var first, op, skipped, rest := NextConnective(expression, startPos, done, left);
      if first >= 0 {
        Associate(done, skipped, Text(rest));
        Associate(done, skipped, Target(rest));
        QuotesConcat(done, skipped);
        ghost var name, args, tail := rest.t.op, rest.t.args, rest.tail;
        assert rest == Whole(Node(name, args), tail);
        output, startPos, done, left :=
          ExpandAt(expression, first, op, done + skipped, name, args, tail, Print(LeftNest(t)));
        expression := output;
      } else {
        return output;
      }
    }
    assert Text(left) == "";
    NothingLeft(left);
  }
}
