/** Expressions in the planner's notation, op(a, b), and the scanners that walk over them character by
    character (src/CalciteExpressionParsing.cpp). */
module CalciteText {
  import opened Basics

  datatype Tree = Leaf(text: string) | Node(op: string, args: Trees)

  datatype Trees = Nil | Cons(head: Tree, tail: Trees)

  function Count(ts: Trees): nat {
    match ts
    case Nil => 0
    case Cons(_, tail) => 1 + Count(tail)
  }

  // ----- printing -------------------------------------------------------------------------------

  /** The text of a tree, and what follows. */
  function PrintThen(t: Tree, rest: string): string {
    match t
    case Leaf(text) => text + rest
    case Node(op, args) => op + ("(" + ArgsThen(args, ")" + rest))
  }

  /** The texts of some trees, separated by commas, and what follows. */
  function ArgsThen(ts: Trees, rest: string): string {
    match ts
    case Nil => rest
    case Cons(t, tail) => PrintThen(t, if tail.Nil? then rest else ", " + ArgsThen(tail, rest))
  }

  function Print(t: Tree): string {
    PrintThen(t, "")
  }

  // ----- what names and literals look like ------------------------------------------------------

  predicate Plain(s: string) {
    forall i :: 0 <= i < |s| ==> s[i] !in "()[],' "
  }

  predicate NoQuote(s: string) {
    forall i :: 0 <= i < |s| ==> s[i] != '\''
  }

  /** A string literal: quotes around anything but quotes. */
  predicate Quoted(s: string) {
    |s| >= 2 && s[0] == '\'' && s[|s| - 1] == '\'' && NoQuote(s[1..|s| - 1])
  }

  predicate IsName(s: string) {
    s != "" && Plain(s)
  }

  predicate IsLeafText(s: string) {
    IsName(s) || Quoted(s)
  }

  predicate EndsWith(s: string, suffix: string) {
    |s| >= |suffix| && s[|s| - |suffix|..] == suffix
  }

  predicate IsConnective(op: string) {
    op == "AND" || op == "OR"
  }

  /** A name that is searched for inside longer names would be found there; the planner has no such names
      left when the text gets here. */
  predicate IsOperator(op: string) {
    IsName(op) && (IsConnective(op) || (!EndsWith(op, "AND") && !EndsWith(op, "OR")))
  }

  predicate ValidTree(t: Tree) {
    match t
    case Leaf(text) => IsLeafText(text)
    case Node(op, args) => IsOperator(op) && args.Cons? && ValidTrees(args) && (IsConnective(op) ==> Count(args) >= 2)
  }

  predicate ValidTrees(ts: Trees) {
    match ts
    case Nil => true
    case Cons(t, tail) => ValidTree(t) && ValidTrees(tail)
  }

  /** What can follow a tree's text. */
  predicate TreeEndsBefore(rest: string) {
    rest == "" || rest[0] == ',' || rest[0] == ')'
  }

  // ----- the closing parenthesis ----------------------------------------------------------------

  /** Inside quotes, a quote closes them unless the next character is a quote too. */
  predicate ClosesQuote(s: string)
    requires s != ""
  {
    s[0] == '\'' && !(|s| > 1 && s[1] == '\'')
  }

  /** How far it is to the parenthesis that closes the given depth; all of the text if there is none. */
  function Close(s: string, depth: nat, inQuotes: bool): (i: nat)
    ensures i <= |s|
  {
    if s == "" then 0
    else if inQuotes then 1 + Close(s[1..], depth, !ClosesQuote(s))
    else if s[0] == '\'' then 1 + Close(s[1..], depth, true)
    else if s[0] == '(' then 1 + Close(s[1..], depth + 1, false)
    else if s[0] == ')' then
      if depth <= 1 then 0 else 1 + Close(s[1..], depth - 1, false)
    else 1 + Close(s[1..], depth, false)
  }

  /** The same for any pair of characters. */
  function CloseOf(s: string, open: char, close: char, depth: nat, inQuotes: bool): (i: nat)
    ensures i <= |s|
  {
    if s == "" then 0
    else if inQuotes then 1 + CloseOf(s[1..], open, close, depth, !ClosesQuote(s))
    else if s[0] == '\'' then 1 + CloseOf(s[1..], open, close, depth, true)
    else if s[0] == open then 1 + CloseOf(s[1..], open, close, depth + 1, false)
    else if s[0] == close then
      if depth <= 1 then 0 else 1 + CloseOf(s[1..], open, close, depth - 1, false)
    else 1 + CloseOf(s[1..], open, close, depth, false)
  }

  lemma {:induction false} CloseOfParentheses(s: string, depth: nat, inQuotes: bool)
    ensures CloseOf(s, '(', ')', depth, inQuotes) == Close(s, depth, inQuotes)
    decreases |s|
  {
    if s != "" {
      if inQuotes {
        CloseOfParentheses(s[1..], depth, !ClosesQuote(s));
      } else if s[0] == '(' {
        CloseOfParentheses(s[1..], depth + 1, false);
      } else if s[0] == ')' && depth > 1 {
        CloseOfParentheses(s[1..], depth - 1, false);
      } else {
        CloseOfParentheses(s[1..], depth, s[0] == '\'');
      }
    }
  }

  /** `find_closing_char` */
  method FindClosingChar(expression: string, start: nat) returns (at: int)
    requires start < |expression|
    ensures expression[start] !in "([" ==> at == -1
    ensures expression[start] in "([" ==>
              var close := if expression[start] == '(' then ')' else ']';
              var i := CloseOf(expression[start + 1..], expression[start], close, 1, false);
              at == if start + 1 + i == |expression| then -1 else start + 1 + i
  {
    var openChar := expression[start];
    var closeChar := openChar;
    if openChar == '(' {
      closeChar := ')';
    } else if openChar == '[' {
      closeChar := ']';
    } else {
      return -1;
    }
    var curInd := start + 1;
    var depth := 1;
    var inQuotes := false;
    while curInd < |expression|
      invariant start < curInd <= |expression| && depth >= 1
      invariant curInd + CloseOf(expression[curInd..], openChar, closeChar, depth, inQuotes)
             == start + 1 + CloseOf(expression[start + 1..], openChar, closeChar, 1, false)
      decreases |expression| - curInd
    {
      assert expression[curInd..][1..] == expression[curInd + 1..];
      if inQuotes {
        if expression[curInd] == '\'' {
          if !(curInd + 1 < |expression| && expression[curInd + 1] == '\'') {
            inQuotes := false;
          }
        }
      } else {
        if expression[curInd] == '\'' {
          inQuotes := true;
        } else if expression[curInd] == openChar {
          depth := depth + 1;
        } else if expression[curInd] == closeChar {
          if depth == 1 {
            return curInd;
          }
          depth := depth - 1;
        }
      }
      curInd := curInd + 1;
    }
    return -1;
  }

  lemma TailOfConcat(w: string, rest: string)
    requires w != ""
    ensures (w + rest)[0] == w[0] && (w + rest)[1..] == w[1..] + rest
  {
  }

  lemma {:induction false} ClosePlain(w: string, rest: string, depth: nat)
    requires Plain(w)
    ensures Close(w + rest, depth, false) == |w| + Close(rest, depth, false)
  {
    if w == "" {
      assert w + rest == rest;
    } else {
      TailOfConcat(w, rest);
      assert w[0] !in "()[],' ";
      ClosePlain(w[1..], rest, depth);
    }
  }

  lemma {:induction false} CloseInside(w: string, rest: string, depth: nat)
    requires NoQuote(w) && (rest == "" || rest[0] != '\'')
    ensures Close(w + ("'" + rest), depth, true) == |w| + 1 + Close(rest, depth, false)
  {
    if w == "" {
      assert w + ("'" + rest) == "'" + rest;
      TailOfConcat("'", rest);
    } else {
      TailOfConcat(w, "'" + rest);
      CloseInside(w[1..], rest, depth);
    }
  }

  lemma QuotedParts(w: string, rest: string)
    requires Quoted(w)
    ensures var inner := w[1..|w| - 1];
            NoQuote(inner) && |w| == |inner| + 2 && w + rest == "'" + (inner + ("'" + rest))
  {
  }

  lemma CloseLeaf(w: string, rest: string, depth: nat)
    requires IsLeafText(w) && TreeEndsBefore(rest)
    ensures Close(w + rest, depth, false) == |w| + Close(rest, depth, false)
  {
    if IsName(w) {
      ClosePlain(w, rest, depth);
    } else {
      QuotedParts(w, rest);
      var inner := w[1..|w| - 1];
      TailOfConcat("'", inner + ("'" + rest));
      CloseInside(inner, rest, depth);
    }
  }

  function Size(t: Tree): nat {
    match t
    case Leaf(text) => |text|
    case Node(op, args) => |op| + 2 + ArgsSize(args)
  }

  function ArgsSize(ts: Trees): nat {
    match ts
    case Nil => 0
    case Cons(t, tail) => Size(t) + (if tail.Nil? then 0 else 2 + ArgsSize(tail))
  }

  /** The search passes over a whole tree. */
  lemma {:induction false} CloseTree(t: Tree, rest: string, depth: nat)
    requires ValidTree(t) && TreeEndsBefore(rest) && depth >= 1
    ensures Close(PrintThen(t, rest), depth, false) == Size(t) + Close(rest, depth, false)
    decreases t
  {
    match t
    case Leaf(text) =>
      CloseLeaf(text, rest, depth);
    case Node(op, args) =>
      var inside := ArgsThen(args, ")" + rest);
      ClosePlain(op, "(" + inside, depth);
      CloseTrees(args, ")" + rest, depth + 1);
  }

  lemma {:induction false} CloseTrees(ts: Trees, rest: string, depth: nat)
    requires ValidTrees(ts) && TreeEndsBefore(rest) && depth >= 1
    ensures Close(ArgsThen(ts, rest), depth, false) == ArgsSize(ts) + Close(rest, depth, false)
    decreases ts
  {
    match ts
    case Nil =>
    case Cons(t, tail) =>
      if tail.Nil? {
        CloseTree(t, rest, depth);
      } else {
        var more := ArgsThen(tail, rest);
        CloseTree(t, ", " + more, depth);
        CloseTrees(tail, rest, depth);
      }
  }

  // ----- the list splitter ----------------------------------------------------------------------

  /** The pieces of a list from some point on, `piece` being what the current one has so far. */
  function Split(s: string, piece: string, parens: int, brackets: int, inQuotes: bool): seq<string> {
    if s == "" then (if piece == "" then [] else [piece])
    else if inQuotes then Split(s[1..], piece + [s[0]], parens, brackets, !ClosesQuote(s))
    else if s[0] == '\'' then Split(s[1..], piece + [s[0]], parens, brackets, true)
    else if s[0] == '(' then Split(s[1..], piece + [s[0]], parens + 1, brackets, false)
    else if s[0] == ')' then Split(s[1..], piece + [s[0]], parens - 1, brackets, false)
    else if s[0] == '[' then Split(s[1..], piece + [s[0]], parens, brackets + 1, false)
    else if s[0] == ']' then Split(s[1..], piece + [s[0]], parens, brackets - 1, false)
    else if s[0] == ',' && parens == 0 && brackets == 0 then [piece] + Split(s[1..], "", parens, brackets, false)
    else Split(s[1..], piece + [s[0]], parens, brackets, false)
  }

  /** `get_expressions_from_expression_list` without trimming, on text without anything to replace */
  method GetExpressionsFromExpressionList(combinedExpression: string) returns (expressions: seq<string>)
    ensures expressions == Split(combinedExpression, "", 0, 0, false)
  {
    expressions := [];
    var curInd, curStart := 0, 0;
    var inQuotes := false;
    var parenthesisDepth, sqBraketsDepth := 0, 0;
    while curInd < |combinedExpression|
      invariant curStart <= curInd <= |combinedExpression|
      invariant expressions + Split(combinedExpression[curInd..], combinedExpression[curStart..curInd],
                                    parenthesisDepth, sqBraketsDepth, inQuotes)
             == Split(combinedExpression, "", 0, 0, false)
      decreases |combinedExpression| - curInd
    {
      var c := combinedExpression[curInd];
      ghost var rest := combinedExpression[curInd..];
      assert rest[1..] == combinedExpression[curInd + 1..];
      assert combinedExpression[curStart..curInd] + [c] == combinedExpression[curStart..curInd + 1];
      if inQuotes {
        if c == '\'' {
          if !(curInd + 1 < |combinedExpression| && combinedExpression[curInd + 1] == '\'') {
            inQuotes := false;
          }
        }
      } else {
        if c == '\'' {
          inQuotes := true;
        } else if c == '(' {
          parenthesisDepth := parenthesisDepth + 1;
        } else if c == ')' {
          parenthesisDepth := parenthesisDepth - 1;
        } else if c == '[' {
          sqBraketsDepth := sqBraketsDepth + 1;
        } else if c == ']' {
          sqBraketsDepth := sqBraketsDepth - 1;
        } else if c == ',' && parenthesisDepth == 0 && sqBraketsDepth == 0 {
          ghost var piece := combinedExpression[curStart..curInd];
          ghost var more := Split(rest[1..], "", parenthesisDepth, sqBraketsDepth, false);
          Associate(expressions, [piece], more);
          expressions := expressions + [combinedExpression[curStart..curInd]];
          curStart := curInd + 1;
          assert combinedExpression[curStart..curInd + 1] == "";
        }
      }
      curInd := curInd + 1;
    }
    assert combinedExpression[curStart..curInd] == combinedExpression[curStart..] && combinedExpression[curInd..] == "";
    if curStart < |combinedExpression| {
      expressions := expressions + [combinedExpression[curStart..]];
    }
  }

  lemma {:induction false} SplitPlain(w: string, rest: string, piece: string, parens: int, brackets: int)
    requires Plain(w)
    ensures Split(w + rest, piece, parens, brackets, false) == Split(rest, piece + w, parens, brackets, false)
    decreases |w|
  {
    if w == "" {
      assert w + rest == rest && piece + w == piece;
    } else {
      TailOfConcat(w, rest);
      assert w[0] !in "()[],' ";
      SplitPlain(w[1..], rest, piece + [w[0]], parens, brackets);
      assert (piece + [w[0]]) + w[1..] == piece + w;
    }
  }

  lemma {:induction false} SplitInside(w: string, rest: string, piece: string, parens: int, brackets: int)
    requires NoQuote(w) && (rest == "" || rest[0] != '\'')
    ensures Split(w + ("'" + rest), piece, parens, brackets, true) == Split(rest, piece + (w + "'"), parens, brackets, false)
    decreases |w|
  {
    if w == "" {
      assert w + ("'" + rest) == "'" + rest && w + "'" == ['\''];
      TailOfConcat("'", rest);
    } else {
      TailOfConcat(w, "'" + rest);
      SplitInside(w[1..], rest, piece + [w[0]], parens, brackets);
      assert (piece + [w[0]]) + (w[1..] + "'") == piece + (w + "'");
    }
  }

  lemma SplitLeaf(w: string, rest: string, piece: string, parens: int, brackets: int)
    requires IsLeafText(w) && TreeEndsBefore(rest)
    ensures Split(w + rest, piece, parens, brackets, false) == Split(rest, piece + w, parens, brackets, false)
  {
    if IsName(w) {
      SplitPlain(w, rest, piece, parens, brackets);
    } else {
      QuotedParts(w, rest);
      var inner := w[1..|w| - 1];
      TailOfConcat("'", inner + ("'" + rest));
      SplitInside(inner, rest, piece + ['\''], parens, brackets);
      assert (piece + ['\'']) + (inner + "'") == piece + w;
    }
  }

  /** Inside parentheses, the splitter takes a whole tree into its piece. */
  lemma {:induction false} SplitTree(t: Tree, rest: string, piece: string, parens: nat)
    requires ValidTree(t) && TreeEndsBefore(rest)
    ensures Split(PrintThen(t, rest), piece, parens, 0, false) == Split(rest, piece + Print(t), parens, 0, false)
    decreases t
  {
    match t
    case Leaf(text) =>
      assert text + "" == text;
      SplitLeaf(text, rest, piece, parens, 0);
    case Node(op, args) =>
      var inside := ArgsThen(args, ")" + rest);
      SplitPlain(op, "(" + inside, piece, parens, 0);
      SplitTrees(args, ")" + rest, piece + op + ['('], parens + 1);
      var all := piece + op + ['('] + ArgsThen(args, "");
      NodeText(op, args, piece, all);
  }

  lemma NodeText(op: string, args: Trees, piece: string, all: string)
    requires all == piece + op + ['('] + ArgsThen(args, "")
    ensures all + [')'] == piece + Print(Node(op, args))
  {
    ArgsConcat(args, ")");
    assert ")" + "" == ")";
  }

  lemma {:induction false} SplitTrees(ts: Trees, rest: string, piece: string, parens: nat)
    requires ValidTrees(ts) && TreeEndsBefore(rest) && parens > 0
    ensures Split(ArgsThen(ts, rest), piece, parens, 0, false) == Split(rest, piece + ArgsThen(ts, ""), parens, 0, false)
    decreases ts
  {
    match ts
    case Nil =>
      assert piece + "" == piece;
    case Cons(t, tail) =>
      if tail.Nil? {
        SplitTree(t, rest, piece, parens);
      } else {
        var more := ArgsThen(tail, rest);
        SplitTree(t, ", " + more, piece, parens);
        SplitComma(more, piece + Print(t), parens);
        SplitTrees(tail, rest, piece + Print(t) + ", ", parens);
        PrintConcat(t, ", " + ArgsThen(tail, ""));
        assert piece + Print(t) + ", " + ArgsThen(tail, "") == piece + (Print(t) + (", " + ArgsThen(tail, "")));
      }
  }

  lemma SplitComma(more: string, piece: string, parens: nat)
    requires parens > 0
    ensures Split(", " + more, piece, parens, 0, false) == Split(more, piece + ", ", parens, 0, false)
  {
    assert ", " + more == [','] + ([' '] + more);
    assert piece + [','] + [' '] == piece + ", ";
  }

  lemma {:induction false} PrintConcat(t: Tree, rest: string)
    ensures PrintThen(t, rest) == Print(t) + rest
    decreases t
  {
    match t
    case Leaf(text) =>
      assert text + "" == text;
    case Node(op, args) =>
      ArgsConcat(args, ")" + rest);
      ArgsConcat(args, ")");
      assert ")" + "" == ")";
      assert op + ("(" + (ArgsThen(args, "") + (")" + rest))) == (op + ("(" + (ArgsThen(args, "") + ")"))) + rest;
  }

  lemma {:induction false} ArgsConcat(ts: Trees, rest: string)
    ensures ArgsThen(ts, rest) == ArgsThen(ts, "") + rest
    decreases ts
  {
    match ts
    case Nil =>
      assert "" + rest == rest;
    case Cons(t, tail) =>
      if tail.Nil? {
        PrintConcat(t, rest);
        assert Print(t) + "" == Print(t);
      } else {
        PrintConcat(t, ", " + ArgsThen(tail, rest));
        PrintConcat(t, ", " + ArgsThen(tail, ""));
        ArgsConcat(tail, rest);
        assert Print(t) + (", " + (ArgsThen(tail, "") + rest)) == (Print(t) + (", " + ArgsThen(tail, ""))) + rest;
      }
  }

  /** What the splitter makes of printed arguments: all but the first keep the space before them. */
  function ArgTexts(ts: Trees, first: bool): (texts: seq<string>)
    ensures |texts| == Count(ts)
  {
    match ts
    case Nil => []
    case Cons(t, tail) => [if first then Print(t) else " " + Print(t)] + ArgTexts(tail, false)
  }

  /** The splitter finds the arguments. */
  lemma {:induction false} SplitArgs(ts: Trees, piece: string, first: bool)
    requires ValidTrees(ts) && ts.Cons? && piece == if first then "" else " "
    ensures Split(ArgsThen(ts, ""), piece, 0, 0, false) == ArgTexts(ts, first)
    decreases ts
  {
    var t, tail := ts.head, ts.tail;
    assert "" + Print(t) == Print(t);
    if tail.Nil? {
      SplitTree(t, "", piece, 0);
    } else {
      var more := ArgsThen(tail, "");
      SplitTree(t, ", " + more, piece, 0);
      SplitArgs(tail, " ", false);
      AtComma(more, piece + Print(t));
    }
  }

  lemma AtComma(more: string, piece: string)
    ensures Split(", " + more, piece, 0, 0, false) == [piece] + Split(more, " ", 0, 0, false)
  {
    assert ", " + more == [','] + ([' '] + more);
    TailOfConcat([','], [' '] + more);
    assert "" + [' '] == " ";
  }

  // ----- other texts ----------------------------------------------------------------------------

  /** Inside quotes, a single quote ends them. Of two in a row the second one does, so that a doubled quote does
      not stay inside them. */
  lemma DoubledQuoteEnds(rest: string, piece: string, depth: nat, parens: int, brackets: int)
    requires rest == "" || rest[0] != '\''
    ensures Close("'" + rest, depth, true) == 1 + Close(rest, depth, false)
    ensures Close("''" + rest, depth, true) == 2 + Close(rest, depth, false)
    ensures Split("''" + rest, piece, parens, brackets, true) == Split(rest, piece + "''", parens, brackets, false)
  {
    var one := "'" + rest;
    TailOfConcat("'", rest);
    assert "''" + rest == "'" + one;
    TailOfConcat("'", one);
    assert (piece + ['\'']) + ['\''] == piece + "''";
  }

  /** Text without quotes, parentheses and brackets. */
  predicate Flatly(s: string) {
    forall i :: 0 <= i < |s| ==> s[i] !in "'()[]"
  }

  lemma {:induction false} SplitWithin(s: string, rest: string, piece: string, parens: int, brackets: int)
    requires Flatly(s) && !(parens == 0 && brackets == 0)
    ensures Split(s + rest, piece, parens, brackets, false) == Split(rest, piece + s, parens, brackets, false)
    decreases |s|
  {
    if s == "" {
      assert s + rest == rest && piece + s == piece;
    } else {
      TailOfConcat(s, rest);
      SplitWithin(s[1..], rest, piece + [s[0]], parens, brackets);
      assert (piece + [s[0]]) + s[1..] == piece + s;
    }
  }

  /** Commas inside square brackets separate nothing, and behind the brackets they do again. */
  lemma SplitBrackets(s: string, rest: string, piece: string)
    requires Flatly(s)
    ensures Split("[" + s + "]" + rest, piece, 0, 0, false) == Split(rest, piece + ("[" + s + "]"), 0, 0, false)
  {
    var tail := "]" + rest;
    assert "[" + s + "]" + rest == "[" + (s + tail);
    TailOfConcat("[", s + tail);
    SplitWithin(s, tail, piece + ['['], 0, 1);
    TailOfConcat("]", rest);
    assert (piece + ['['] + s) + [']'] == piece + ("[" + s + "]");
  }

  /** A comma at the end is followed by no empty piece; an empty list has no piece at all. */
  lemma NoEmptyLastPiece(w: string)
    requires Plain(w)
    ensures Split(w + ",", "", 0, 0, false) == [w] && Split("", "", 0, 0, false) == []
  {
    SplitPlain(w, ",", "", 0, 0);
    assert "" + w == w;
    assert ","[1..] == "";
    assert Split(",", w, 0, 0, false) == [w] + Split("", "", 0, 0, false);
  }
}
