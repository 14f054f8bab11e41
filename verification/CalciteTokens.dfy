/** From the text of an expression to its tokens and back (src/CalciteExpressionParsing.cpp). */
module CalciteTokens {
  import opened Basics
  import opened CalciteText
  import opened ConnectiveExpansion
  import CalciteExpression

  // ----- flattening -----------------------------------------------------------------------------

  /** An opening parenthesis becomes a space; commas and closing parentheses go, in quotes too. */
  function Flat(s: string): string {
    if s == "" then ""
    else (if s[0] == '(' then " " else if s[0] == ',' || s[0] == ')' then "" else [s[0]]) + Flat(s[1..])
  }

  method Flatten(expression: string) returns (newString: string)
    ensures newString == Flat(expression)
  {
    newString := "";
    for i := 0 to |expression|
      invariant newString + Flat(expression[i..]) == Flat(expression)
    {
      assert expression[i..][1..] == expression[i + 1..];
      if expression[i] == '(' {
        Associate(newString, " ", Flat(expression[i + 1..]));
        newString := newString + " ";
      } else if expression[i] != ',' && expression[i] != ')' {
        Associate(newString, [expression[i]], Flat(expression[i + 1..]));
        newString := newString + [expression[i]];
      }
    }
  }

  predicate NoMarks(s: string) {
    forall i :: 0 <= i < |s| ==> s[i] !in "(),"
  }

  /** What becomes of one character. */
  function FlatChar(c: char): string {
    if c == '(' then " " else if c == ',' || c == ')' then "" else [c]
  }

  lemma FlatStep(c: char, rest: string)
    ensures Flat([c] + rest) == FlatChar(c) + Flat(rest)
  {
    TailOfConcat([c], rest);
  }

  /** Flattening goes character by character: whatever stands before or after, parentheses and commas are treated
      alike and everything else stays. */
  lemma {:induction false} FlatConcat(a: string, b: string)
    ensures Flat(a + b) == Flat(a) + Flat(b)
    decreases |a|
  {
    if a == "" {
      assert a + b == b;
    } else {
      var c, rest := a[0], a[1..];
      assert a == [c] + rest && a + b == [c] + (rest + b);
      FlatStep(c, rest);
      FlatStep(c, rest + b);
      FlatConcat(rest, b);
      Associate(FlatChar(c), Flat(rest), Flat(b));
    }
  }

  lemma FlatAround(start: string, mark: string, end: string)
    requires NoMarks(start) && NoMarks(end)
    ensures Flat(start + (mark + end)) == start + (Flat(mark) + end)
  {
    FlatConcat(start, mark + end);
    FlatConcat(mark, end);
    FlatKeeps(start, "");
    FlatKeeps(end, "");
    assert start + "" == start && end + "" == end;
  }

  /** String literals lose their commas and parentheses, so that different ones can become the same. */
  lemma MarksInQuotesLost(a: string, b: string)
    requires NoMarks(a) && NoMarks(b)
    ensures Flat("'" + a + ("," + (b + "'"))) == "'" + a + (b + "'")
    ensures Flat("'" + a + (")" + (b + "'"))) == "'" + a + (b + "'")
    ensures Flat("'" + a + ("(" + (b + "'"))) == "'" + a + (" " + (b + "'"))
  {
    FlatAround("'" + a, ",", b + "'");
    FlatAround("'" + a, ")", b + "'");
    FlatAround("'" + a, "(", b + "'");
    OneMark();
    assert "" + (b + "'") == b + "'";
  }

  lemma OneMark()
    ensures Flat(",") == "" && Flat(")") == "" && Flat("(") == " "
  {
  }

  /** Names, and literals that flattening leaves alone. */
  predicate Flattens(t: Tree) {
    match t
    case Leaf(text) => IsLeafText(text) && NoMarks(text)
    case Node(op, args) => IsName(op) && args.Cons? && FlattenAll(args)
  }

  predicate FlattenAll(ts: Trees) {
    match ts
    case Nil => true
    case Cons(t, tail) => Flattens(t) && FlattenAll(tail)
  }

  /** The flat text of a tree, and what follows. */
  function FlatThen(t: Tree, rest: string): string {
    match t
    case Leaf(text) => text + rest
    case Node(op, args) => op + (" " + FlatArgsThen(args, rest))
  }

  function FlatArgsThen(ts: Trees, rest: string): string {
    match ts
    case Nil => rest
    case Cons(t, tail) => FlatThen(t, if tail.Nil? then rest else " " + FlatArgsThen(tail, rest))
  }

  lemma {:induction false} FlatKeeps(w: string, rest: string)
    requires NoMarks(w)
    ensures Flat(w + rest) == w + Flat(rest)
  {
    if w == "" {
      assert w + rest == rest && w + Flat(rest) == Flat(rest);
    } else {
      TailOfConcat(w, rest);
      FlatKeeps(w[1..], rest);
      assert [w[0]] + (w[1..] + Flat(rest)) == w + Flat(rest);
    }
  }

  lemma FlatMark(mark: string, rest: string)
    ensures Flat("(" + rest) == " " + Flat(rest) && Flat(")" + rest) == Flat(rest)
    ensures Flat(", " + rest) == " " + Flat(rest)
  {
    TailOfConcat("(", rest);
    TailOfConcat(")", rest);
    assert ", " + rest == "," + (" " + rest);
    TailOfConcat(",", " " + rest);
    TailOfConcat(" ", rest);
    assert "" + Flat(rest) == Flat(rest) && "" + Flat(" " + rest) == Flat(" " + rest);
  }

  lemma {:induction false} FlatTree(t: Tree, rest: string)
    requires Flattens(t)
    ensures Flat(PrintThen(t, rest)) == FlatThen(t, Flat(rest))
    decreases t
  {
    match t
    case Leaf(text) =>
      FlatKeeps(text, rest);
    case Node(op, args) =>
      var inside := ArgsThen(args, ")" + rest);
      FlatKeeps(op, "(" + inside);
      FlatMark("", inside);
      FlatMark("", rest);
      FlatTrees(args, ")" + rest);
  }

  lemma {:induction false} FlatTrees(ts: Trees, rest: string)
    requires FlattenAll(ts)
    ensures Flat(ArgsThen(ts, rest)) == FlatArgsThen(ts, Flat(rest))
    decreases ts
  {
    match ts
    case Nil =>
    case Cons(t, tail) =>
      if tail.Nil? {
        FlatTree(t, rest);
      } else {
        FlatTree(t, ", " + ArgsThen(tail, rest));
        FlatMark("", ArgsThen(tail, rest));
        FlatTrees(tail, rest);
      }
  }

  // ----- words ----------------------------------------------------------------------------------

  /** The words of a text, split at the spaces outside quotes; `word` is what the current one has so far. */
  function Words(s: string, word: string, inQuotes: bool): seq<string> {
    if s == "" then [word]
    else if s[0] == ' ' && !inQuotes then [word] + Words(s[1..], "", false)
    else Words(s[1..], word + [s[0]], if s[0] == '\'' then !inQuotes else inQuotes)
  }

  method SplitNotInQuotes(expression: string) returns (words: seq<string>)
    ensures words == Words(expression, "", false)
  {
    words := [];
    var start, inQuotes := 0, false;
    for i := 0 to |expression|
      invariant start <= i
      invariant words + Words(expression[i..], expression[start..i], inQuotes) == Words(expression, "", false)
    {
      assert expression[i..][1..] == expression[i + 1..];
      assert expression[start..i] + [expression[i]] == expression[start..i + 1];
      if expression[i] == ' ' && !inQuotes {
        Associate(words, [expression[start..i]], Words(expression[i + 1..], "", false));
        words := words + [expression[start..i]];
        start := i + 1;
        assert expression[start..i + 1] == "";
      } else if expression[i] == '\'' {
        inQuotes := !inQuotes;
      }
    }
    assert expression[start..|expression|] == expression[start..];
    words := words + [expression[start..]];
  }

  function Reversed(s: seq<string>): (r: seq<string>) {
    if s == [] then [] else Reversed(s[1..]) + [s[0]]
  }

  method GetTokensInReverseOrder(expression: string) returns (tokens: seq<string>)
    ensures tokens == Reversed(Words(expression, "", false))
  {
    var words := SplitNotInQuotes(expression);
    tokens := [];
    for i := 0 to |words|
      invariant Reversed(words[i..]) + tokens == Reversed(words)
    {
      assert words[i..][1..] == words[i + 1..];
      Associate(Reversed(words[i + 1..]), [words[i]], tokens);
      tokens := [words[i]] + tokens;
    }
    assert [] + tokens == tokens;
  }

  lemma {:induction false} WordPlain(w: string, rest: string, word: string)
    requires Plain(w)
    ensures Words(w + rest, word, false) == Words(rest, word + w, false)
    decreases |w|
  {
    if w == "" {
      assert w + rest == rest && word + w == word;
    } else {
      TailOfConcat(w, rest);
      assert w[0] !in "()[],' ";
      WordPlain(w[1..], rest, word + [w[0]]);
      assert (word + [w[0]]) + w[1..] == word + w;
    }
  }

  lemma {:induction false} WordInside(w: string, rest: string, word: string)
    requires NoQuote(w)
    ensures Words(w + ("'" + rest), word, true) == Words(rest, word + (w + "'"), false)
    decreases |w|
  {
    if w == "" {
      assert w + ("'" + rest) == "'" + rest && w + "'" == ['\''];
      TailOfConcat("'", rest);
    } else {
      TailOfConcat(w, "'" + rest);
      WordInside(w[1..], rest, word + [w[0]]);
      assert (word + [w[0]]) + (w[1..] + "'") == word + (w + "'");
    }
  }

  /** What comes after a word. */
  ghost function After(rest: string): seq<string>
    requires rest == "" || rest[0] == ' '
  {
    if rest == "" then [] else Words(rest[1..], "", false)
  }

  lemma WordOf(w: string, rest: string)
    requires IsLeafText(w) && (rest == "" || rest[0] == ' ')
    ensures Words(w + rest, "", false) == [w] + After(rest)
  {
    if IsName(w) {
      WordPlain(w, rest, "");
      assert "" + w == w;
    } else {
      QuotedParts(w, rest);
      var inner := w[1..|w| - 1];
      TailOfConcat("'", inner + ("'" + rest));
      WordInside(inner, rest, "" + ['\'']);
      assert ("" + ['\'']) + (inner + "'") == w;
    }
  }

  /** The words of a tree in prefix order, and what follows. */
  function PrefixThen(t: Tree, rest: seq<string>): seq<string> {
    match t
    case Leaf(text) => [text] + rest
    case Node(op, args) => [op] + ArgsPrefixThen(args, rest)
  }

  function ArgsPrefixThen(ts: Trees, rest: seq<string>): seq<string> {
    match ts
    case Nil => rest
    case Cons(t, tail) => PrefixThen(t, ArgsPrefixThen(tail, rest))
  }

  lemma {:induction false} WordsOfTree(t: Tree, rest: string)
    requires Flattens(t) && (rest == "" || rest[0] == ' ')
    ensures Words(FlatThen(t, rest), "", false) == PrefixThen(t, After(rest))
    decreases t
  {
    match t
    case Leaf(text) =>
      WordOf(text, rest);
    case Node(op, args) =>
      var inside := FlatArgsThen(args, rest);
      WordOf(op, " " + inside);
      TailOfConcat(" ", inside);
      WordsOfTrees(args, rest);
  }

  lemma {:induction false} WordsOfTrees(ts: Trees, rest: string)
    requires FlattenAll(ts) && ts.Cons? && (rest == "" || rest[0] == ' ')
    ensures Words(FlatArgsThen(ts, rest), "", false) == ArgsPrefixThen(ts, After(rest))
    decreases ts
  {
    var t, tail := ts.head, ts.tail;
    if tail.Nil? {
      WordsOfTree(t, rest);
    } else {
      var more := FlatArgsThen(tail, rest);
      WordsOfTree(t, " " + more);
      TailOfConcat(" ", more);
      WordsOfTrees(tail, rest);
    }
  }

  /** The words of a tree, last word first, and what follows. */
  function BackwardsThen(t: Tree, rest: seq<string>): seq<string> {
    match t
    case Leaf(text) => [text] + rest
    case Node(op, args) => ArgsBackwardsThen(args, [op] + rest)
  }

  function ArgsBackwardsThen(ts: Trees, rest: seq<string>): seq<string> {
    match ts
    case Nil => rest
    case Cons(t, tail) => ArgsBackwardsThen(tail, BackwardsThen(t, rest))
  }

  lemma {:induction false} ReversedTree(t: Tree, after: seq<string>, rest: seq<string>)
    ensures Reversed(PrefixThen(t, after)) + rest == Reversed(after) + BackwardsThen(t, rest)
    decreases t
  {
    match t
    case Leaf(text) =>
      assert ([text] + after)[1..] == after;
      Associate(Reversed(after), [text], rest);
    case Node(op, args) =>
      var words := ArgsPrefixThen(args, after);
      assert ([op] + words)[1..] == words;
      Associate(Reversed(words), [op], rest);
      ReversedTrees(args, after, [op] + rest);
  }

  lemma {:induction false} ReversedTrees(ts: Trees, after: seq<string>, rest: seq<string>)
    ensures Reversed(ArgsPrefixThen(ts, after)) + rest == Reversed(after) + ArgsBackwardsThen(ts, rest)
    decreases ts
  {
    match ts
    case Nil =>
    case Cons(t, tail) =>
      ReversedTree(t, ArgsPrefixThen(tail, after), rest);
      ReversedTrees(tail, after, BackwardsThen(t, rest));
  }

  /** Printing, flattening, splitting and reversing yields the words of the tree, last word first. */
  lemma TokensOfText(t: Tree)
    requires Flattens(t)
    ensures Reversed(Words(Flat(Print(t)), "", false)) == BackwardsThen(t, [])
  {
    FlatTree(t, "");
    WordsOfTree(t, "");
    ReversedTree(t, [], []);
    assert Reversed(PrefixThen(t, [])) + [] == Reversed(PrefixThen(t, []));
    assert [] + BackwardsThen(t, []) == BackwardsThen(t, []);
  }

  // ----- kinds of tokens ------------------------------------------------------------------------

  predicate IsDigit(c: char) {
    '0' <= c <= '9'
  }

  predicate Digits(s: string) {
    forall i :: 0 <= i < |s| ==> IsDigit(s[i])
  }

  /** The exponent of a number, if it has one. */
  ghost predicate IsExponent(e: string) {
    e == "" || exists sign, digits ::
      (e == "e" + sign + digits || e == "E" + sign + digits) && (sign == "" || sign == "+" || sign == "-")
      && digits != "" && Digits(digits)
  }

  /** [-+]?[0-9]*\.?[0-9]+([eE][-+]?[0-9]+)? */
  ghost predicate IsNumber(s: string) {
    exists sign, whole, point, digits, e ::
      s == sign + whole + point + digits + e && (sign == "" || sign == "+" || sign == "-") && Digits(whole)
      && (point == "" || point == ".") && digits != "" && Digits(digits) && IsExponent(e)
  }

  /** yyyy-mm-dd */
  predicate IsDate(s: string) {
    && |s| == 10 && (s[0] == '1' || s[0] == '2') && IsDigit(s[1]) && IsDigit(s[2]) && IsDigit(s[3])
    && s[4] == '-' && s[7] == '-'
    && ((s[5] == '0' && '1' <= s[6] <= '9') || (s[5] == '1' && '0' <= s[6] <= '2'))
    && ((s[8] == '0' && '1' <= s[9] <= '9') || ((s[8] == '1' || s[8] == '2') && IsDigit(s[9]))
        || (s[8] == '3' && '0' <= s[9] <= '1'))
  }

  predicate IsString(s: string) {
    s != "" && s[0] == '\'' && s[|s| - 1] == '\''
  }

  /** Whatever is neither a column nor a literal is taken for an operator. */
  ghost predicate IsOperatorToken(s: string) {
    s != "" && s[0] != '$' && !IsNumber(s) && !IsDate(s) && !IsString(s)
  }

  /** How many operands an operator takes; 0 for anything else. */
  function Arity(name: string): (n: nat)
    ensures n == 2 <==> name in CalciteExpression.BINARY_OPERATORS
    ensures n == 1 ==> name in CalciteExpression.UNARY_OPERATORS
  {
    if name in CalciteExpression.BINARY_OPERATORS then 2
    else if name in CalciteExpression.UNARY_OPERATORS then 1
    else 0
  }

  lemma BinaryIsOperator(name: string)
    requires name in CalciteExpression.BINARY_OPERATORS
    ensures IsOperatorToken(name)
  {
  }

  lemma UnaryIsOperator(name: string)
    requires name in CalciteExpression.UNARY_OPERATORS
    ensures IsOperatorToken(name)
  {
  }

  /** Every name of either operator map reads as an operator. */
  lemma KnownIsOperator(name: string)
    requires Arity(name) > 0
    ensures IsOperatorToken(name)
  {
    if name in CalciteExpression.BINARY_OPERATORS { BinaryIsOperator(name); } else { UnaryIsOperator(name); }
  }

  // ----- back to the tree -----------------------------------------------------------------------

  predicate IsPair(ts: Trees) {
    ts.Cons? && ts.tail.Cons? && ts.tail.tail.Nil?
  }

  predicate IsSingle(ts: Trees) {
    ts.Cons? && ts.tail.Nil?
  }

  /** Known operators with as many operands as they take; leaves that do not read as operators. */
  ghost predicate Fixed(t: Tree) {
    match t
    case Leaf(text) => text != "" && !IsOperatorToken(text)
    case Node(op, args) =>
      || (Arity(op) == 2 && IsPair(args) && Fixed(args.head) && Fixed(args.tail.head))
      || (Arity(op) == 1 && IsSingle(args) && Fixed(args.head))
  }

  /** The tokens, last token first, folded over a stack whose top is its head. */
  ghost function Rebuilt(tokens: seq<string>, stack: Trees): Trees {
    if tokens == [] then stack
    else
      var token := tokens[0];
      Rebuilt(tokens[1..],
        if !IsOperatorToken(token) then Cons(Leaf(token), stack)
        else if Arity(token) == 2 && stack.Cons? && stack.tail.Cons? then
          Cons(Node(token, Cons(stack.head, Cons(stack.tail.head, Nil))), stack.tail.tail)
        else if stack.Cons? then Cons(Node(token, Cons(stack.head, Nil)), stack.tail)
        else stack)
  }

  lemma ArgsOfPair(a: Tree, b: Tree, rest: seq<string>)
    ensures ArgsBackwardsThen(Cons(a, Cons(b, Nil)), rest) == BackwardsThen(b, BackwardsThen(a, rest))
  {
    assert ArgsBackwardsThen(Cons(b, Nil), BackwardsThen(a, rest)) == BackwardsThen(b, BackwardsThen(a, rest));
  }

  lemma ArgsOfSingle(a: Tree, rest: seq<string>)
    ensures ArgsBackwardsThen(Cons(a, Nil), rest) == BackwardsThen(a, rest)
  {
  }

  lemma {:induction false} RebuiltTree(t: Tree, rest: seq<string>, stack: Trees)
    requires Fixed(t)
    ensures Rebuilt(BackwardsThen(t, rest), stack) == Rebuilt(rest, Cons(t, stack))
    decreases t
  {
    match t
    case Leaf(text) =>
    case Node(op, args) =>
      KnownIsOperator(op);
      var a := args.head;
      if Arity(op) == 2 {
        var b := args.tail.head;
        assert args == Cons(a, Cons(b, Nil));
        ArgsOfPair(a, b, [op] + rest);
        RebuiltTree(b, BackwardsThen(a, [op] + rest), stack);
        RebuiltTree(a, [op] + rest, Cons(b, stack));
      } else {
        assert args == Cons(a, Nil);
        ArgsOfSingle(a, [op] + rest);
        RebuiltTree(a, [op] + rest, stack);
      }
  }

  /** Printing a tree, flattening, splitting, reversing and folding the tokens over a stack gives back
      exactly that tree. */
  lemma RoundTrip(t: Tree)
    requires Flattens(t) && Fixed(t)
    ensures Rebuilt(Reversed(Words(Flat(Print(t)), "", false)), Nil) == Cons(t, Nil)
  {
    TokensOfText(t);
    RebuiltTree(t, [], Nil);
  }

  // ----- the cleaned text -----------------------------------------------------------------------

  lemma {:induction false} NestFlattens(t: Tree)
    requires Flattens(t)
    ensures Flattens(LeftNest(t))
    decreases t
  {
    match t
    case Leaf(_) =>
    case Node(op, args) =>
      NestAllFlatten(args);
      var nested := LeftNestAll(args);
      FoldFlattens(op, nested.head, nested.tail);
  }

  lemma {:induction false} NestAllFlatten(ts: Trees)
    requires FlattenAll(ts)
    ensures FlattenAll(LeftNestAll(ts))
    decreases ts
  {
    match ts
    case Nil =>
    case Cons(t, tail) =>
      NestFlattens(t);
      NestAllFlatten(tail);
  }

  lemma {:induction false} FoldFlattens(op: string, acc: Tree, ts: Trees)
    requires IsName(op) && Flattens(acc) && FlattenAll(ts)
    ensures Flattens(Fold(op, acc, ts))
    decreases ts
  {
    match ts
    case Nil =>
    case Cons(b, more) =>
      assert FlattenAll(Cons(b, Nil));
      FoldFlattens(op, Node(op, Cons(acc, Cons(b, Nil))), more);
  }

  /** The end of `clean_calcite_expression`: connectives made binary, then flattened. */
  method CleanCalciteExpression(expression: string, ghost t: Tree) returns (cleaned: string)
    requires ValidTree(t) && expression == Print(t)
    ensures cleaned == Flat(Print(LeftNest(t)))
  {
    var expanded := ExpandIfLogicalOp(expression, t);
    cleaned := Flatten(expanded);
  }

  /** From the text of an expression to the tokens that are compiled: they are those of the expression with
      binary connectives, and folding them gives it back. */
  method TokenizeExpression(expression: string, ghost t: Tree) returns (tokens: seq<string>)
    requires ValidTree(t) && Flattens(t) && expression == Print(t)
    ensures tokens == BackwardsThen(LeftNest(t), [])
    ensures Known(t) ==> Rebuilt(tokens, Nil) == Cons(LeftNest(t), Nil)
  {
    var cleaned := CleanCalciteExpression(expression, t);
    tokens := GetTokensInReverseOrder(cleaned);
    NestFlattens(t);
    TokensOfText(LeftNest(t));
    if Known(t) {
      NestFixed(t);
      RebuiltTree(LeftNest(t), [], Nil);
    }
  }

  // ----- the tokens of the compiler -------------------------------------------------------------

  function Number(digits: string): nat {
    if digits == "" then 0
    else 10 * Number(digits[..|digits| - 1])
         + (if IsDigit(digits[|digits| - 1]) then digits[|digits| - 1] as int - '0' as int else 0)
  }

  /** What the compiler sees in a token. */
  ghost function Classified(token: string): CalciteExpression.Token {
    if IsOperatorToken(token) then
      if token in CalciteExpression.BINARY_OPERATORS then
        CalciteExpression.BinaryToken(CalciteExpression.BINARY_OPERATORS[token])
      else if token in CalciteExpression.UNARY_OPERATORS then
        CalciteExpression.UnaryToken(CalciteExpression.UNARY_OPERATORS[token])
      else CalciteExpression.OtherToken
    else if token != "" && token[0] == '$' then CalciteExpression.ColumnToken(Number(token[1..]))
    else CalciteExpression.LiteralToken(token)
  }

  ghost function ClassifiedAll(tokens: seq<string>): seq<CalciteExpression.Token> {
    if tokens == [] then [] else [Classified(tokens[0])] + ClassifiedAll(tokens[1..])
  }

  /** The expression the compiler works on. */
  ghost function Typed(t: Tree): CalciteExpression.Expr
    requires Fixed(t)
  {
    match t
    case Leaf(text) =>
      if text[0] == '$' then CalciteExpression.Column(Number(text[1..])) else CalciteExpression.Literal(text)
    case Node(op, args) =>
      if Arity(op) == 2 then
        CalciteExpression.Binary(CalciteExpression.BINARY_OPERATORS[op], Typed(args.head), Typed(args.tail.head))
      else CalciteExpression.Unary(CalciteExpression.UNARY_OPERATORS[op], Typed(args.head))
  }

  lemma ClassifiedOperator(op: string)
    requires Arity(op) > 0
    ensures Arity(op) == 2 ==> Classified(op) == CalciteExpression.BinaryToken(CalciteExpression.BINARY_OPERATORS[op])
    ensures Arity(op) == 1 ==> Classified(op) == CalciteExpression.UnaryToken(CalciteExpression.UNARY_OPERATORS[op])
  {
    KnownIsOperator(op);
  }

  /** The tokens the compiler gets are those of the typed expression. */
  lemma {:induction false} TokensOfTyped(t: Tree, rest: seq<string>)
    requires Fixed(t)
    ensures ClassifiedAll(BackwardsThen(t, rest)) == CalciteExpression.TokensThen(Typed(t), ClassifiedAll(rest))
    decreases t
  {
    match t
    case Leaf(text) =>
    case Node(op, args) =>
      ClassifiedOperator(op);
      var a := args.head;
      TokensOfTyped(a, [op] + rest);
      if Arity(op) == 2 {
        var b := args.tail.head;
        assert args == Cons(a, Cons(b, Nil));
        ArgsOfPair(a, b, [op] + rest);
        TokensOfTyped(b, BackwardsThen(a, [op] + rest));
      } else {
        assert args == Cons(a, Nil);
        ArgsOfSingle(a, [op] + rest);
      }
  }

  /** The same, but AND and OR may have any number of operands from two on. */
  ghost predicate Known(t: Tree) {
    match t
    case Leaf(text) => text != "" && !IsOperatorToken(text)
    case Node(op, args) =>
      if IsConnective(op) then args.Cons? && args.tail.Cons? && KnownAll(args)
      else if Arity(op) == 2 then IsPair(args) && Known(args.head) && Known(args.tail.head)
      else Arity(op) == 1 && IsSingle(args) && Known(args.head)
  }

  ghost predicate KnownAll(ts: Trees) {
    match ts
    case Nil => true
    case Cons(t, tail) => Known(t) && KnownAll(tail)
  }

  ghost predicate AllFixed(ts: Trees) {
    match ts
    case Nil => true
    case Cons(t, tail) => Fixed(t) && AllFixed(tail)
  }

  lemma {:induction false} FoldFixed(op: string, acc: Tree, ts: Trees)
    requires IsConnective(op) && Fixed(acc) && AllFixed(ts)
    ensures Fixed(Fold(op, acc, ts))
    decreases ts
  {
    match ts
    case Nil =>
    case Cons(b, more) =>
      assert Arity(op) == 2 && IsPair(Cons(acc, Cons(b, Nil)));
      FoldFixed(op, Node(op, Cons(acc, Cons(b, Nil))), more);
  }

  lemma {:induction false} NestAllFixed(ts: Trees)
    requires KnownAll(ts)
    ensures AllFixed(LeftNestAll(ts))
    decreases ts
  {
    match ts
    case Nil =>
    case Cons(t, tail) =>
      NestFixed(t);
      NestAllFixed(tail);
  }

  lemma NestPair(a: Tree, b: Tree)
    ensures LeftNestAll(Cons(a, Cons(b, Nil))) == Cons(LeftNest(a), Cons(LeftNest(b), Nil))
    ensures LeftNestAll(Cons(a, Nil)) == Cons(LeftNest(a), Nil)
  {
    assert LeftNestAll(Nil) == Nil && LeftNestAll(Cons(b, Nil)) == Cons(LeftNest(b), Nil);
  }

  /** Once connectives are binary, every operator has as many operands as it takes. */
  lemma {:induction false} NestFixed(t: Tree)
    requires Known(t)
    ensures Fixed(LeftNest(t))
    decreases t
  {
    match t
    case Leaf(_) =>
    case Node(op, args) =>
      if IsConnective(op) {
        NestAllFixed(args);
        var nested := LeftNestAll(args);
        FoldFixed(op, nested.head, nested.tail);
      } else if Arity(op) == 2 {
        assert args == Cons(args.head, Cons(args.tail.head, Nil));
        NestPair(args.head, args.tail.head);
        NestFixed(args.head);
        NestFixed(args.tail.head);
      } else {
        assert args == Cons(args.head, Nil);
        NestPair(args.head, args.head);
        NestFixed(args.head);
      }
  }

  /** From text to compiler: the tokens of the cleaned text are those of the expression with binary
      connectives, in the order the compiler reads them. */
  lemma CompilerTokens(t: Tree)
    requires Flattens(t) && Known(t)
    ensures Fixed(LeftNest(t))
    ensures ClassifiedAll(Reversed(Words(Flat(Print(LeftNest(t))), "", false)))
         == CalciteExpression.ReverseTokens(Typed(LeftNest(t)))
  {
    NestFixed(t);
    NestFlattens(t);
    TokensOfText(LeftNest(t));
    TokensOfTyped(LeftNest(t), []);
  }
}
