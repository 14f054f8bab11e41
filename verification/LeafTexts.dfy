/** How columns and literals are written, and what the compiler and the join read in them. */
module LeafTexts {
  import opened CalciteText
  import opened ConnectiveExpansion
  import opened CalciteTokens
  import CalciteExpression
  import JoinCondition
  import JoinText

  function Digit(n: nat): char
    requires n < 10
  {
    "0123456789"[n]
  }

  /** A number in decimal notation. */
  function Decimal(n: nat): string {
    if n < 10 then [Digit(n)] else Decimal(n / 10) + [Digit(n % 10)]
  }

  lemma DigitReads(n: nat)
    requires n < 10
    ensures IsDigit(Digit(n)) && Digit(n) as int - '0' as int == n
  {
    assert n == 0 || n == 1 || n == 2 || n == 3 || n == 4 || n == 5 || n == 6 || n == 7 || n == 8 || n == 9;
  }

  lemma NumberOfPrefix(digits: string, n: nat)
    requires n < 10
    ensures Number(digits + [Digit(n)]) == 10 * Number(digits) + n
  {
    DigitReads(n);
    var longer := digits + [Digit(n)];
    assert longer[..|longer| - 1] == digits;
  }

  /** `get_index` reads a printed number as that number. */
  lemma {:induction false} NumberOfDecimal(n: nat)
    ensures Decimal(n) != "" && Digits(Decimal(n))
    ensures Number(Decimal(n)) == n
  {
    DigitReads(n % 10);
    if n < 10 {
      NumberOfPrefix("", n);
      assert "" + [Digit(n)] == [Digit(n)];
    } else {
      NumberOfDecimal(n / 10);
      NumberOfPrefix(Decimal(n / 10), n % 10);
    }
  }

  lemma DigitsArePlain(s: string)
    requires Digits(s)
    ensures Plain(s) && NoMarks(s)
  {
  }

  /** A leaf that stays as it is from the text to the compiler. */
  ghost predicate Stays(t: Tree) {
    ValidTree(t) && Flattens(t) && Known(t) && LeftNest(t) == t && Fixed(t)
  }

  /** "$n" is column n, for the compiler and for the join. */
  lemma ColumnLeaf(n: nat)
    ensures var t := Leaf("$" + Decimal(n));
      && Stays(t)
      && Typed(t) == CalciteExpression.Column(n)
      && Classified(t.text) == CalciteExpression.ColumnToken(n)
      && JoinText.IsColumn(t) && JoinText.ColumnOf(t) == n
      && JoinText.WordOf(t.text) == JoinCondition.Operand(n)
  {
    NumberOfDecimal(n);
    DigitsArePlain(Decimal(n));
    assert ("$" + Decimal(n))[1..] == Decimal(n);
  }

  /** Literal leaves are no operators and keep their text. */
  ghost predicate IsLiteralLeaf(text: string) {
    Stays(Leaf(text)) && Typed(Leaf(text)) == CalciteExpression.Literal(text)
    && Classified(text) == CalciteExpression.LiteralToken(text)
  }

  predicate IsSign(s: string) {
    s == "" || s == "+" || s == "-"
  }

  /** Integers, decimal fractions and numbers with an exponent. */
  lemma NumberLeaf(sign: string, n: nat, fraction: string, exponentSign: string, k: nat)
    requires IsSign(sign) && IsSign(exponentSign) && fraction != "" && Digits(fraction)
    ensures IsLiteralLeaf(sign + Decimal(n))
    ensures IsLiteralLeaf(sign + Decimal(n) + "." + fraction)
    ensures IsLiteralLeaf(sign + Decimal(n) + "." + fraction + ("E" + exponentSign + Decimal(k)))
  {
    NumberOfDecimal(n);
    NumberOfDecimal(k);
    NumberTexts(sign, Decimal(n), fraction);
    ExponentText(sign, Decimal(n), fraction, "E" + exponentSign + Decimal(k), exponentSign, Decimal(k));
  }

  lemma NumberTexts(sign: string, whole: string, fraction: string)
    requires IsSign(sign) && whole != "" && Digits(whole) && fraction != "" && Digits(fraction)
    ensures IsLiteralLeaf(sign + whole)
    ensures IsLiteralLeaf(sign + whole + "." + fraction)
  {
    assert sign + "" + "" + whole + "" == sign + whole;
    NumberStays(sign, "", "", whole, "");
    assert sign + whole + "." + fraction + "" == sign + whole + "." + fraction;
    NumberStays(sign, whole, ".", fraction, "");
  }

  lemma ExponentText(sign: string, whole: string, fraction: string, e: string, exponentSign: string, exponent: string)
    requires IsSign(sign) && Digits(whole) && fraction != "" && Digits(fraction)
    requires IsSign(exponentSign) && exponent != "" && Digits(exponent) && e == "E" + exponentSign + exponent
    ensures IsLiteralLeaf(sign + whole + "." + fraction + e)
  {
    assert IsExponent(e);
    NumberStays(sign, whole, ".", fraction, e);
  }

  lemma NumberStays(sign: string, whole: string, point: string, digits: string, e: string)
    requires IsSign(sign) && Digits(whole) && (point == "" || point == ".") && digits != "" && Digits(digits)
    requires IsExponent(e)
    ensures IsLiteralLeaf(sign + whole + point + digits + e)
  {
    var text := sign + whole + point + digits + e;
    assert IsNumber(text);
    ExponentIsPlain(e);
    forall i | 0 <= i < |text|
      ensures text[i] !in "()[],' $"
    {
    }
  }

  lemma ExponentIsPlain(e: string)
    requires IsExponent(e)
    ensures forall i :: 0 <= i < |e| ==> e[i] !in "()[],' $"
  {
  }

  /** String literals, with commas, parentheses and spaces in them or not, are no operators. */
  lemma StringLeaf(inner: string)
    requires NoQuote(inner)
    ensures var text := "'" + inner + "'";
      ValidTree(Leaf(text)) && Known(Leaf(text)) && Classified(text) == CalciteExpression.LiteralToken(text)
    ensures NoMarks(inner) ==> IsLiteralLeaf("'" + inner + "'")
  {
    var text := "'" + inner + "'";
    assert text[1..|text| - 1] == inner;
    assert text[0] == '\'' && text[|text| - 1] == '\'';
    if NoMarks(inner) {
      forall i | 0 <= i < |text|
        ensures text[i] !in "(),"
      {
        assert i == 0 || i == |text| - 1 || text[i] == inner[i - 1];
      }
    }
  }

  function TwoDigits(n: nat): string
    requires n < 100
  {
    [Digit(n / 10), Digit(n % 10)]
  }

  lemma DateStays(text: string)
    requires IsDate(text)
    ensures IsLiteralLeaf(text)
  {
    forall i | 0 <= i < |text|
      ensures text[i] !in "()[],' $"
    {
    }
  }

  /** Dates yyyy-mm-dd, by the digits of the year, the month and the day. */
  lemma DateLeaf(a: nat, b: nat, c: nat, d: nat, month: nat, day: nat)
    requires 1 <= a <= 2 && b < 10 && c < 10 && d < 10 && 1 <= month <= 12 && 1 <= day <= 31
    ensures IsLiteralLeaf([Digit(a), Digit(b), Digit(c), Digit(d)] + "-" + TwoDigits(month) + "-" + TwoDigits(day))
  {
    var text := [Digit(a), Digit(b), Digit(c), Digit(d)] + "-" + TwoDigits(month) + "-" + TwoDigits(day);
    DigitReads(b);
    DigitReads(c);
    DigitReads(d);
    MonthText(month);
    DayText(day);
    assert text[5..7] == TwoDigits(month) && text[8..10] == TwoDigits(day);
    DateStays(text);
  }

  lemma MonthText(month: nat)
    requires 1 <= month <= 12
    ensures var m := TwoDigits(month);
            (m[0] == '0' && '1' <= m[1] <= '9') || (m[0] == '1' && '0' <= m[1] <= '2')
  {
    DigitReads(month % 10);
  }

  lemma DayText(day: nat)
    requires 1 <= day <= 31
    ensures var d := TwoDigits(day);
            || (d[0] == '0' && '1' <= d[1] <= '9') || ((d[0] == '1' || d[0] == '2') && IsDigit(d[1]))
            || (d[0] == '3' && '0' <= d[1] <= '1')
  {
    DigitReads(day % 10);
  }
}
