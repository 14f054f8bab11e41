/** Filters against SQL: which conditions keep exactly the rows on which SQL's three-valued logic says yes. */
module SqlFilter {
  import opened CalciteExpression
  import opened Projection
  import opened FilterStencil
  import opened SqlStates
  import opened ValidityLoads

  // ----- rows -----------------------------------------------------------------------------------

  /** The operands of comparisons test nothing for null. */
  predicate PlainOperands(f: Formula) {
    match f
    case Comparison(_, l, r) => !TestsNull(l) && !TestsNull(r)
    case NullTest(_, _) => true
    case And(a, b) => PlainOperands(a) && PlainOperands(b)
    case Or(a, b) => PlainOperands(a) && PlainOperands(b)
    case Not(a) => PlainOperands(a)
  }

  /** Does SQL find a value? A null test always has one. */
  predicate HasValue(e: Expr, valid: seq<bool>)
    requires ColumnsBelow(e, |valid|)
  {
    match e
    case Column(i) => valid[i]
    case Literal(text) => text != "null"
    case Unary(op, a) => IsNullTest(op) || HasValue(a, valid)
    case Binary(op, l, r) =>
      if op == GdfCoalesce then HasValue(l, valid) || HasValue(r, valid) else HasValue(l, valid) && HasValue(r, valid)
  }

  /** What SQL says of a row: a comparison with a null is unknown, a null test never is. */
  function SqlValue(alu: Alu<int>, f: Formula, row: Row<int>): Sql
    requires |row.valid| == |row.values| && ColumnsBelow(ToExpr(f), |row.values|)
  {
    match f
    case Comparison(op, l, r) =>
      if HasValue(l, row.valid) && HasValue(r, row.valid) then OfTruth(Compares(op, Eval(alu, l, row), Eval(alu, r, row)))
      else Unknown
    case NullTest(test, e) => OfTruth(OperandValid(e, row) == (test == BlzIsNotNull))
    case And(a, b) => SqlAnd(SqlValue(alu, a, row), SqlValue(alu, b, row))
    case Or(a, b) => SqlOr(SqlValue(alu, a, row), SqlValue(alu, b, row))
    case Not(a) => SqlNot(SqlValue(alu, a, row))
  }

  /** The row is kept exactly if SQL says yes, the columns in `all` being loaded as valid. */
  predicate AgreesWithSql(alu: Alu<int>, f: Formula, row: Row<int>, all: set<nat>)
    requires |row.valid| == |row.values| && ColumnsBelow(ToExpr(f), |row.values|)
  {
    SqlValue(alu, f, row) == Yes <==> Truth(alu, f, row) && Decided(f, LoadedBits(row.valid, all))
  }

  function States(alu: Alu<int>, f: Formula, row: Row<int>, all: set<nat>): (s: seq<State>)
    requires |row.valid| == |row.values| && ColumnsBelow(ToExpr(f), |row.values|)
    ensures |s| == Size(f)
  {
    match f
    case Comparison(_, _, _) =>
      [State(SqlValue(alu, f, row), Truth(alu, f, row), Decided(f, LoadedBits(row.valid, all)))]
    case NullTest(_, _) =>
      [State(SqlValue(alu, f, row), Truth(alu, f, row), Decided(f, LoadedBits(row.valid, all)))]
    case And(a, b) => States(alu, a, row, all) + States(alu, b, row, all)
    case Or(a, b) => States(alu, a, row, all) + States(alu, b, row, all)
    case Not(a) => States(alu, a, row, all)
  }

  /** Loading columns as valid makes nothing null, and changes nothing where they are not mentioned. */
  lemma {:induction false} LoadedOperand(e: Expr, valid: seq<bool>, all: set<nat>)
    requires ColumnsBelow(e, |valid|) && !TestsNull(e)
    ensures HasValue(e, valid) ==> NotNull(e, LoadedBits(valid, all))
    ensures NeverNull(e, all) ==> NotNull(e, LoadedBits(valid, all))
    ensures !Touches(e, all) ==> NotNull(e, LoadedBits(valid, all)) == HasValue(e, valid)
  {
    match e
    case Column(_) =>
    case Literal(_) =>
    case Unary(_, a) =>
      LoadedOperand(a, valid, all);
    case Binary(_, l, r) =>
      LoadedOperand(l, valid, all);
      LoadedOperand(r, valid, all);
  }

  lemma {:induction false} StatesMean(alu: Alu<int>, f: Formula, row: Row<int>, all: set<nat>)
    requires |row.valid| == |row.values| && ColumnsBelow(ToExpr(f), |row.values|) && Atoms(f) && PlainOperands(f)
    ensures var s := States(alu, f, row, all);
            && Legal(f, s, all)
            && Result(f, s) == State(SqlValue(alu, f, row), Truth(alu, f, row), Decided(f, LoadedBits(row.valid, all)))
  {
    match f
    case Comparison(_, l, r) =>
      assert ColumnsBelow(l, |row.valid|) && ColumnsBelow(r, |row.valid|);
      LoadedOperand(l, row.valid, all);
      LoadedOperand(r, row.valid, all);
    case NullTest(_, e) =>
      assert ColumnsBelow(e, |row.valid|);
    case And(a, b) =>
      StatesMean(alu, a, row, all);
      StatesMean(alu, b, row, all);
      Together(a, b, States(alu, a, row, all), States(alu, b, row, all), all);
    case Or(a, b) =>
      StatesMean(alu, a, row, all);
      StatesMean(alu, b, row, all);
      Together(a, b, States(alu, a, row, all), States(alu, b, row, all), all);
    case Not(a) =>
      StatesMean(alu, a, row, all);
  }

  /** For any condition, on every row: a complete one loses nothing, and one that lets nothing sneak in keeps
      nothing SQL does not say yes to. */
  lemma RowAgrees(alu: Alu<int>, f: Formula, row: Row<int>, all: set<nat>)
    requires |row.valid| == |row.values| && ColumnsBelow(ToExpr(f), |row.values|) && Atoms(f) && PlainOperands(f)
    ensures Complete(f, true, all) && SqlValue(alu, f, row) == Yes
            ==> Truth(alu, f, row) && Decided(f, LoadedBits(row.valid, all))
    ensures !Sneaks(f, true, all) && Truth(alu, f, row) && Decided(f, LoadedBits(row.valid, all))
            ==> SqlValue(alu, f, row) == Yes
  {
    StatesMean(alu, f, row, all);
    StateAgrees(f, States(alu, f, row, all), all);
  }

  // ----- every state is some row's --------------------------------------------------------------

  /** Comparisons of columns, and null tests. */
  predicate Columnar(f: Formula) {
    match f
    case Comparison(_, l, r) => l.Column? && r.Column?
    case NullTest(_, e) => e.Column?
    case And(a, b) => Columnar(a) && Columnar(b)
    case Or(a, b) => Columnar(a) && Columnar(b)
    case Not(a) => Columnar(a)
  }

  lemma {:induction false} ColumnarIsPlain(f: Formula)
    requires Columnar(f)
    ensures PlainOperands(f)
  {
    match f
    case Comparison(_, _, _) =>
    case NullTest(_, _) =>
    case And(a, b) =>
      ColumnarIsPlain(a);
      ColumnarIsPlain(b);
    case Or(a, b) =>
      ColumnarIsPlain(a);
      ColumnarIsPlain(b);
    case Not(a) =>
      ColumnarIsPlain(a);
  }

  function ColumnsOf(f: Formula): seq<nat>
    requires Columnar(f)
  {
    match f
    case Comparison(_, l, r) => [l.index, r.index]
    case NullTest(_, e) => [e.index]
    case And(a, b) => ColumnsOf(a) + ColumnsOf(b)
    case Or(a, b) => ColumnsOf(a) + ColumnsOf(b)
    case Not(a) => ColumnsOf(a)
  }

  ghost predicate Distinct(cols: seq<nat>) {
    forall i, j :: 0 <= i < j < |cols| ==> cols[i] != cols[j]
  }

  /** Two values that compare as wanted. */
  function Example(op: GdfBinary, outcome: bool): (int, int) {
    match op
    case GdfEqual => if outcome then (0, 0) else (0, 1)
    case GdfNotEqual => if outcome then (0, 1) else (0, 0)
    case GdfGreater => if outcome then (1, 0) else (0, 0)
    case GdfGreaterEqual => if outcome then (0, 0) else (0, 1)
    case GdfLess => if outcome then (0, 1) else (0, 0)
    case _ => if outcome then (0, 0) else (1, 0)
  }

  /** Which column of an undecided comparison is null: one loaded as valid if the mask is to be set, and one that
      is not if it is to be unset. */
  predicate LeftIsNull(l: nat, x: State, all: set<nat>) {
    x.mask <==> l in all
  }

  /** Values and nulls for the columns of a condition under which its atoms are in the given states. */
  function Chosen(f: Formula, s: seq<State>, row: Row<int>, all: set<nat>): (chosen: Row<int>)
    requires Columnar(f) && |s| == Size(f)
    requires |row.valid| == |row.values| && ColumnsBelow(ToExpr(f), |row.values|)
    ensures |chosen.values| == |chosen.valid| == |row.values|
  {
    match f
    case Comparison(op, l, r) =>
      var (x, y) := Example(op, s[0].outcome);
      var decided, leftNull := s[0].verdict != Unknown, LeftIsNull(l.index, s[0], all);
      assert ColumnsBelow(l, |row.values|) && ColumnsBelow(r, |row.values|);
      Row(row.values[l.index := x][r.index := y],
          row.valid[l.index := decided || !leftNull][r.index := decided || leftNull])
    case NullTest(test, e) =>
      assert ColumnsBelow(e, |row.values|);
      Row(row.values, row.valid[e.index := s[0].outcome == (test == BlzIsNotNull)])
    case And(a, b) => Chosen(b, s[Size(a)..], Chosen(a, s[..Size(a)], row, all), all)
    case Or(a, b) => Chosen(b, s[Size(a)..], Chosen(a, s[..Size(a)], row, all), all)
    case Not(a) => Chosen(a, s, row, all)
  }

  predicate SameAt(x: Row<int>, y: Row<int>, c: nat) {
    c < |x.values| && c < |x.valid| && c < |y.values| && c < |y.valid|
    && x.values[c] == y.values[c] && x.valid[c] == y.valid[c]
  }

  lemma {:induction false} ChosenElsewhere(f: Formula, s: seq<State>, row: Row<int>, all: set<nat>, c: nat)
    requires Columnar(f) && |s| == Size(f)
    requires |row.valid| == |row.values| && ColumnsBelow(ToExpr(f), |row.values|)
    requires c < |row.values| && c !in ColumnsOf(f)
    ensures SameAt(Chosen(f, s, row, all), row, c)
  {
    match f
    case Comparison(_, l, r) =>
      assert ColumnsOf(f)[0] == l.index && ColumnsOf(f)[1] == r.index;
    case NullTest(_, e) =>
      assert ColumnsOf(f)[0] == e.index;
    case And(a, b) =>
      ChosenElsewhere(a, s[..Size(a)], row, all, c);
      ChosenElsewhere(b, s[Size(a)..], Chosen(a, s[..Size(a)], row, all), all, c);
    case Or(a, b) =>
      ChosenElsewhere(a, s[..Size(a)], row, all, c);
      ChosenElsewhere(b, s[Size(a)..], Chosen(a, s[..Size(a)], row, all), all, c);
    case Not(a) =>
      ChosenElsewhere(a, s, row, all, c);
  }

  lemma {:induction false} StatesByColumns(alu: Alu<int>, f: Formula, row: Row<int>, row': Row<int>, all: set<nat>)
    requires Columnar(f) && |row.valid| == |row.values| == |row'.valid| == |row'.values|
    requires ColumnsBelow(ToExpr(f), |row.values|)
    requires forall c :: c in ColumnsOf(f) && c < |row.values| ==> SameAt(row, row', c)
    ensures States(alu, f, row, all) == States(alu, f, row', all)
  {
    match f
    case Comparison(_, l, r) =>
      assert ColumnsOf(f)[0] == l.index && ColumnsOf(f)[1] == r.index;
      assert ColumnsBelow(l, |row.values|) && ColumnsBelow(r, |row.values|);
      assert SameAt(row, row', l.index) && SameAt(row, row', r.index);
    case NullTest(_, e) =>
      assert ColumnsOf(f)[0] == e.index && ColumnsBelow(e, |row.values|);
      assert SameAt(row, row', e.index);
    case And(a, b) =>
      StatesByColumns(alu, a, row, row', all);
      StatesByColumns(alu, b, row, row', all);
    case Or(a, b) =>
      StatesByColumns(alu, a, row, row', all);
      StatesByColumns(alu, b, row, row', all);
    case Not(a) =>
      StatesByColumns(alu, a, row, row', all);
  }

  lemma DistinctParts(a: seq<nat>, b: seq<nat>)
    requires Distinct(a + b)
    ensures Distinct(a) && Distinct(b) && forall c :: c in a ==> c !in b
  {
    forall i, j | 0 <= i < j < |a|
      ensures a[i] != a[j]
    {
      assert (a + b)[i] != (a + b)[j];
    }
    forall i, j | 0 <= i < j < |b|
      ensures b[i] != b[j]
    {
      assert (a + b)[|a| + i] != (a + b)[|a| + j];
    }
    forall i, j | 0 <= i < |a| && 0 <= j < |b|
      ensures a[i] != b[j]
    {
      assert (a + b)[i] != (a + b)[|a| + j];
    }
  }

  /** What is chosen for one condition is left alone by choosing for another that shares no column with it. */
  lemma ChosenStays(alu: Alu<int>, a: Formula, b: Formula, s: seq<State>, first: Row<int>, all: set<nat>)
    requires Columnar(a) && Columnar(b) && |s| == Size(b) && |first.values| == |first.valid|
    requires ColumnsBelow(ToExpr(a), |first.values|) && ColumnsBelow(ToExpr(b), |first.values|)
    requires forall c :: c in ColumnsOf(a) ==> c !in ColumnsOf(b)
    ensures States(alu, a, Chosen(b, s, first, all), all) == States(alu, a, first, all)
  {
    forall c | c in ColumnsOf(a) && c < |first.values|
      ensures SameAt(first, Chosen(b, s, first, all), c)
    {
      ChosenElsewhere(b, s, first, all, c);
    }
    StatesByColumns(alu, a, first, Chosen(b, s, first, all), all);
  }

  lemma ComparisonChosen(alu: Alu<int>, f: Formula, s: seq<State>, row: Row<int>, all: set<nat>)
    requires f.Comparison? && IsComparison(f.op) && f.l.Column? && f.r.Column? && f.l.index != f.r.index
    requires |s| == 1 && LegalComparison(f.l, f.r, s[0], all)
    requires |row.valid| == |row.values| && ColumnsBelow(f.l, |row.values|) && ColumnsBelow(f.r, |row.values|)
    ensures States(alu, f, Chosen(f, s, row, all), all) == s
  {
    var chosen := Chosen(f, s, row, all);
    var bits := LoadedBits(chosen.valid, all);
    assert Decided(f, bits) == (bits[f.l.index] && bits[f.r.index]);
    assert HasValue(f.l, chosen.valid) == chosen.valid[f.l.index];
    assert HasValue(f.r, chosen.valid) == chosen.valid[f.r.index];
    assert Truth(alu, f, chosen) == s[0].outcome;
  }

  lemma {:induction false} ChosenStates(alu: Alu<int>, f: Formula, s: seq<State>, row: Row<int>, all: set<nat>)
    requires Atoms(f) && Columnar(f) && Distinct(ColumnsOf(f)) && |s| == Size(f) && Legal(f, s, all)
    requires |row.valid| == |row.values| && ColumnsBelow(ToExpr(f), |row.values|)
    ensures States(alu, f, Chosen(f, s, row, all), all) == s
    decreases f, 1
  {
    match f
    case Comparison(op, l, r) =>
      assert ColumnsOf(f)[0] != ColumnsOf(f)[1];
      assert ColumnsBelow(l, |row.values|) && ColumnsBelow(r, |row.values|);
      ComparisonChosen(alu, f, s, row, all);
    case NullTest(_, e) =>
      assert ColumnsBelow(e, |row.values|);
    case And(a, b) =>
      BranchesChosen(alu, f, a, b, s, row, all);
    case Or(a, b) =>
      BranchesChosen(alu, f, a, b, s, row, all);
    case Not(a) =>
      ChosenStates(alu, a, s, row, all);
  }

  lemma {:induction false} BranchesChosen(alu: Alu<int>, f: Formula, a: Formula, b: Formula, s: seq<State>,
                                          row: Row<int>, all: set<nat>)
    requires f == And(a, b) || f == Or(a, b)
    requires Atoms(a) && Atoms(b) && Columnar(a) && Columnar(b) && Distinct(ColumnsOf(a) + ColumnsOf(b))
    requires |s| == Size(a) + Size(b) && Legal(a, s[..Size(a)], all) && Legal(b, s[Size(a)..], all)
    requires |row.valid| == |row.values|
    requires ColumnsBelow(ToExpr(a), |row.values|) && ColumnsBelow(ToExpr(b), |row.values|)
    ensures States(alu, f, Chosen(f, s, row, all), all) == s
    decreases f, 0
  {
    var first := Chosen(a, s[..Size(a)], row, all);
    DistinctParts(ColumnsOf(a), ColumnsOf(b));
    ChosenStates(alu, a, s[..Size(a)], row, all);
    ChosenStates(alu, b, s[Size(a)..], first, all);
    ChosenStays(alu, a, b, s[Size(a)..], first, all);
    Whole(s, Size(a));
  }

  lemma Whole(s: seq<State>, n: nat)
    requires n <= |s|
    ensures s[..n] + s[n..] == s
  {
  }

  /** A row with the given states. */
  lemma RowWith(alu: Alu<int>, f: Formula, s: seq<State>, width: nat, all: set<nat>) returns (row: Row<int>)
    requires Atoms(f) && Columnar(f) && Distinct(ColumnsOf(f)) && |s| == Size(f) && Legal(f, s, all)
    requires ColumnsBelow(ToExpr(f), width)
    ensures RowOf(row, width) && States(alu, f, row, all) == s
  {
    var zero := Row(seq(width, i => 0), seq(width, i => true));
    ChosenStates(alu, f, s, zero, all);
    row := Chosen(f, s, zero, all);
  }

  /** The condition is exact on tables, too: when no column is looked at twice, the filter agrees with SQL on
      all rows if and only if nothing is lost and nothing sneaks in. */
  lemma SqlOnRowsIff(alu: Alu<int>, f: Formula, width: nat, all: set<nat>)
    requires Atoms(f) && ColumnsBelow(ToExpr(f), width) && Columnar(f) && Distinct(ColumnsOf(f))
    ensures (forall row: Row<int> :: RowOf(row, width) ==> AgreesWithSql(alu, f, row, all))
       <==> Complete(f, true, all) && !Sneaks(f, true, all)
  {
    ColumnarIsPlain(f);
    if Complete(f, true, all) && !Sneaks(f, true, all) {
      forall row: Row<int> | RowOf(row, width)
        ensures AgreesWithSql(alu, f, row, all)
      {
        RowAgrees(alu, f, row, all);
      }
    } else {
      StatesIff(f, all);
      var s :| |s| == Size(f) && Legal(f, s, all) && !Result(f, s).Agrees();
      var row := RowWith(alu, f, s, width, all);
      StatesMean(alu, f, row, all);
      assert RowOf(row, width) && !AgreesWithSql(alu, f, row, all);
    }
  }

  // ----- the byte on rows -----------------------------------------------------------------------

  /** States without nulls where a comparison looks, for given outcomes. */
  function Decisions(f: Formula, s: seq<bool>): (t: seq<State>)
    requires |s| == Size(f)
    ensures |t| == |s|
  {
    match f
    case Comparison(_, _, _) => [State(OfTruth(s[0]), s[0], true)]
    case NullTest(test, e) => [State(OfTruth(s[0]), s[0], NeverNull(e, {}) || s[0] == (test == BlzIsNotNull))]
    case And(a, b) => Decisions(a, s[..Size(a)]) + Decisions(b, s[Size(a)..])
    case Or(a, b) => Decisions(a, s[..Size(a)]) + Decisions(b, s[Size(a)..])
    case Not(a) => Decisions(a, s)
  }

  lemma {:induction false} DecisionsLegal(f: Formula, s: seq<bool>)
    requires |s| == Size(f)
    ensures Legal(f, Decisions(f, s), {})
  {
    match f
    case Comparison(_, _, _) =>
    case NullTest(_, _) =>
    case And(a, b) =>
      DecisionsLegal(a, s[..Size(a)]);
      DecisionsLegal(b, s[Size(a)..]);
      Parts(Decisions(a, s[..Size(a)]), Decisions(b, s[Size(a)..]));
    case Or(a, b) =>
      DecisionsLegal(a, s[..Size(a)]);
      DecisionsLegal(b, s[Size(a)..]);
      Parts(Decisions(a, s[..Size(a)]), Decisions(b, s[Size(a)..]));
    case Not(a) =>
      DecisionsLegal(a, s);
  }

  lemma SameParts(x: seq<State>, y: seq<State>, v: seq<State>, w: seq<State>)
    requires x + y == v + w && |x| == |v|
    ensures x == v && y == w
  {
    Parts(x, y);
    Parts(v, w);
  }

  lemma {:induction false} OutcomesOf(alu: Alu<int>, f: Formula, row: Row<int>, s: seq<bool>)
    requires |row.valid| == |row.values| && ColumnsBelow(ToExpr(f), |row.values|)
    requires |s| == Size(f) && States(alu, f, row, {}) == Decisions(f, s)
    ensures Outcomes(alu, f, row) == s
  {
    match f
    case Comparison(_, _, _) =>
      assert States(alu, f, row, {})[0].outcome == Decisions(f, s)[0].outcome;
    case NullTest(_, _) =>
      assert States(alu, f, row, {})[0].outcome == Decisions(f, s)[0].outcome;
    case And(a, b) =>
      SameParts(States(alu, a, row, {}), States(alu, b, row, {}), Decisions(a, s[..Size(a)]), Decisions(b, s[Size(a)..]));
      OutcomesOf(alu, a, row, s[..Size(a)]);
      OutcomesOf(alu, b, row, s[Size(a)..]);
    case Or(a, b) =>
      SameParts(States(alu, a, row, {}), States(alu, b, row, {}), Decisions(a, s[..Size(a)]), Decisions(b, s[Size(a)..]));
      OutcomesOf(alu, a, row, s[..Size(a)]);
      OutcomesOf(alu, b, row, s[Size(a)..]);
    case Not(a) =>
      OutcomesOf(alu, a, row, s);
  }

  /** When no column is looked at twice, all rows have the right byte if and only if the shape allows for no
      positive multiple of 256. */
  lemma FaithfulOnRowsIff(alu: Alu<int>, f: Formula, width: nat)
    requires IntegerAlu(alu) && Atoms(f) && ColumnsBelow(ToExpr(f), width)
    requires Columnar(f) && Distinct(ColumnsOf(f))
    ensures (forall row: Row<int> :: RowOf(row, width) ==> FaithfulOn(alu, f, row)) <==> ByteSafe(f)
  {
    if ByteSafe(f) {
      forall row: Row<int> | RowOf(row, width)
        ensures FaithfulOn(alu, f, row)
      {
        StencilFaithful(alu, f, row);
      }
    } else {
      FaithfulIff(f);
      var s :| |s| == Size(f) && !FaithfulUnder(f, s);
      DecisionsLegal(f, s);
      var row := RowWith(alu, f, Decisions(f, s), width, {});
      OutcomesOf(alu, f, row, s);
      EvalIsUnder(alu, f, row);
      assert RowOf(row, width) && !FaithfulOn(alu, f, row);
    }
  }

  // ----- conditions without null tests ----------------------------------------------------------

  /** SQL's verdict is the one wanted only when all comparisons are decided: AND where it has to be true, and,
      under NOT, OR where it has to be false. */
  predicate Guarded(f: Formula, want: bool) {
    match f
    case Comparison(_, _, _) => true
    case NullTest(test, _) => want == (test == BlzIsNotNull)
    case And(a, b) => want && Guarded(a, true) && Guarded(b, true)
    case Or(a, b) => !want && Guarded(a, false) && Guarded(b, false)
    case Not(a) => Guarded(a, !want)
  }

  lemma {:induction false} TouchesNothing(e: Expr)
    ensures !Touches(e, {})
  {
    match e
    case Column(_) =>
    case Literal(_) =>
    case Unary(_, a) =>
      TouchesNothing(a);
    case Binary(_, l, r) =>
      TouchesNothing(l);
      TouchesNothing(r);
  }

  /** When nothing is loaded as valid, nothing sneaks in. */
  lemma {:induction false} NothingSneaks(f: Formula, want: bool)
    ensures !Sneaks(f, want, {})
  {
    match f
    case Comparison(_, l, r) =>
      TouchesNothing(l);
      TouchesNothing(r);
    case NullTest(_, _) =>
    case And(a, b) =>
      NothingSneaks(a, want);
      NothingSneaks(b, want);
    case Or(a, b) =>
      NothingSneaks(a, want);
      NothingSneaks(b, want);
    case Not(a) =>
      NothingSneaks(a, !want);
  }

  lemma {:induction false} NotCovered(f: Formula)
    requires Columnar(f)
    ensures !Covered(f, {})
  {
    match f
    case Comparison(_, _, _) =>
    case NullTest(_, _) =>
    case And(a, b) =>
      NotCovered(a);
    case Or(a, b) =>
      NotCovered(a);
    case Not(a) =>
      NotCovered(a);
  }

  /** When nothing is loaded as valid, guarded conditions lose nothing, and among comparisons of columns and null
      tests only they do. */
  lemma {:induction false} GuardedIsComplete(f: Formula, want: bool)
    ensures Guarded(f, want) ==> Complete(f, want, {})
    ensures Columnar(f) ==> Complete(f, want, {}) == Guarded(f, want)
  {
    match f
    case Comparison(_, _, _) =>
    case NullTest(_, _) =>
    case And(a, b) =>
      GuardedIsComplete(a, want);
      GuardedIsComplete(b, want);
      if Columnar(f) { NotCovered(a); }
    case Or(a, b) =>
      GuardedIsComplete(a, want);
      GuardedIsComplete(b, want);
      if Columnar(f) { NotCovered(a); }
    case Not(a) =>
      GuardedIsComplete(a, !want);
  }

  // ----- the filter -----------------------------------------------------------------------------

  /** A filter and SQL, for any condition and with what the kernel loads for its program: if nothing sneaks in,
      the rows kept are rows on which SQL says yes, and if the condition is complete, they are all of them. */
  lemma FilterIsSql(alu: Alu<int>, f: Formula, width: nat, p: ProjectPlan, beyond: set<nat>, rows: seq<Row<int>>,
                    stencil: seq<Entry>)
    requires IntegerAlu(alu) && Atoms(f) && PlainOperands(f) && ColumnsBelow(ToExpr(f), width) && ByteSafe(f)
    requires IsStencil(alu, ToExpr(f), width, p, beyond, rows, stencil)
    ensures !Sneaks(f, true, AllValid(p, beyond)) ==>
              forall i :: 0 <= i < |rows| && i in Kept(stencil) ==> SqlValue(alu, f, rows[i]) == Yes
    ensures Complete(f, true, AllValid(p, beyond)) ==>
              forall i :: 0 <= i < |rows| && SqlValue(alu, f, rows[i]) == Yes ==> i in Kept(stencil)
  {
    FilterKeepsTrueRows(alu, f, width, p, beyond, rows, stencil);
    forall i | 0 <= i < |rows|
      ensures !Sneaks(f, true, AllValid(p, beyond)) && i in Kept(stencil) ==> SqlValue(alu, f, rows[i]) == Yes
      ensures Complete(f, true, AllValid(p, beyond)) && SqlValue(alu, f, rows[i]) == Yes ==> i in Kept(stencil)
    {
      RowAgrees(alu, f, rows[i], AllValid(p, beyond));
    }
  }

  /** Without null tests: no row is kept on which SQL does not say yes, and a guarded condition keeps them all. */
  lemma FilterWithoutNullTests(alu: Alu<int>, f: Formula, width: nat, p: ProjectPlan, beyond: set<nat>,
                               rows: seq<Row<int>>, stencil: seq<Entry>)
    requires IntegerAlu(alu) && Atoms(f) && ColumnsBelow(ToExpr(f), width) && ByteSafe(f)
    requires !TestsNull(ToExpr(f)) && NothingBeyond(p, beyond)
    requires IsStencil(alu, ToExpr(f), width, p, beyond, rows, stencil)
    ensures forall i :: 0 <= i < |rows| && i in Kept(stencil) ==> SqlValue(alu, f, rows[i]) == Yes
    ensures Guarded(f, true) ==>
              forall i :: 0 <= i < |rows| ==> (i in Kept(stencil) <==> SqlValue(alu, f, rows[i]) == Yes)
  {
    PlainWithoutTests(f);
    LoadsAreNulls(ToExpr(f), width, p, beyond);
    NothingSneaks(f, true);
    GuardedIsComplete(f, true);
    FilterIsSql(alu, f, width, p, beyond, rows, stencil);
  }

  lemma {:induction false} PlainWithoutTests(f: Formula)
    requires !TestsNull(ToExpr(f))
    ensures PlainOperands(f)
  {
    match f
    case Comparison(_, l, r) =>
      assert !TestsNull(l) && !TestsNull(r);
    case NullTest(_, _) =>
    case And(a, b) =>
      PlainWithoutTests(a);
      PlainWithoutTests(b);
    case Or(a, b) =>
      PlainWithoutTests(a);
      PlainWithoutTests(b);
    case Not(a) =>
      PlainWithoutTests(a);
  }

  // ----- two conditions with null tests ---------------------------------------------------------

  /** A null test alone is filtered as SQL demands: it is operation 0, and its column is register 0. */
  lemma NullTestAlone(alu: Alu<int>, test: GdfUnary, c: nat, width: nat, p: ProjectPlan, beyond: set<nat>, row: Row<int>)
    requires IsNullTest(test) && c < width && PlanFor(width, [Evaluated(Unary(test, Column(c)))], p)
    requires RowOf(row, width)
    ensures c in AllValid(p, beyond)
    ensures AgreesWithSql(alu, NullTest(test, Column(c)), row, AllValid(p, beyond))
  {
    var e := Unary(test, Column(c));
    OneProgram(e, width, p);
    assert Mentions(e, c);
    var q := p.newColumnIndices[c];
    assert p.inputColumns[q] == c;
    if q > 0 {
      var d := p.inputColumns[0];
      assert d < c && 0 <= p.newColumnIndices[d] && !Mentions(e, d);
    }
    CodeOfTest(test, c, |p.inputColumns| + 1, 0, |p.inputColumns|, p.newColumnIndices);
    assert p.plan.unaryOperators == [test];
    var f := NullTest(test, Column(c));
    assert Complete(f, true, AllValid(p, beyond)) && !Sneaks(f, true, AllValid(p, beyond));
    RowAgrees(alu, f, row, AllValid(p, beyond));
  }

  /** $0 IS NOT NULL AND $1 > $2: the null test is operation 1, and column 1 is loaded as valid. A row with a
      null in column 1 is kept, although SQL does not know about it. */
  lemma MisplacedLoad(alu: Alu<int>, p: ProjectPlan, beyond: set<nat>)
    requires IntegerAlu(alu)
    requires PlanFor(3, [Evaluated(ToExpr(And(NullTest(BlzIsNotNull, Column(0)),
                                              Comparison(GdfGreater, Column(1), Column(2)))))], p)
    ensures var f := And(NullTest(BlzIsNotNull, Column(0)), Comparison(GdfGreater, Column(1), Column(2)));
            var all, row := AllValid(p, beyond), Row([0, 7, 5], [true, false, true]);
            && Guarded(f, true) && Sneaks(f, true, all)
            && Truth(alu, f, row) && Decided(f, LoadedBits(row.valid, all)) && SqlValue(alu, f, row) == Unknown
  {
    var test, greater := NullTest(BlzIsNotNull, Column(0)), Comparison(GdfGreater, Column(1), Column(2));
    var row := Row([0, 7, 5], [true, false, true]);
    assert ToExpr(test) == Unary(BlzIsNotNull, Column(0)) && ToExpr(greater) == Binary(GdfGreater, Column(1), Column(2));
    LoadsBesideTest(BlzIsNotNull, GdfGreater, p, beyond);
    assert Touches(Column(1), {1}) && CanBe(test, true, {1}) && Sneaks(greater, true, {1});
    UnknownComparison(alu, row, LoadedBits(row.valid, {1}));
  }

  lemma UnknownComparison(alu: Alu<int>, row: Row<int>, bits: seq<bool>)
    requires row == Row([0, 7, 5], [true, false, true]) && bits == LoadedBits(row.valid, {1})
    ensures var greater := Comparison(GdfGreater, Column(1), Column(2));
            && ColumnsBelow(ToExpr(greater), 3)
            && Truth(alu, greater, row) && Decided(greater, bits) && SqlValue(alu, greater, row) == Unknown
  {
    assert Eval(alu, Column(1), row) == 7 && Eval(alu, Column(2), row) == 5;
    assert !HasValue(Column(1), row.valid) && NotNull(Column(1), bits) && NotNull(Column(2), bits);
  }

  /** A null test that is itself an operand always has a value in SQL, but the validity pass hands on the null it
      tests: where column c is null, SQL says yes to ($c IS NULL) = ($c IS NULL), and the row is not kept. */
  lemma TestAsOperandIsLost(alu: Alu<int>, test: GdfUnary, c: nat, row: Row<int>, all: set<nat>)
    requires IntegerAlu(alu) && IsNullTest(test) && |row.valid| == |row.values| && c < |row.values|
    requires !row.valid[c] && c !in all
    ensures var f := Comparison(GdfEqual, Unary(test, Column(c)), Unary(test, Column(c)));
            && ColumnsBelow(ToExpr(f), |row.values|) && Atoms(f) && !PlainOperands(f)
            && SqlValue(alu, f, row) == Yes && !Decided(f, LoadedBits(row.valid, all))
            && !AgreesWithSql(alu, f, row, all)
  {
    var e := Unary(test, Column(c));
    var f := Comparison(GdfEqual, e, e);
    assert ColumnsBelow(e, |row.values|) && ToExpr(f) == Binary(GdfEqual, e, e);
    assert !NotNull(Column(c), LoadedBits(row.valid, all)) && HasValue(e, row.valid);
    assert TestsNull(e);
  }
}
