/** Conditions against SQL, by the states of their comparisons and null tests: what SQL finds, what the data say,
    and whether the mask is set. */
module SqlStates {
  import opened CalciteExpression
  import opened FilterStencil

  datatype Sql = Yes | No | Unknown

  function SqlAnd(x: Sql, y: Sql): Sql {
    if x == No || y == No then No else if x == Yes && y == Yes then Yes else Unknown
  }

  function SqlOr(x: Sql, y: Sql): Sql {
    if x == Yes || y == Yes then Yes else if x == No && y == No then No else Unknown
  }

  function SqlNot(x: Sql): Sql {
    match x case Yes => No case No => Yes case Unknown => Unknown
  }

  function OfTruth(b: bool): Sql {
    if b then Yes else No
  }

  /** SQL's verdict, the truth of the data whatever is null, and the bit of the validity pass. */
  datatype State = State(verdict: Sql, outcome: bool, mask: bool)
  {
    /** The filter keeps the row exactly if SQL says yes. */
    predicate Agrees() { verdict == Yes <==> outcome && mask }
  }

  function Both(x: State, y: State): State {
    State(SqlAnd(x.verdict, y.verdict), x.outcome && y.outcome, x.mask && y.mask)
  }

  function Either(x: State, y: State): State {
    State(SqlOr(x.verdict, y.verdict), x.outcome || y.outcome, x.mask && y.mask)
  }

  function Negated(x: State): State {
    State(SqlNot(x.verdict), !x.outcome, x.mask)
  }

  function Result(f: Formula, s: seq<State>): State
    requires |s| == Size(f)
  {
    match f
    case Comparison(_, _, _) => s[0]
    case NullTest(_, _) => s[0]
    case And(a, b) => Both(Result(a, s[..Size(a)]), Result(b, s[Size(a)..]))
    case Or(a, b) => Either(Result(a, s[..Size(a)]), Result(b, s[Size(a)..]))
    case Not(a) => Negated(Result(a, s))
  }

  // ----- what states there are ------------------------------------------------------------------

  /** Not null on any row, when the columns in `all` are loaded as valid. */
  predicate NeverNull(e: Expr, all: set<nat>) {
    match e
    case Column(i) => i in all
    case Literal(text) => text != "null"
    case Unary(_, a) => NeverNull(a, all)
    case Binary(op, l, r) =>
      if op == GdfCoalesce then NeverNull(l, all) || NeverNull(r, all) else NeverNull(l, all) && NeverNull(r, all)
  }

  predicate Touches(e: Expr, all: set<nat>) {
    match e
    case Column(i) => i in all
    case Literal(_) => false
    case Unary(_, a) => Touches(a, all)
    case Binary(_, l, r) => Touches(l, all) || Touches(r, all)
  }

  /** A comparison SQL decides is true or false in the data too, and its mask is set. One that SQL leaves unknown
      may be either in the data; its mask can be set only if a column is loaded as valid, and unset only if
      there is something that is not. */
  predicate LegalComparison(l: Expr, r: Expr, x: State, all: set<nat>) {
    if x.verdict == Unknown then
      if x.mask then Touches(l, all) || Touches(r, all) else !(NeverNull(l, all) && NeverNull(r, all))
    else x == State(x.verdict, x.verdict == Yes, true)
  }

  /** A null test is never unknown; its mask is that of its column. */
  predicate LegalTest(test: GdfUnary, e: Expr, x: State, all: set<nat>) {
    && x.verdict == OfTruth(x.outcome)
    && x.mask == (NeverNull(e, all) || x.outcome == (test == BlzIsNotNull))
  }

  predicate Legal(f: Formula, s: seq<State>, all: set<nat>)
    requires |s| == Size(f)
  {
    match f
    case Comparison(_, l, r) => LegalComparison(l, r, s[0], all)
    case NullTest(test, e) => LegalTest(test, e, s[0], all)
    case And(a, b) => Legal(a, s[..Size(a)], all) && Legal(b, s[Size(a)..], all)
    case Or(a, b) => Legal(a, s[..Size(a)], all) && Legal(b, s[Size(a)..], all)
    case Not(a) => Legal(a, s, all)
  }

  // ----- the condition on the shape -------------------------------------------------------------

  /** The mask is always set. */
  predicate Covered(f: Formula, all: set<nat>) {
    match f
    case Comparison(_, l, r) => NeverNull(l, all) && NeverNull(r, all)
    case NullTest(_, e) => NeverNull(e, all)
    case And(a, b) => Covered(a, all) && Covered(b, all)
    case Or(a, b) => Covered(a, all) && Covered(b, all)
    case Not(a) => Covered(a, all)
  }

  /** The mask is set whenever SQL's verdict is the one wanted: no row is lost. */
  predicate Complete(f: Formula, want: bool, all: set<nat>) {
    match f
    case Comparison(_, _, _) => true
    case NullTest(test, e) => NeverNull(e, all) || want == (test == BlzIsNotNull)
    case And(a, b) =>
      if want then Complete(a, true, all) && Complete(b, true, all) else Covered(a, all) && Covered(b, all)
    case Or(a, b) =>
      if want then Covered(a, all) && Covered(b, all) else Complete(a, false, all) && Complete(b, false, all)
    case Not(a) => Complete(a, !want, all)
  }

  /** SQL's verdict can be the one wanted with the mask set. */
  predicate CanBe(f: Formula, want: bool, all: set<nat>) {
    match f
    case Comparison(_, _, _) => true
    case NullTest(test, e) => NeverNull(e, all) || want == (test == BlzIsNotNull)
    case And(a, b) =>
      if want then CanBe(a, true, all) && CanBe(b, true, all) else CanBe(a, false, all) || CanBe(b, false, all)
    case Or(a, b) =>
      if want then CanBe(a, true, all) || CanBe(b, true, all) else CanBe(a, false, all) && CanBe(b, false, all)
    case Not(a) => CanBe(a, !want, all)
  }

  /** The data can yield what is wanted with the mask set although SQL's verdict is unknown: a row gets in. One
      side sneaks; the other comes out alike, or leaves the verdict to it. */
  predicate Sneaks(f: Formula, want: bool, all: set<nat>) {
    match f
    case Comparison(_, l, r) => Touches(l, all) || Touches(r, all)
    case NullTest(_, _) => false
    case And(a, b) =>
      if want then
        || (Sneaks(a, true, all) && (CanBe(b, true, all) || Sneaks(b, true, all)))
        || (Sneaks(b, true, all) && (CanBe(a, true, all) || Sneaks(a, true, all)))
      else
        || (Sneaks(a, false, all) && (CanBe(b, true, all) || Sneaks(b, true, all) || Sneaks(b, false, all)))
        || (Sneaks(b, false, all) && (CanBe(a, true, all) || Sneaks(a, true, all) || Sneaks(a, false, all)))
    case Or(a, b) =>
      if want then
        || (Sneaks(a, true, all) && (CanBe(b, false, all) || Sneaks(b, true, all) || Sneaks(b, false, all)))
        || (Sneaks(b, true, all) && (CanBe(a, false, all) || Sneaks(a, true, all) || Sneaks(a, false, all)))
      else
        || (Sneaks(a, false, all) && (CanBe(b, false, all) || Sneaks(b, false, all)))
        || (Sneaks(b, false, all) && (CanBe(a, false, all) || Sneaks(a, false, all)))
    case Not(a) => Sneaks(a, !want, all)
  }

  /** One side sneaks, and the other can come out alike. */
  predicate SneaksBeside(a: Formula, b: Formula, want: bool, all: set<nat>) {
    Sneaks(a, want, all) && (CanBe(b, want, all) || Sneaks(b, want, all))
  }

  /** One side sneaks, and the other leaves the verdict to it. */
  predicate SneaksAlone(a: Formula, b: Formula, want: bool, all: set<nat>) {
    Sneaks(a, want, all) && (CanBe(b, !want, all) || Sneaks(b, true, all) || Sneaks(b, false, all))
  }

  // ----- it is enough ---------------------------------------------------------------------------

  /** What SQL decides, the data say too. */
  lemma {:induction false} DecidedAlike(f: Formula, s: seq<State>, all: set<nat>)
    requires |s| == Size(f) && Legal(f, s, all)
    ensures Result(f, s).verdict != Unknown ==> Result(f, s).verdict == OfTruth(Result(f, s).outcome)
  {
    match f
    case Comparison(_, _, _) =>
    case NullTest(_, _) =>
    case And(a, b) =>
      DecidedAlike(a, s[..Size(a)], all);
      DecidedAlike(b, s[Size(a)..], all);
    case Or(a, b) =>
      DecidedAlike(a, s[..Size(a)], all);
      DecidedAlike(b, s[Size(a)..], all);
    case Not(a) =>
      DecidedAlike(a, s, all);
  }

  lemma {:induction false} CoveredIsMasked(f: Formula, s: seq<State>, all: set<nat>)
    requires |s| == Size(f) && Legal(f, s, all) && Covered(f, all)
    ensures Result(f, s).mask
  {
    match f
    case Comparison(_, _, _) =>
    case NullTest(_, _) =>
    case And(a, b) =>
      CoveredIsMasked(a, s[..Size(a)], all);
      CoveredIsMasked(b, s[Size(a)..], all);
    case Or(a, b) =>
      CoveredIsMasked(a, s[..Size(a)], all);
      CoveredIsMasked(b, s[Size(a)..], all);
    case Not(a) =>
      CoveredIsMasked(a, s, all);
  }

  lemma {:induction false} CompleteIsMasked(f: Formula, s: seq<State>, want: bool, all: set<nat>)
    requires |s| == Size(f) && Legal(f, s, all) && Complete(f, want, all) && Result(f, s).verdict == OfTruth(want)
    ensures Result(f, s).mask
  {
    match f
    case Comparison(_, _, _) =>
    case NullTest(_, _) =>
    case And(a, b) =>
      if want {
        CompleteIsMasked(a, s[..Size(a)], true, all);
        CompleteIsMasked(b, s[Size(a)..], true, all);
      } else {
        CoveredIsMasked(f, s, all);
      }
    case Or(a, b) =>
      if want {
        CoveredIsMasked(f, s, all);
      } else {
        CompleteIsMasked(a, s[..Size(a)], false, all);
        CompleteIsMasked(b, s[Size(a)..], false, all);
      }
    case Not(a) =>
      CompleteIsMasked(a, s, !want, all);
  }

  /** What is claimed of a masked result. */
  ghost predicate Explained(f: Formula, x: State, all: set<nat>) {
    if x.verdict == Unknown then Sneaks(f, x.outcome, all)
    else x.verdict == OfTruth(x.outcome) && CanBe(f, x.outcome, all)
  }

  lemma BothExplained(a: Formula, b: Formula, x: State, y: State, all: set<nat>)
    requires Explained(a, x, all) && Explained(b, y, all)
    ensures Explained(And(a, b), Both(x, y), all) && Explained(Or(a, b), Either(x, y), all)
  {
  }

  lemma {:induction false} MaskedIsExplained(f: Formula, s: seq<State>, all: set<nat>)
    requires |s| == Size(f) && Legal(f, s, all) && Result(f, s).mask
    ensures Explained(f, Result(f, s), all)
  {
    match f
    case Comparison(_, _, _) =>
    case NullTest(_, _) =>
    case And(a, b) =>
      MaskedIsExplained(a, s[..Size(a)], all);
      MaskedIsExplained(b, s[Size(a)..], all);
      BothExplained(a, b, Result(a, s[..Size(a)]), Result(b, s[Size(a)..]), all);
    case Or(a, b) =>
      MaskedIsExplained(a, s[..Size(a)], all);
      MaskedIsExplained(b, s[Size(a)..], all);
      BothExplained(a, b, Result(a, s[..Size(a)]), Result(b, s[Size(a)..]), all);
    case Not(a) =>
      MaskedIsExplained(a, s, all);
  }

  // ----- and it is needed -----------------------------------------------------------------------

  lemma Parts(x: seq<State>, y: seq<State>)
    ensures (x + y)[..|x|] == x && (x + y)[|x|..] == y
  {
  }

  /** States of two conditions, side by side. */
  lemma Together(a: Formula, b: Formula, x: seq<State>, y: seq<State>, all: set<nat>)
    requires |x| == Size(a) && |y| == Size(b) && Legal(a, x, all) && Legal(b, y, all)
    ensures |x + y| == Size(And(a, b)) == Size(Or(a, b)) && Legal(And(a, b), x + y, all) && Legal(Or(a, b), x + y, all)
    ensures Result(And(a, b), x + y) == Both(Result(a, x), Result(b, y))
    ensures Result(Or(a, b), x + y) == Either(Result(a, x), Result(b, y))
  {
    Parts(x, y);
  }

  /** SQL's verdict can be either. */
  lemma {:induction false} SomeDecided(f: Formula, want: bool, all: set<nat>) returns (s: seq<State>)
    ensures |s| == Size(f) && Legal(f, s, all) && Result(f, s).verdict == OfTruth(want)
  {
    match f
    case Comparison(_, _, _) =>
      s := [State(OfTruth(want), want, true)];
    case NullTest(test, e) =>
      s := [State(OfTruth(want), want, NeverNull(e, all) || want == (test == BlzIsNotNull))];
    case And(a, b) =>
      var x := SomeDecided(a, want, all);
      var y := SomeDecided(b, want, all);
      Together(a, b, x, y, all);
      s := x + y;
    case Or(a, b) =>
      var x := SomeDecided(a, want, all);
      var y := SomeDecided(b, want, all);
      Together(a, b, x, y, all);
      s := x + y;
    case Not(a) =>
      s := SomeDecided(a, !want, all);
  }

  /** The mask can be set. */
  lemma {:induction false} SomeMasked(f: Formula, all: set<nat>) returns (s: seq<State>)
    ensures |s| == Size(f) && Legal(f, s, all) && Result(f, s).mask
  {
    match f
    case Comparison(_, _, _) =>
      s := [State(Yes, true, true)];
    case NullTest(test, e) =>
      s := [State(OfTruth(test == BlzIsNotNull), test == BlzIsNotNull, true)];
    case And(a, b) =>
      var x := SomeMasked(a, all);
      var y := SomeMasked(b, all);
      Together(a, b, x, y, all);
      s := x + y;
    case Or(a, b) =>
      var x := SomeMasked(a, all);
      var y := SomeMasked(b, all);
      Together(a, b, x, y, all);
      s := x + y;
    case Not(a) =>
      s := SomeMasked(a, all);
  }

  /** A condition that is not covered can have its mask unset. */
  lemma {:induction false} SomeUnmasked(f: Formula, all: set<nat>) returns (s: seq<State>)
    requires !Covered(f, all)
    ensures |s| == Size(f) && Legal(f, s, all) && !Result(f, s).mask
    decreases f, 1
  {
    match f
    case Comparison(_, _, _) =>
      s := [State(Unknown, true, false)];
    case NullTest(test, e) =>
      s := [State(OfTruth(test != BlzIsNotNull), test != BlzIsNotNull, false)];
    case And(a, b) =>
      s := OneUnmasked(f, a, b, all);
    case Or(a, b) =>
      s := OneUnmasked(f, a, b, all);
    case Not(a) =>
      s := SomeUnmasked(a, all);
  }

  lemma {:induction false} OneUnmasked(f: Formula, a: Formula, b: Formula, all: set<nat>) returns (s: seq<State>)
    requires (f == And(a, b) || f == Or(a, b)) && !(Covered(a, all) && Covered(b, all))
    ensures |s| == Size(f) && Legal(f, s, all) && !Result(f, s).mask
    decreases f, 0
  {
    var x, y;
    if Covered(a, all) {
      x := SomeMasked(a, all);
      y := SomeUnmasked(b, all);
    } else {
      x := SomeUnmasked(a, all);
      y := SomeMasked(b, all);
    }
    Together(a, b, x, y, all);
    s := x + y;
  }

  ghost predicate IsLost(f: Formula, s: seq<State>, want: bool, all: set<nat>) {
    |s| == Size(f) && Legal(f, s, all) && Result(f, s).verdict == OfTruth(want) && !Result(f, s).mask
  }

  /** A condition that is not complete can have the verdict wanted with its mask unset. */
  lemma {:induction false} SomeLost(f: Formula, want: bool, all: set<nat>) returns (s: seq<State>)
    requires !Complete(f, want, all)
    ensures IsLost(f, s, want, all)
    decreases f, 1
  {
    match f
    case NullTest(_, _) =>
      s := [State(OfTruth(want), want, false)];
    case And(a, b) =>
      if want { s := LostBeside(f, a, b, true, all); } else { s := LostAlone(f, a, b, false, all); }
    case Or(a, b) =>
      if want { s := LostAlone(f, a, b, true, all); } else { s := LostBeside(f, a, b, false, all); }
    case Not(a) =>
      s := SomeLost(a, !want, all);
  }

  /** Both sides have to have the verdict, and one of them is lost. */
  lemma {:induction false} LostBeside(f: Formula, a: Formula, b: Formula, want: bool, all: set<nat>)
    returns (s: seq<State>)
    requires f == (if want then And(a, b) else Or(a, b)) && !(Complete(a, want, all) && Complete(b, want, all))
    ensures IsLost(f, s, want, all)
    decreases f, 0
  {
    var x, y;
    if Complete(a, want, all) {
      x := SomeDecided(a, want, all);
      y := SomeLost(b, want, all);
    } else {
      x := SomeLost(a, want, all);
      y := SomeDecided(b, want, all);
    }
    Together(a, b, x, y, all);
    s := x + y;
  }

  /** One side settles the verdict, and the other unsets the mask. */
  lemma LostAlone(f: Formula, a: Formula, b: Formula, want: bool, all: set<nat>) returns (s: seq<State>)
    requires f == (if want then Or(a, b) else And(a, b)) && !(Covered(a, all) && Covered(b, all))
    ensures IsLost(f, s, want, all)
  {
    var x, y;
    if Covered(a, all) {
      x := SomeDecided(a, want, all);
      y := SomeUnmasked(b, all);
    } else {
      x := SomeUnmasked(a, all);
      y := SomeDecided(b, want, all);
    }
    Together(a, b, x, y, all);
    s := x + y;
  }

  ghost predicate IsMasked(f: Formula, s: seq<State>, verdict: Sql, outcome: bool, all: set<nat>) {
    |s| == Size(f) && Legal(f, s, all) && Result(f, s) == State(verdict, outcome, true)
  }

  lemma {:induction false} SomeBeing(f: Formula, want: bool, all: set<nat>) returns (s: seq<State>)
    requires CanBe(f, want, all)
    ensures IsMasked(f, s, OfTruth(want), want, all)
    decreases f, 1
  {
    match f
    case Comparison(_, _, _) =>
      s := [State(OfTruth(want), want, true)];
    case NullTest(_, _) =>
      s := [State(OfTruth(want), want, true)];
    case And(a, b) =>
      if want { s := BeingBeside(f, a, b, true, all); } else { s := BeingAlone(f, a, b, false, all); }
    case Or(a, b) =>
      if want { s := BeingAlone(f, a, b, true, all); } else { s := BeingBeside(f, a, b, false, all); }
    case Not(a) =>
      s := SomeBeing(a, !want, all);
  }

  lemma {:induction false} BeingBeside(f: Formula, a: Formula, b: Formula, want: bool, all: set<nat>)
    returns (s: seq<State>)
    requires f == (if want then And(a, b) else Or(a, b)) && CanBe(a, want, all) && CanBe(b, want, all)
    ensures IsMasked(f, s, OfTruth(want), want, all)
    decreases f, 0
  {
    var x := SomeBeing(a, want, all);
    var y := SomeBeing(b, want, all);
    Together(a, b, x, y, all);
    s := x + y;
  }

  lemma {:induction false} BeingAlone(f: Formula, a: Formula, b: Formula, want: bool, all: set<nat>)
    returns (s: seq<State>)
    requires f == (if want then Or(a, b) else And(a, b)) && (CanBe(a, want, all) || CanBe(b, want, all))
    ensures IsMasked(f, s, OfTruth(want), want, all)
    decreases f, 0
  {
    var x, y;
    if CanBe(a, want, all) {
      x := SomeBeing(a, want, all);
      y := SomeMasked(b, all);
    } else {
      x := SomeMasked(a, all);
      y := SomeBeing(b, want, all);
    }
    Together(a, b, x, y, all);
    s := x + y;
  }

  lemma {:induction false} SomeSneak(f: Formula, want: bool, all: set<nat>) returns (s: seq<State>)
    requires Sneaks(f, want, all)
    ensures IsMasked(f, s, Unknown, want, all)
    decreases f, 1
  {
    match f
    case Comparison(_, _, _) =>
      s := [State(Unknown, want, true)];
    case And(a, b) =>
      var x, y;
      if want { x, y := SneakBeside(f, a, b, true, all); } else { x, y := SneakAlone(f, a, b, false, all); }
      Together(a, b, x, y, all);
      s := x + y;
    case Or(a, b) =>
      var x, y;
      if want { x, y := SneakAlone(f, a, b, true, all); } else { x, y := SneakBeside(f, a, b, false, all); }
      Together(a, b, x, y, all);
      s := x + y;
    case Not(a) =>
      s := SomeSneak(a, !want, all);
  }

  /** States that come out as wanted, decided or not, one of them not. */
  lemma {:induction false} SneakBeside(f: Formula, a: Formula, b: Formula, want: bool, all: set<nat>)
    returns (x: seq<State>, y: seq<State>)
    requires f == And(a, b) || f == Or(a, b)
    requires SneaksBeside(a, b, want, all) || SneaksBeside(b, a, want, all)
    ensures |x| == Size(a) && Legal(a, x, all) && Result(a, x).mask && Result(a, x).outcome == want
    ensures |y| == Size(b) && Legal(b, y, all) && Result(b, y).mask && Result(b, y).outcome == want
    ensures Result(a, x).verdict in {OfTruth(want), Unknown} && Result(b, y).verdict in {OfTruth(want), Unknown}
    ensures Result(a, x).verdict == Unknown || Result(b, y).verdict == Unknown
    decreases f, 0
  {
    if Sneaks(a, want, all) { x := SomeSneak(a, want, all); } else { x := SomeBeing(a, want, all); }
    if Sneaks(b, want, all) { y := SomeSneak(b, want, all); } else { y := SomeBeing(b, want, all); }
  }

  /** States of which one comes out undecided as wanted, and the other does not settle the verdict. */
  lemma {:induction false} SneakAlone(f: Formula, a: Formula, b: Formula, want: bool, all: set<nat>)
    returns (x: seq<State>, y: seq<State>)
    requires f == And(a, b) || f == Or(a, b)
    requires SneaksAlone(a, b, want, all) || SneaksAlone(b, a, want, all)
    ensures |x| == Size(a) && Legal(a, x, all) && Result(a, x).mask
    ensures |y| == Size(b) && Legal(b, y, all) && Result(b, y).mask
    ensures Result(a, x).verdict in {OfTruth(!want), Unknown} && Result(b, y).verdict in {OfTruth(!want), Unknown}
    ensures (Result(a, x).verdict == Unknown && Result(a, x).outcome == want)
         || (Result(b, y).verdict == Unknown && Result(b, y).outcome == want)
    decreases f, 0
  {
    if Sneaks(a, want, all) {
      x := SomeSneak(a, want, all);
    } else if Sneaks(a, !want, all) {
      x := SomeSneak(a, !want, all);
    } else {
      x := SomeBeing(a, !want, all);
    }
    if Sneaks(b, want, all) {
      y := SomeSneak(b, want, all);
    } else if Sneaks(b, !want, all) {
      y := SomeSneak(b, !want, all);
    } else {
      y := SomeBeing(b, !want, all);
    }
  }

  /** The filter agrees with SQL in all states if and only if no row is lost and none gets in. */
  lemma StatesIff(f: Formula, all: set<nat>)
    ensures (forall s :: |s| == Size(f) && Legal(f, s, all) ==> Result(f, s).Agrees())
       <==> Complete(f, true, all) && !Sneaks(f, true, all)
  {
    if !Complete(f, true, all) {
      var s := SomeLost(f, true, all);
      assert !Result(f, s).Agrees();
    } else if Sneaks(f, true, all) {
      var s := SomeSneak(f, true, all);
      assert !Result(f, s).Agrees();
    } else {
      forall s | |s| == Size(f) && Legal(f, s, all)
        ensures Result(f, s).Agrees()
      {
        StateAgrees(f, s, all);
      }
    }
  }

  lemma StateAgrees(f: Formula, s: seq<State>, all: set<nat>)
    requires |s| == Size(f) && Legal(f, s, all)
    ensures Complete(f, true, all) && Result(f, s).verdict == Yes ==> Result(f, s).outcome && Result(f, s).mask
    ensures !Sneaks(f, true, all) && Result(f, s).outcome && Result(f, s).mask ==> Result(f, s).verdict == Yes
  {
    DecidedAlike(f, s, all);
    if Complete(f, true, all) && Result(f, s).verdict == Yes { CompleteIsMasked(f, s, true, all); }
    if Result(f, s).mask { MaskedIsExplained(f, s, all); }
  }
}
