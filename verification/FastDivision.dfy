/** Signed 32-bit division by an invariant divisor (`int_fastdiv`), on the host path.

    The magic-number loop is kept as the source has it; every unsigned variable is a `uint32`, so each
    assignment carries the proof that nothing exceeds 2^32 - 1. A divisor d gets a multiplier m and an
    exponent p such that m * |d| exceeds 2^p by so little (`Magic`) that m * n / 2^p is n / |d| rounded down
    for all magnitudes n in range, and one less than the truncated quotient on the negative side, which is
    what the sign-add repairs. Products are taken modulo 2^64 and sums modulo 2^32, as the machine does. */
module FastDivision {
  import opened Basics

  const TWO31 := 0x8000_0000
  const TWO32 := 0x1_0000_0000
  const TWO64 := 0x1_0000_0000_0000_0000

  type int32 = x: int | -0x8000_0000 <= x < 0x8000_0000
  type uint32 = x: int | 0 <= x < 0x1_0000_0000

  function Pow2(n: nat): (r: nat)
    ensures r > 0
  {
    if n == 0 then 1 else 2 * Pow2(n - 1)
  }

  /** Two's-complement reading of the low 32 bits. */
  function Wrap32(x: int): int32 {
    var r := x % TWO32;
    if r < TWO31 then r else r - TWO32
  }

  /** C's `/` on signed integers: the quotient is truncated toward zero. */
  function TruncDiv(n: int, d: int): int
    requires d != 0
  {
    var q := Abs(n) / Abs(d);
    if (n < 0) == (d < 0) then q else -q
  }

  /** C's `%`: what is left over after `TruncDiv`. */
  function TruncMod(n: int, d: int): int
    requires d != 0
  {
    n - TruncDiv(n, d) * d
  }

  function Abs(x: int): nat {
    if x < 0 then -x else x
  }

  /** `t` of the source: one past the largest magnitude that needs an exact quotient. */
  function Limit(d: int): int {
    if d < 0 then TWO31 + 1 else TWO31
  }

  /** `anc`: the largest magnitude below the limit that is congruent to -1 modulo |d|. */
  function CriticalMagnitude(d: int): int
    requires d != 0
  {
    Limit(d) - 1 - Limit(d) % Abs(d)
  }

  /** What makes `m` and `p` a usable multiplier and exponent for the divisor `d`. */
  ghost predicate Magic(d: int, m: int, p: nat) {
    && d != 0
    && 32 <= p <= 62
    && 0 < m < TWO32
    && var delta := m * Abs(d) - Pow2(p);
    && 0 < delta <= Abs(d)
    && CriticalMagnitude(d) * delta < Pow2(p)
    && (d > 0 && TWO31 % d == d - 1 ==> TWO31 * delta <= Pow2(p))
  }

  // ----- arithmetic facts ---------------------------------------------------------------------

  lemma {:induction false} Pow2Sum(a: nat, b: nat)
    ensures Pow2(a + b) == Pow2(a) * Pow2(b)
  {
    if b != 0 {
      Pow2Sum(a, b - 1);
      assert Pow2(a + b) == 2 * Pow2(a + (b - 1));
    }
  }

  lemma Pow2Values()
    ensures Pow2(30) == 0x4000_0000 && Pow2(31) == TWO31 && Pow2(32) == TWO32
    ensures Pow2(61) == 0x2000_0000_0000_0000 && Pow2(62) == 0x4000_0000_0000_0000
  {
    assert Pow2(10) == 1024;
    Pow2Sum(10, 10);
    Pow2Sum(20, 10);
    Pow2Sum(30, 1);
    Pow2Sum(31, 1);
    Pow2Sum(30, 31);
    Pow2Sum(31, 31);
  }

  lemma Pow2Monotone(a: nat, b: nat)
    requires a <= b
    ensures Pow2(a) <= Pow2(b)
  {
    Pow2Sum(a, b - a);
    MulMonotone(1, Pow2(b - a), Pow2(a));
  }

  lemma QuotientUnique(x: int, y: int, q: int)
    requires y > 0 && q * y <= x < (q + 1) * y
    ensures x / y == q
  {
    var r := x - q * y;
    assert x == q * y + r && 0 <= r < y;
    if x / y > q {
      MulMonotone(q + 1, x / y, y);
    } else if x / y < q {
      MulMonotone(x / y + 1, q, y);
    }
  }

  lemma CriticalBounds(d: int)
    requires 2 <= Abs(d) <= TWO31
    ensures var anc := CriticalMagnitude(d);
            && Abs(d) - 1 <= anc && 0x4000_0000 <= anc <= TWO31
            && (anc + 1) % Abs(d) == 0
            && (Abs(d) == TWO31 ==> anc == TWO31 - 1)
            && (anc == TWO31 ==> d < 0 && (TWO31 + 1) % Abs(d) == 0)
  {
    var ad, t := Abs(d), Limit(d);
    var k := t / ad;
    assert t == k * ad + t % ad;
    assert CriticalMagnitude(d) + 1 == k * ad;
    assert k >= 1 by { if k <= 0 { MulMonotone(k, 0, ad); } }
    MulMonotone(1, k, ad);
    MultipleMod(k, ad);
  }

  lemma MultipleMod(k: int, m: int)
    requires m > 0
    ensures (k * m) % m == 0
  {
    var q, r := (k * m) / m, (k * m) % m;
    assert (k - q) * m == r;
    if k - q >= 1 { MulMonotone(1, k - q, m); }
    if k - q <= -1 { MulMonotone(k - q, -1, m); }
  }

  // ----- why the multiplier works -------------------------------------------------------------

  lemma ErrorUpToCritical(anc: int, delta: int, pow: int, a: nat, gap: int)
    requires delta > 0 && anc * delta < pow && a <= anc && gap >= 1
    ensures a * delta < pow * gap
  {
    MulMonotone(a, anc, delta);
    assert 0 <= a * delta;
    MulMonotone(1, gap, pow);
  }

  lemma ErrorAboveCritical(anc: int, delta: int, pow: int, e: nat, gap: int)
    requires delta > 0 && anc * delta < pow && e + 1 <= anc && gap >= 2
    ensures (anc + 1 + e) * delta < pow * gap
  {
    MulMonotone(e + 1, anc, delta);
    assert (anc + 1 + e) * delta == anc * delta + (e + 1) * delta;
    assert 0 <= (e + 1) * delta;
    MulMonotone(2, gap, pow);
  }

  lemma ResidueAboveCritical(d: int, a: int)
    requires 2 <= Abs(d) <= TWO31
    requires CriticalMagnitude(d) < a <= Limit(d)
    ensures a % Abs(d) == a - CriticalMagnitude(d) - 1
    ensures a % Abs(d) == Abs(d) - 1 ==> a == Limit(d)
  {
    CriticalBounds(d);
    var ad, anc := Abs(d), CriticalMagnitude(d);
    RemainderUnique(a, ad, (anc + 1) / ad, a - (anc + 1));
  }

  /** The rounding error of the multiplier stays below one unit for every magnitude in range. */
  lemma ErrorBound(d: int, m: int, p: nat, a: nat)
    requires Magic(d, m, p) && 2 <= Abs(d) <= TWO31
    requires a <= Limit(d)
    ensures var ad := Abs(d); var delta := m * ad - Pow2(p);
            && (a < Limit(d) ==> a * delta < Pow2(p) * (ad - a % ad))
            && (d > 0 ==> a * delta <= Pow2(p) * (ad - a % ad))
  {
    var ad, anc := Abs(d), CriticalMagnitude(d);
    var delta := m * ad - Pow2(p);
    var gap := ad - a % ad;
    CriticalBounds(d);
    if a <= anc {
      ErrorUpToCritical(anc, delta, Pow2(p), a, gap);
    } else {
      ResidueAboveCritical(d, a);
      if gap >= 2 {
        ErrorAboveCritical(anc, delta, Pow2(p), a - anc - 1, gap);
      } else {
        assert a == Limit(d) && gap == 1;
      }
    }
  }

  lemma RemainderUnique(x: int, y: int, q: int, r: int)
    requires y > 0 && x == q * y + r && 0 <= r < y
    ensures x / y == q && x % y == r
  {
    assert (q + 1) * y == q * y + y;
    QuotientUnique(x, y, q);
  }

  lemma Recompose(q: int, b: int, r: int, a: int)
    ensures (q * b + r) * a == q * (a * b) + r * a
    ensures (b - 1) * a == a * b - a
  {
    assert q * b * a == q * (a * b);
  }

  lemma NestedDivision(x: int, a: int, b: int)
    requires a > 0 && b > 0
    ensures a * b > 0 && x / a / b == x / (a * b)
  {
    var y, s := x / a, x % a;
    var q, r := y / b, y % b;
    assert x == y * a + s && y == q * b + r;
    Recompose(q, b, r, a);
    MulMonotone(0, r, a);
    MulMonotone(r, b - 1, a);
    MulMonotone(1, b, a);
    RemainderUnique(x, a * b, q, r * a + s);
  }

  /** Scaling the product by the divisor separates quotient, remainder and rounding error. */
  lemma ScaledProduct(m: int, ad: int, pow: int, a: nat)
    requires ad > 0
    ensures ad * (m * a) == ad * (a / ad * pow) + (a % ad) * pow + a * (m * ad - pow)
  {
    var q, r := a / ad, a % ad;
    assert a == q * ad + r;
    assert ad * (m * a) == a * (m * ad);
    assert a * pow == (q * ad + r) * pow == q * ad * pow + r * pow;
    assert q * ad * pow == ad * (q * pow);
    assert a * (m * ad - pow) == a * (m * ad) - a * pow;
  }

  /** High part of the product for a magnitude `a`: the exact quotient. */
  lemma ExactForPositive(m: int, ad: int, pow: int, a: nat)
    requires ad > 0 && pow > 0 && m * ad > pow
    requires a * (m * ad - pow) < pow * (ad - a % ad)
    ensures (m * a) / pow == a / ad
  {
    var q, r := a / ad, a % ad;
    ScaledProduct(m, ad, pow, a);
    MulMonotone(0, r, pow);
    MulMonotone(0, a, m * ad - pow);
    assert pow * (ad - r) == pow * ad - r * pow;
    assert ad * (q * pow + pow) == ad * (q * pow) + pow * ad;
    CancelLess(ad, m * a, q * pow + pow);
    CancelLessEq(ad, q * pow, m * a);
    assert (q + 1) * pow == q * pow + pow;
    QuotientUnique(m * a, pow, q);
  }

  /** High part of the product for minus a magnitude: one below minus the exact quotient. */
  lemma ExactForNegative(m: int, ad: int, pow: int, a: nat)
    requires ad > 0 && pow > 0 && m * ad > pow && a > 0
    requires a * (m * ad - pow) <= pow * (ad - a % ad)
    ensures (-(m * a)) / pow == -(a / ad) - 1
  {
    var q, r := a / ad, a % ad;
    ScaledProduct(m, ad, pow, a);
    MulMonotone(0, r, pow);
    MulMonotone(1, a, m * ad - pow);
    assert pow * (ad - r) == pow * ad - r * pow;
    assert ad * (q * pow + pow) == ad * (q * pow) + pow * ad;
    CancelLess(ad, q * pow, m * a);
    CancelLessEq(ad, m * a, q * pow + pow);
    var below := -q - 1;
    assert below * pow == -(q * pow) - pow && (below + 1) * pow == -(q * pow);
    QuotientUnique(-(m * a), pow, below);
  }

  lemma CancelLess(k: int, x: int, y: int)
    requires k > 0 && k * x < k * y
    ensures x < y
  {
    if y <= x { MulMonotone(y, x, k); }
  }

  lemma CancelLessEq(k: int, x: int, y: int)
    requires k > 0 && k * x <= k * y
    ensures x <= y
  {
    assert (y + 1) * k == y * k + k;
    if y + 1 <= x { MulMonotone(y + 1, x, k); }
  }

  // ----- the magic loop -----------------------------------------------------------------------

  /** What the loop needs to know of |d| and of its critical magnitude. */
  ghost predicate Operands(ad: int, anc: int) {
    && 2 <= ad <= TWO31
    && ad - 1 <= anc && 0x4000_0000 <= anc <= TWO31
    && (ad == TWO31 ==> anc == TWO31 - 1)
    && (anc == TWO31 ==> ad % 2 == 1)
  }

  /** `q1`, `r1`, `q2`, `r2` divide the power of two by the critical magnitude and by |d|. */
  ghost predicate LoopState(ad: int, anc: int, pow: int, q1: int, r1: int, q2: int, r2: int) {
    && q1 * anc + r1 == pow && 0 <= r1 < anc && 0 <= q1
    && q2 * ad + r2 == pow && 0 <= r2 < ad && 0 <= q2
  }

  /** The source's `while` condition. */
  predicate MustContinue(delta: int, q1: int, r1: int) {
    q1 < delta || (q1 == delta && r1 == 0)
  }

  lemma OddDivisorOfOdd(x: int, y: int)
    requires y > 0 && x % 2 == 1 && x % y == 0
    ensures y % 2 == 1
  {
    var h, k := y / 2, x / y;
    assert x == y * k;
    assert (2 * h) * k == 2 * (h * k);
    assert y == 2 * h ==> x == 2 * (h * k);
  }

  lemma OperandsOf(d: int)
    requires 2 <= Abs(d) <= TWO31
    ensures Operands(Abs(d), CriticalMagnitude(d))
  {
    CriticalBounds(d);
    if CriticalMagnitude(d) == TWO31 {
      OddDivisorOfOdd(TWO31 + 1, Abs(d));
    }
  }

  /** The loop's test decides exactly whether 2^p is still too small. */
  lemma ContinueMeansTooSmall(pow: int, anc: int, delta: int, q1: int, r1: int)
    requires pow == q1 * anc + r1 && 0 <= r1 < anc
    ensures MustContinue(delta, q1, r1) <==> pow <= anc * delta
  {
    assert (q1 + 1) * anc == q1 * anc + anc;
    assert (q1 - 1) * anc == q1 * anc - anc;
    if q1 < delta {
      MulMonotone(q1 + 1, delta, anc);
    } else if q1 > delta {
      MulMonotone(delta, q1 - 1, anc);
    }
  }

  lemma ProductBound(ad: int, anc: int, delta: int)
    requires Operands(ad, anc) && 0 <= delta <= ad
    ensures anc * delta < 0x4000_0000_0000_0000
  {
    MulMonotone(delta, ad, anc);
    if ad < TWO31 {
      MulMonotone(ad, TWO31 - 1, anc);
      MulMonotone(anc, TWO31, TWO31 - 1);
    }
  }

  lemma SmallExponent(p: nat, bound: int)
    requires Pow2(p) <= bound < 0x4000_0000_0000_0000
    ensures p <= 61 && Pow2(p) <= 0x2000_0000_0000_0000
  {
    Pow2Values();
    if p >= 62 { Pow2Monotone(62, p); }
    Pow2Monotone(p, 61);
  }

  lemma CriticalQuotientFits(ad: int, anc: int, pow: int, delta: int, q1: int, r1: int)
    requires Operands(ad, anc) && pow == q1 * anc + r1 && 0 <= r1
    requires delta <= ad && pow <= anc * delta && pow <= 0x2000_0000_0000_0000
    ensures q1 < TWO31
  {
    if ad < TWO31 {
      MulMonotone(delta, TWO31 - 1, anc);
      assert (TWO31 - 1) * anc == TWO31 * anc - anc;
    }
    CancelLess(anc, q1, TWO31);
  }

  lemma NotThatPowerOfTwo(p: nat, ad: int)
    requires p >= 32 && ad % 2 == 1
    ensures Pow2(p) != TWO31 * ad
  {
    Pow2Values();
    Pow2Sum(32, p - 32);
    assert Pow2(p) == TWO31 * (2 * Pow2(p - 32));
  }

  lemma DivisorQuotientFits(ad: int, anc: int, p: nat, q2: int, r2: int)
    requires Operands(ad, anc) && 32 <= p
    requires Pow2(p) == q2 * ad + r2 && 0 <= r2 <= ad && Pow2(p) <= anc * (ad - r2)
    ensures q2 < TWO31
  {
    if anc < TWO31 {
      MulMonotone(ad - r2, ad, anc);
      CancelLessEq(ad, q2, anc);
    } else {
      NotThatPowerOfTwo(p, ad);
      CancelLess(ad, q2, TWO31);
    }
  }

  /** The last doubling cannot carry the multiplier to 2^32. */
  lemma MultiplierFits(ad: int, anc: int, pow: int, q2: int, r2: int)
    requires Operands(ad, anc)
    requires pow == q2 * ad + r2 && 0 <= r2 && pow <= anc * (ad - r2)
    requires 2 * r2 >= ad
    ensures q2 < TWO31 - 1
  {
    assert anc * (ad - r2) == anc * ad - anc * r2;
    MulMonotone(2, anc, r2);
    MulMonotone(anc, TWO31, ad);
    assert (TWO31 - 1) * ad == TWO31 * ad - ad;
    CancelLess(ad, q2, TWO31 - 1);
  }

  lemma FirstHead(ad: int, anc: int, q1: int, r1: int, q2: int, r2: int)
    requires Operands(ad, anc) && LoopState(ad, anc, TWO31, q1, r1, q2, r2)
    ensures q1 < TWO31 && q2 < TWO31 - 1
  {
    MulMonotone(2, anc, TWO31 - 1);
    CancelLess(anc, q1, TWO31 - 1);
    MulMonotone(2, ad, TWO31 - 1);
    CancelLess(ad, q2, TWO31 - 1);
  }

  /** At the head of every iteration the doublings below fit in 32 unsigned bits. */
  lemma HeadBounds(ad: int, anc: int, p: nat, q1: int, r1: int, q2: int, r2: int)
    requires Operands(ad, anc) && LoopState(ad, anc, Pow2(p), q1, r1, q2, r2) && p >= 31
    requires p > 31 ==> MustContinue(ad - r2, q1, r1)
    ensures p <= 61 && q1 < TWO31 && q2 < TWO31
    ensures 2 * r2 >= ad ==> q2 < TWO31 - 1
  {
    if p == 31 {
      Pow2Values();
      FirstHead(ad, anc, q1, r1, q2, r2);
    } else {
      ContinueMeansTooSmall(Pow2(p), anc, ad - r2, q1, r1);
      ProductBound(ad, anc, ad - r2);
      SmallExponent(p, anc * (ad - r2));
      CriticalQuotientFits(ad, anc, Pow2(p), ad - r2, q1, r1);
      DivisorQuotientFits(ad, anc, p, q2, r2);
      if 2 * r2 >= ad { MultiplierFits(ad, anc, Pow2(p), q2, r2); }
    }
  }

  /** One doubling of a quotient and remainder. */
  lemma Doubling(pow: int, y: int, q: int, r: int, q': int, r': int)
    requires pow == q * y + r && 0 <= r < y && 0 <= q
    requires if 2 * r >= y then q' == 2 * q + 1 && r' == 2 * r - y else q' == 2 * q && r' == 2 * r
    ensures 2 * pow == q' * y + r' && 0 <= r' < y && 0 <= q'
  {
    assert 2 * q * y == 2 * (q * y);
    assert (2 * q + 1) * y == 2 * (q * y) + y;
  }

  lemma MagicFound(d: int, p: nat, q1: int, r1: int, q2: int, r2: int)
    requires 2 <= Abs(d) && 32 <= p <= 62 && 0 <= q2 && q2 + 1 < TWO32
    requires LoopState(Abs(d), CriticalMagnitude(d), Pow2(p), q1, r1, q2, r2)
    requires !MustContinue(Abs(d) - r2, q1, r1)
    requires d > 0 && TWO31 % d == d - 1 ==> p == 32 && Abs(d) - r2 == 2
    ensures Magic(d, q2 + 1, p)
  {
    Pow2Values();
    var ad, anc := Abs(d), CriticalMagnitude(d);
    ContinueMeansTooSmall(Pow2(p), anc, ad - r2, q1, r1);
    assert (q2 + 1) * ad == q2 * ad + ad;
    assert (q2 + 1) * Abs(d) - Pow2(p) == ad - r2;
  }

  /** The multiplier is kept modulo 2^32, negated for a negative divisor. */
  function Encode(d: int, m: int): int32 {
    if d < 0 then Wrap32(0 - Wrap32(m)) else Wrap32(m)
  }

  function Decode(d: int, magic: int): int {
    if d > 0 then magic % TWO32 else (0 - magic) % TWO32
  }

  lemma EncodeDecode(d: int, m: int)
    requires d != 0 && 0 < m < TWO32
    ensures Decode(d, Encode(d, m)) == m
  {
  }

  lemma DivisionFacts(x: int, y: int)
    requires y > 0
    ensures 0 <= x - x / y * y < y && x % y == x - x / y * y
    ensures x >= 0 ==> 0 <= x / y <= x
  {
    var q := x / y;
    assert x == q * y + x % y;
    if x >= 0 {
      if q < 0 { MulMonotone(q, -1, y); }
      MulMonotone(1, y, q);
    }
  }

  /** The do-while of `update_magic_numbers`. When 2^31 is congruent to -1 modulo |d| it leaves after
      one iteration, with the only exponent that also serves n = -2^31. */
  method MagicLoop(ad: uint32, anc: uint32)
      returns (p: nat, q2: uint32, ghost q1: int, ghost r1: int, ghost r2: int)
    requires Operands(ad, anc)
    ensures 32 <= p <= 62 && q2 + 1 < TWO32
    ensures LoopState(ad, anc, Pow2(p), q1, r1, q2, r2) && !MustContinue(ad - r2, q1, r1)
    ensures anc < TWO31 && TWO31 % ad == ad - 1 ==> p == 32 && ad - r2 == 2
  {
    Pow2Values();
    DivisionFacts(TWO31, anc);
    DivisionFacts(TWO31, ad);
    ghost var edge := anc < TWO31 && TWO31 % ad == ad - 1;
    p := 31;
    var u1: uint32 := TWO31 / anc;
    var v1: uint32 := TWO31 - u1 * anc;
    q2 := TWO31 / ad;
    var v2: uint32 := TWO31 - q2 * ad;
    var delta: uint32;
    ghost var pow := TWO31;
    while true
      invariant pow == Pow2(p) && 31 <= p <= 61
      invariant LoopState(ad, anc, pow, u1, v1, q2, v2)
      invariant p > 31 ==> MustContinue(ad - v2, u1, v1)
      invariant edge ==> p == 31 && v2 == ad - 1 && pow == TWO31
      decreases 62 - p
    {
      HeadBounds(ad, anc, p, u1, v1, q2, v2);
      q1, r1, r2 := u1, v1, v2;
      ghost var q2' := q2;
      p := p + 1;
      u1 := 2 * u1;
      v1 := 2 * v1;
      if v1 >= anc {
        u1 := u1 + 1;
        v1 := v1 - anc;
      }
      Doubling(pow, anc, q1, r1, u1, v1);
      q2 := 2 * q2;
      v2 := 2 * v2;
      if v2 >= ad {
        q2 := q2 + 1;
        v2 := v2 - ad;
      }
      Doubling(pow, ad, q2', r2, q2, v2);
      pow := 2 * pow;
      delta := ad - v2;
      if !(u1 < delta || (u1 == delta && v1 == 0)) {
        break;
      }
      HeadBounds(ad, anc, p, u1, v1, q2, v2);
      ContinueMeansTooSmall(pow, anc, delta, u1, v1);
    }
    q1, r1, r2 := u1, v1, v2;
  }

  // ----- applying the multiplier --------------------------------------------------------------

  /** The signed multiplier: m for a positive divisor, -m for a negative one. */
  function Signed(d: int, m: int): int {
    if d < 0 then -m else m
  }

  lemma SignedMultiplier(d: int, magic: int32, nAddSign: int32)
    requires d != 0 && 0 < Decode(d, magic)
    requires nAddSign == (if d > 0 && magic < 0 then 1 else if d < 0 && magic > 0 then -1 else 0)
    ensures Signed(d, Decode(d, magic)) == magic + nAddSign * TWO32
    ensures -TWO32 < Signed(d, Decode(d, magic)) < TWO32
  {
  }

  /** The product with the correction factor leaves 32 bits for the smallest dividend under the factor -1, so
      for -1 and the other negative divisors whose multiplier's low word is positive, and nowhere else. There C++
      leaves the result of `n * n_add_sign` open; `Wrap32` takes it modulo 2^32, after which the sum is right. */
  lemma CorrectionFits(n: int32, nAddSign: int32)
    requires -1 <= nAddSign <= 1
    ensures -TWO31 <= n * nAddSign < TWO31 <==> !(n == -TWO31 && nAddSign == -1)
  {
    var x: int := n;
    if nAddSign == -1 { assert x * nAddSign == -x; } else if nAddSign == 1 { assert x * nAddSign == x; }
  }

  /** Multiply-high plus the correction term is the exact high half, which fits in 32 bits. */
  lemma HighPartExact(n: int32, sm: int, magic: int32, nAddSign: int32)
    requires sm == magic + nAddSign * TWO32 && -TWO32 < sm < TWO32
    ensures Wrap32((magic * n) % TWO64 / TWO32) == magic * n / TWO32
    ensures magic * n / TWO32 + n * nAddSign == sm * n / TWO32
    ensures -TWO31 <= sm * n / TWO32 < TWO31
  {
    ProductRange(magic, n);
    HighHalf(magic * n);
    assert sm * n == magic * n + TWO32 * (n * nAddSign) by {
      assert (nAddSign * TWO32) * n == TWO32 * (n * nAddSign);
    }
    AddMultiple(magic * n, n * nAddSign);
    ScaledRange(sm, n);
  }

  lemma ProductRange(x: int32, y: int32)
    ensures -0x4000_0000_0000_0000 <= x * y <= 0x4000_0000_0000_0000
  {
    var a: int, b: int := Abs(x), Abs(y);
    MulMonotone(a, TWO31, b);
    MulMonotone(b, TWO31, TWO31);
    assert x * y == a * b || x * y == -(a * b);
  }

  lemma HighHalf(x: int)
    requires -0x4000_0000_0000_0000 <= x <= 0x4000_0000_0000_0000
    ensures Wrap32(x % TWO64 / TWO32) == x / TWO32
  {
  }

  lemma AddMultiple(x: int, k: int)
    ensures (x + TWO32 * k) / TWO32 == x / TWO32 + k
  {
  }

  /** |m| < 2^32 and n in 32 bits: the high half fits in 32 bits. */
  lemma ScaledRange(sm: int, n: int32)
    requires -TWO32 < sm < TWO32
    ensures -TWO31 <= sm * n / TWO32 < TWO31
  {
    var a: int, b: int := Abs(sm), Abs(n);
    MulMonotone(a, TWO32 - 1, b);
    MulMonotone(b, TWO31, TWO32 - 1);
    assert sm * n == a * b || sm * n == -(a * b);
  }

  lemma WrapShift(x: int, k: int)
    ensures Wrap32(x + TWO32 * k) == Wrap32(x)
  {
    AddMultiple(x, k);
  }

  lemma WrapSum(x: int, y: int)
    ensures Wrap32(x + Wrap32(y)) == Wrap32(x + y)
  {
    var k := (Wrap32(y) - y) / TWO32;
    assert Wrap32(y) == y + TWO32 * k;
    WrapShift(x + y, k);
  }

  /** The multiplier is exact on every magnitude a 32-bit dividend can have, of either sign. */
  lemma MagnitudeExact(d: int, m: int, p: nat, a: nat)
    requires Magic(d, m, p) && 2 <= Abs(d) <= TWO31 && a <= Limit(d)
    ensures a < Limit(d) ==> (m * a) / Pow2(p) == a / Abs(d)
    ensures a > 0 && (d > 0 || a < Limit(d)) ==> (-(m * a)) / Pow2(p) == -(a / Abs(d)) - 1
  {
    ErrorBound(d, m, p, a);
    if a < Limit(d) { ExactForPositive(m, Abs(d), Pow2(p), a); }
    if a > 0 && (d > 0 || a < Limit(d)) { ExactForNegative(m, Abs(d), Pow2(p), a); }
  }

  lemma QuotientRange(x: nat, y: int)
    requires y > 0
    ensures 0 <= x / y <= x
  {
    DivisionFacts(x, y);
  }

  lemma SignedProduct(n: int, d: int, m: int)
    ensures Signed(d, m) * n == if (n < 0) == (d < 0) then m * Abs(n) else -(m * Abs(n))
  {
  }

  lemma LikeSigns(n: int32, d: int32, m: int, p: nat)
    requires Magic(d, m, p) && 2 <= Abs(d) && (n < 0) == (d < 0)
    ensures Signed(d, m) * n / Pow2(p) == Abs(n) / Abs(d)
  {
    SignedProduct(n, d, m);
    MagnitudeExact(d, m, p, Abs(n));
  }

  lemma UnlikeSigns(n: int32, d: int32, m: int, p: nat)
    requires Magic(d, m, p) && 2 <= Abs(d) && (n < 0) != (d < 0) && n != 0
    ensures Signed(d, m) * n / Pow2(p) == -(Abs(n) / Abs(d)) - 1
  {
    SignedProduct(n, d, m);
    MagnitudeExact(d, m, p, Abs(n));
  }

  lemma ZeroDividend(x: int, pow: int, ad: int)
    requires pow > 0 && ad > 0
    ensures x * 0 / pow == 0 && 0 / ad == 0
  {
  }

  /** From the shifted high part to the truncated quotient, by the sign of the quotient. */
  lemma SignAdd(n: int32, d: int32, m: int, p: nat)
    requires Magic(d, m, p) && 2 <= Abs(d)
    ensures var q := Signed(d, m) * n / Pow2(p);
            q + (if q < 0 then 1 else 0) == TruncDiv(n, d)
  {
    QuotientRange(Abs(n), Abs(d));
    if (n < 0) == (d < 0) {
      LikeSigns(n, d, m, p);
    } else if n != 0 {
      UnlikeSigns(n, d, m, p);
    } else {
      ZeroDividend(Signed(d, m), Pow2(p), Abs(d));
    }
  }

  lemma ShiftIsDivision(x: int, s: nat)
    ensures x / TWO32 / Pow2(s) == x / Pow2(s + 32)
  {
    Pow2Values();
    Pow2Sum(s, 32);
    NestedDivision(x, TWO32, Pow2(s));
  }

  lemma QuotientFits(n: int32, d: int32)
    requires d != 0
    ensures -TWO31 <= TruncDiv(n, d) < TWO31 <==> !(n == -TWO31 && d == -1)
  {
    var a, ad := Abs(n), Abs(d);
    DivisionFacts(a, ad);
    if ad >= 2 && a > 0 {
      MulMonotone(2, ad, a / ad);
    }
  }

  lemma TruncModFacts(n: int, d: int)
    requires d != 0
    ensures var r := TruncMod(n, d);
            && Abs(r) < Abs(d) && (r == 0 || (r < 0) == (n < 0))
            && r == (if n < 0 then -(Abs(n) % Abs(d)) else Abs(n) % Abs(d))
  {
    var a: int, ad: int := Abs(n), Abs(d);
    DivisionFacts(a, ad);
    var k := a / ad;
    var q := TruncDiv(n, d);
    assert q * d == (if n < 0 then -(k * ad) else k * ad);
  }

  lemma ScaleWrapped(q: int, k: int, d: int)
    ensures (q + TWO32 * k) * d == q * d + TWO32 * (k * d)
  {
    assert TWO32 * k * d == TWO32 * (k * d);
  }

  lemma WrapProduct(q: int, d: int)
    ensures Wrap32(Wrap32(q) * d) == Wrap32(q * d)
  {
    var k := (Wrap32(q) - q) / TWO32;
    assert Wrap32(q) == q + TWO32 * k;
    ScaleWrapped(q, k, d);
    WrapShift(q * d, k * d);
  }

  lemma WrapInRange(x: int)
    requires -TWO31 <= x < TWO31
    ensures Wrap32(x) == x
  {
  }

  /** The wrapping subtraction and multiplication of `operator%` cancel. */
  lemma RemainderFits(n: int, q: int, d: int)
    requires -TWO31 <= n - q * d < TWO31
    ensures Wrap32(n - Wrap32(Wrap32(q) * d)) == n - q * d
  {
    WrapProduct(q, d);
    NegatedWrap(n, q * d);
    WrapInRange(n - q * d);
  }

  lemma NegatedWrap(n: int, x: int)
    ensures Wrap32(n - Wrap32(x)) == Wrap32(n - x)
  {
    var k := (x - Wrap32(x)) / TWO32;
    assert x == Wrap32(x) + TWO32 * k;
    WrapShift(n - x, k);
  }

  /** What the fields of an `IntFastdiv` have to satisfy. */
  ghost predicate ValidFields(d: int32, magic: int32, s: int32, nAddSign: int32) {
    if d == 1 || d == -1 then
      magic == 0 && s == -1 && nAddSign == d
    else
      && d != 0 && 0 <= s
      && Magic(d, Decode(d, magic), s + 32)
      && nAddSign == (if d > 0 && magic < 0 then 1 else if d < 0 && magic > 0 then -1 else 0)
  }

  /** The quotient register after multiply-high and correction. */
  function HighWithCorrection(n: int32, magic: int32, nAddSign: int32): int32 {
    Wrap32(Wrap32((magic * n) % TWO64 / TWO32) + Wrap32(n * nAddSign))
  }

  lemma HighSum(x: int, y: int, h: int32)
    requires Wrap32(x % TWO64 / TWO32) == x / TWO32 && x / TWO32 + y == h
    ensures Wrap32(Wrap32(x % TWO64 / TWO32) + Wrap32(y)) == h
  {
    WrapSum(x / TWO32, y);
  }

  lemma HighAndCorrection(n: int32, d: int32, magic: int32, s: int32, nAddSign: int32)
    requires ValidFields(d, magic, s, nAddSign) && 0 <= s
    ensures HighWithCorrection(n, magic, nAddSign) == Signed(d, Decode(d, magic)) * n / TWO32
  {
    var sm := Signed(d, Decode(d, magic));
    SignedMultiplier(d, magic, nAddSign);
    HighPartExact(n, sm, magic, nAddSign);
    HighSum(magic * n, n * nAddSign, sm * n / TWO32);
  }

  /** The quotient after the arithmetic shift and the sign-add. */
  function Shifted(q: int32, s: int32): int {
    if s >= 0 then
      var t := q / Pow2(s);
      t + (if t < 0 then 1 else 0)
    else q
  }

  lemma ShiftAndSignAdd(n: int32, d: int32, magic: int32, s: int32, nAddSign: int32)
    requires ValidFields(d, magic, s, nAddSign) && 0 <= s
    ensures Shifted(HighWithCorrection(n, magic, nAddSign), s) == TruncDiv(n, d)
  {
    HighAndCorrection(n, d, magic, s, nAddSign);
    ShiftIsDivision(Signed(d, Decode(d, magic)) * n, s);
    SignAdd(n, d, Decode(d, magic), s + 32);
  }

  lemma ShiftInRange(q: int32, pow: int)
    requires pow > 0
    ensures -TWO31 <= q / pow < TWO31
  {
    DivisionFacts(q, pow);
    if q < 0 {
      if q / pow < q { MulMonotone(q / pow, q - 1, pow); MulMonotone(1, pow, 1 - q); assert (q - 1) * pow == -((1 - q) * pow); }
    }
  }

  lemma UnitDivisor(n: int32, d: int32)
    requires d == 1 || d == -1
    ensures HighWithCorrection(n, 0, d) == Wrap32(TruncDiv(n, d))
  {
    WrapSum(0, n * d);
  }

  /** All of `operator/`, for any valid fields. */
  lemma DivideComputes(n: int32, d: int32, magic: int32, s: int32, nAddSign: int32)
    requires ValidFields(d, magic, s, nAddSign)
    ensures Shifted(HighWithCorrection(n, magic, nAddSign), s) == Wrap32(TruncDiv(n, d))
  {
    if s >= 0 {
      ShiftAndSignAdd(n, d, magic, s, nAddSign);
      QuotientFits(n, d);
    } else {
      UnitDivisor(n, d);
    }
  }

  method ShiftWithSignAdd(high: int32, s: int32) returns (q: int32)
    requires s >= 0
    ensures q == Shifted(high, s)
  {
    ShiftInRange(high, Pow2(s));
    q := high / Pow2(s);
    q := q + (if q < 0 then 1 else 0);
  }

  lemma WrappedQuotient(n: int32, d: int32)
    requires d != 0
    ensures Wrap32(TruncDiv(n, d)) == TruncDiv(n, d) <==> !(n == -TWO31 && d == -1)
  {
    QuotientFits(n, d);
    if -TWO31 <= TruncDiv(n, d) < TWO31 {
      WrapInRange(TruncDiv(n, d));
    }
  }

  // ----- the class ----------------------------------------------------------------------------

  class IntFastdiv {
    var d: int32
    var magic: int32
    var s: int32
    var nAddSign: int32

    ghost predicate Valid()
      reads this
    {
      ValidFields(d, magic, s, nAddSign)
    }

    constructor (divisor: int32)
      requires divisor != 0
      ensures Valid() && d == divisor
    {
      d := divisor;
      magic, s, nAddSign := 0, 0, 0;
      new;
      UpdateMagicNumbers();
    }

    /** `operator =`: the divisor is replaced and the magic numbers recomputed. */
    method Assign(divisor: int32)
      requires divisor != 0
      modifies this
      ensures Valid() && d == divisor
    {
      d := divisor;
      UpdateMagicNumbers();
    }

    method UpdateMagicNumbers()
      requires d != 0
      modifies this
      ensures Valid() && d == old(d)
    {
      if d == 1 {
        magic, s, nAddSign := 0, -1, 1;
        return;
      } else if d == -1 {
        magic, s, nAddSign := 0, -1, -1;
        return;
      }
      var ad: uint32 := Abs(d);
      var t: uint32 := TWO31 + (if d < 0 then 1 else 0);
      var anc: uint32 := t - 1 - t % ad;
      CriticalBounds(d);
      OperandsOf(d);
      var p, q2, q1, r1, r2 := MagicLoop(ad, anc);
      MagicFound(d, p, q1, r1, q2, r2);
      EncodeDecode(d, q2 + 1);
      magic := Wrap32(q2 + 1);
      if d < 0 {
        magic := Wrap32(0 - magic);
      }
      s := p - 32;
      if d > 0 && magic < 0 {
        nAddSign := 1;
      } else if d < 0 && magic > 0 {
        nAddSign := -1;
      } else {
        nAddSign := 0;
      }
    }

    /** `operator/`: multiply-high, correction, arithmetic shift, sign-add. The one input pair on which
        the machine's result is not the quotient is the one whose quotient is not an `int32`. */
    method Divide(n: int32) returns (q: int32)
      requires Valid()
      ensures q == Wrap32(TruncDiv(n, d))
      ensures q == TruncDiv(n, d) <==> !(n == -TWO31 && d == -1)
    {
      DivideComputes(n, d, magic, s, nAddSign);
      WrappedQuotient(n, d);
      q := HighWithCorrection(n, magic, nAddSign);
      if s >= 0 {
        q := ShiftWithSignAdd(q, s);
      }
    }

    /** `operator%`: the remainder takes the sign of the dividend. */
    method Modulo(n: int32) returns (r: int32)
      requires Valid()
      ensures r == TruncMod(n, d)
      ensures Abs(r) < Abs(d) && (r == 0 || (r < 0) == (n < 0))
    {
      var quotient := Divide(n);
      r := Wrap32(n - Wrap32(quotient * d));
      TruncModFacts(n, d);
      RemainderFits(n, TruncDiv(n, d), d);
    }
  }
}
