/** The sticky bit, and rounding to a 64-bit floating-point number: 53 bits of
    precision, fewer below 2^-1022, with an exponent not bounded above. */
module DtoaRound {
  import opened DtoaPow
  import opened DtoaLimbs
  import opened DtoaBits
  import opened DtoaReal

  // ----- the sticky bit -----

  /** a / d, truncated, with the lowest bit set when the division is inexact. */
  ghost function Sticky(a: nat, d: nat): nat
    requires d > 0
  {
    if a % d != 0 && (a / d) % 2 == 0 then a / d + 1 else a / d
  }

  /** Below a multiple of four, an even number leaves room for its lowest bit. */
  lemma {:induction false} EvenRemainder(t: nat, w: nat, q: nat, r: nat)
    requires t == q * w + r && r < w && w % 4 == 0 && t % 2 == 0
    ensures r % 2 == 0 && r + 1 < w
  {
    var h := w / 4;
    Assoc(q, 4, h);
    Assoc(4, q, h);
    Congruent(q, w, 4 * h);
  }

  lemma {:induction false} QuarterPower(s: nat)
    requires s >= 2
    ensures Pow(2, s) % 4 == 0
  {
    EvenPower(s);
    EvenPower(s - 1);
  }

  /** The fractional part of a / d, as a real. */
  lemma {:induction false} Fraction(a: nat, d: nat, x: real)
    requires d > 0 && Times(x, d as real) == a as real
    ensures var phi := x - (a / d) as real;
            0.0 <= phi < 1.0 && (phi == 0.0 <==> a % d == 0)
  {
    hide Times;
    Euclid(a, d);
    TNat(a / d, d);
    var phi := x - (a / d) as real;
    TDistribute(d as real, x, (a / d) as real);
    FractionBounds(phi, (a % d) as real, d as real);
    TMonotone(phi, 0.0, d as real);
    TUnit(d as real);
  }

  /** Which way a quotient with remainder rho (out of w) rounds. */
  ghost function Up(q: int, rho: real, w: real, mode: RoundMode): int {
    match mode
    case TowardZero => 0
    case ToNearestAway => if 2.0 * rho >= w then 1 else 0
    case ToNearestEven => if 2.0 * rho > w || (2.0 * rho == w && q % 2 == 1) then 1 else 0
  }

  lemma {:induction false} RoundQuotAt(n: nat, d: nat, q: nat, r: nat, mode: RoundMode)
    requires n == q * d + r && r < d
    ensures RoundQuot(n, d, mode) == q + Up(q, r as real, d as real, mode)
  {
    DivModUnique(n, d, q, r);
  }

  /** A fraction below one counts as the lowest bit of an even remainder. */
  lemma {:induction false} StickyUp(q: nat, r: nat, phi: real, w: nat, mode: RoundMode)
    requires w % 4 == 0 && 0.0 < phi < 1.0
    ensures Up(q, r as real + phi, w as real, mode) == Up(q, (if r % 2 == 0 then r + 1 else r) as real, w as real, mode)
  {
    var h := w / 4;
    var r1 := if r % 2 == 0 then r + 1 else r;
    if r >= 2 * h {
      assert r1 >= 2 * h + 1;
      assert r1 as real >= (2 * h) as real + 1.0 && r as real >= (2 * h) as real;
    } else {
      assert r1 <= 2 * h - 1;
      assert r1 as real <= (2 * h) as real - 1.0 && r as real <= (2 * h) as real - 1.0;
    }
  }

  /** Rounding away two or more bits of the sticky quotient is rounding the exact
      quotient: the truncated divisions and the sticky bit lose nothing. */
  lemma {:induction false} StickyRounds(a: nat, d: nat, s: int, x: real, mode: RoundMode)
    requires d > 0 && s >= 2 && Times(x, d as real) == a as real
    ensures RoundQuot(Sticky(a, d), Pow(2, s), mode) == Nearest(Times(x, PowR(2, -s)), mode)
  {
    hide Times, Nearest, Pow, PowR, RoundQuot;
    Fraction(a, d, x);
    Euclid(a / d, Pow(2, s));
    StickyScaled(a / d, x, Sticky(a, d), s, a / d / Pow(2, s), a / d % Pow(2, s), a % d == 0, mode);
  }

  lemma {:induction false} StickyScaled(t: nat, x: real, v: nat, s: int, q: nat, r: nat, exact: bool, mode: RoundMode)
    requires s >= 2 && t == q * Pow(2, s) + r && r < Pow(2, s)
    requires 0.0 <= x - t as real < 1.0 && (x == t as real <==> exact)
    requires v == if !exact && t % 2 == 0 then t + 1 else t
    ensures RoundQuot(v, Pow(2, s), mode) == Nearest(Times(x, PowR(2, -s)), mode)
  {
    hide Times, Nearest, Pow, PowR, RoundQuot, Up;
    var w := Pow(2, s);
    QuarterPower(s);
    StickyCases(t, x - t as real, v, w, q, r, exact, mode);
    PowRInverse(2, s);
    PowRNat(2, s);
    TComm(PowR(2, s), PowR(2, -s));
    TAssoc(x, PowR(2, -s), PowR(2, s));
    TUnit(x);
    TNat(q, w);
    NearestUp(Times(x, PowR(2, -s)), q, r as real + (x - t as real), w as real, mode);
  }

  lemma {:induction false} NearestUp(x: real, q: int, rho: real, w: real, mode: RoundMode)
    requires w > 0.0 && Times(x, w) == Times(q as real, w) + rho && 0.0 <= rho < w
    ensures Nearest(x, mode) == q + Up(q, rho, w, mode)
  {
    hide Times, Nearest;
    NearestAt(x, q, rho, w, mode);
  }

  lemma {:induction false} StickyCases(t: nat, phi: real, v: nat, w: nat, q: nat, r: nat, exact: bool, mode: RoundMode)
    requires t == q * w + r && r < w && w % 4 == 0 && 0.0 <= phi < 1.0 && (phi == 0.0 <==> exact)
    requires v == if !exact && t % 2 == 0 then t + 1 else t
    ensures RoundQuot(v, w, mode) == q + Up(q, r as real + phi, w as real, mode)
  {
    hide RoundQuot, Up;
    if exact {
      RoundQuotAt(t, w, q, r, mode);
    } else if t % 2 == 0 {
      EvenRemainder(t, w, q, r);
      RoundQuotAt(t + 1, w, q, r + 1, mode);
      StickyUp(q, r, phi, w, mode);
    } else {
      OddRemainder(t, w, q, r);
      RoundQuotAt(t, w, q, r, mode);
      StickyUp(q, r, phi, w, mode);
    }
  }

  lemma {:induction false} OddRemainder(t: nat, w: nat, q: nat, r: nat)
    requires t == q * w + r && w % 4 == 0 && t % 2 == 1
    ensures r % 2 == 1
  {
    var h := w / 4;
    Assoc(q, 4, h);
    Assoc(4, q, h);
    Congruent(q, w, 4 * h);
  }

  // ----- what a rounded number stands for -----

  /** v is x exactly, or x truncated with a sticky bit and at least 56 bits long. */
  ghost predicate Stands(v: nat, x: real) {
    || x == v as real
    || (v >= Pow(2, 55) && exists a: nat, d: nat :: IsSticky(v, x, a, d))
  }

  ghost predicate IsSticky(v: nat, x: real, a: nat, d: nat) {
    d > 0 && Times(x, d as real) == a as real && v == Sticky(a, d)
  }

  lemma {:induction false} StandsRounds(v: nat, x: real, s: int, mode: RoundMode)
    requires Stands(v, x) && (v >= Pow(2, 55) ==> s >= 2)
    ensures RoundShift(v, s, mode) == Nearest(Times(x, PowR(2, -s)), mode)
  {
    hide Times, Nearest, Pow, PowR, RoundQuot, Sticky;
    if x == v as real {
      RoundShiftIsNearest(v, s, mode);
    } else {
      var a: nat, d: nat :| IsSticky(v, x, a, d);
      StickyRounds(a, d, s, x, mode);
    }
  }

  /** x has the binary exponent of v. */
  lemma {:induction false} StandsBracket(v: nat, x: real, k: nat)
    requires Stands(v, x) && Pow(2, k) <= v < Pow(2, k + 1)
    ensures PowR(2, k) <= x < PowR(2, k + 1)
  {
    hide Times, Pow, PowR;
    PowRNat(2, k);
    PowRNat(2, k + 1);
    EvenPower(k + 1);
    if x != v as real {
      var a: nat, d: nat :| IsSticky(v, x, a, d);
      Fraction(a, d, x);
      LargePower(k, v);
    }
  }

  lemma {:induction false} LargePower(k: nat, v: nat)
    requires Pow(2, 55) <= v < Pow(2, k + 1)
    ensures k >= 55 && Pow(2, k) % 2 == 0
  {
    if k < 55 {
      PowMonotone(2, k + 1, 55);
    } else {
      EvenPower(k);
    }
  }

  // ----- rounding to a double -----

  const PRECISION: nat := 53
  const MIN_EXPONENT: int := -1021

  /** 2^(t-1) <= v < 2^t */
  ghost predicate Bracket(v: real, t: int) {
    PowR(2, t - 1) <= v < PowR(2, t)
  }

  /** The exponent of the last place of doubles with binary exponent t. */
  function LastPlace(t: int): int {
    (if t < MIN_EXPONENT then MIN_EXPONENT else t) - PRECISION
  }

  predicate Significand(m: nat) { m == 0 || Pow(2, 52) <= m < Pow(2, 53) }

  ghost predicate RoundedAt(v: real, t: int, m: nat, e: int, mode: RoundMode) {
    && Bracket(v, t) && Significand(m)
    && Times(m as real, PowR(2, e - 53))
       == Times(Nearest(Times(v, PowR(2, -LastPlace(t))), mode) as real, PowR(2, LastPlace(t)))
  }

  /** m * 2^(e-53) is v rounded to a double. */
  ghost predicate Rounded(v: real, m: nat, e: int, mode: RoundMode) {
    exists t :: RoundedAt(v, t, m, e, mode)
  }

  lemma {:induction false} PowRSum(j: int, k: int, l: int)
    requires l == j + k
    ensures Times(PowR(2, j), PowR(2, k)) == PowR(2, l)
  {
    PowRAdd(2, j, k);
  }

  /** Scaling by a power of two, twice. */
  lemma {:induction false} Rescale(x: real, j: int, k: int, l: int)
    requires l == j + k
    ensures Times(Times(x, PowR(2, j)), PowR(2, k)) == Times(x, PowR(2, l))
  {
    hide Times, PowR;
    PowRSum(j, k, l);
    TAssoc(x, PowR(2, j), PowR(2, k));
  }

  lemma {:induction false} ScaledBracket(x: real, k: int, j: int)
    requires PowR(2, k) <= x < PowR(2, k + 1)
    ensures PowR(2, k + j) <= Times(x, PowR(2, j)) < PowR(2, k + 1 + j)
  {
    hide Times, PowR;
    PowRSum(k, j, k + j);
    PowRSum(k + 1, j, k + 1 + j);
    TMonotone(PowR(2, k), x, PowR(2, j));
    TMonotone(x, PowR(2, k + 1), PowR(2, j));
  }

  /** The precision left for binary exponent t. */
  function PrecisionAt(t: int): int {
    if t < MIN_EXPONENT then PRECISION - (MIN_EXPONENT - t) else PRECISION
  }

  lemma {:induction false} RoundedRange(y: real, p: int, mode: RoundMode)
    requires PowR(2, p - 1) <= y < PowR(2, p)
    ensures var n := Nearest(y, mode);
            && (p >= 1 ==> Pow(2, p - 1) <= n <= Pow(2, p))
            && (p == 0 ==> 0 <= n <= 1)
            && (p < 0 ==> n == 0)
  {
    PowRUnit(2);
    Doubled(0);
    Doubled(1);
    hide Pow, PowR;
    if p >= 1 {
      PowRNat(2, p - 1);
      PowRNat(2, p);
      NearestInt(Pow(2, p - 1), mode);
      NearestInt(Pow(2, p), mode);
      NearestMonotone(PowR(2, p - 1), y, mode);
      NearestMonotone(y, PowR(2, p), mode);
    } else if p < 0 {
      PowRMonotone(2, p, -1);
    }
  }

  /** Normalizing an n-bit result to a 53-bit significand. */
  lemma {:induction false} Renormalized(n: nat, p: int, t: int)
    requires p <= 53
    requires p >= 1 ==> Pow(2, p - 1) <= n < Pow(2, p)
    requires p <= 0 ==> n == 0
    ensures var m := n * Pow(2, 53 - p);
            && Significand(m) && m < Pow(2, 53)
            && Times(m as real, PowR(2, t - 53)) == Times(n as real, PowR(2, t - p))
  {
    hide Times, PowR, Pow;
    TNat(n, Pow(2, 53 - p));
    PowRNat(2, 53 - p);
    Rescale(n as real, 53 - p, t - 53, t - p);
    if p >= 1 {
      PowAdd(2, p - 1, 53 - p);
      PowAdd(2, p, 53 - p);
      MulMonotone(Pow(2, p - 1), n, Pow(2, 53 - p));
      MulMonotone(n + 1, Pow(2, p), Pow(2, 53 - p));
      Distribute(Pow(2, 53 - p), n, 1);
    }
  }

  /** When rounding reaches 2^p, the significand is 2^52 one binade up. */
  lemma {:induction false} Overflowed(p: nat, t: int)
    requires p <= 53
    ensures Pow(2, p) * Pow(2, 53 - p) == Pow(2, 53) == 2 * Pow(2, 52)
    ensures Times(Pow(2, 52) as real, PowR(2, t + 1 - 53)) == Times(Pow(2, p) as real, PowR(2, t - p))
  {
    hide Times, PowR, Pow;
    EvenPower(53);
    PowAdd(2, p, 53 - p);
    PowRNat(2, 52);
    PowRNat(2, p);
    PowRSum(52, t + 1 - 53, t);
    PowRSum(p, t - p, t);
  }

  // ----- no double is closer -----

  /** k * 2^j with k below 2^53 and j at least -1074: the non-negative doubles,
      without an upper limit. */
  ghost predicate IsDouble(y: real, k: nat, j: int) {
    k < Pow(2, 53) && j >= MIN_EXPONENT - 53 && y == Times(k as real, PowR(2, j))
  }

  /** Distances scale. */
  lemma {:induction false} DistanceScaled(x: real, y: real, w: real)
    requires w > 0.0
    ensures Distance(Times(x, w), Times(y, w)) == Times(Distance(x, y), w)
  {
    hide Times;
    TMonotone(x, y, w);
    TDistribute(w, x, y);
    TDistribute(w, y, x);
  }

  /** Rounding on a grid of multiples of w picks a closest multiple. */
  lemma {:induction false} GridClosest(v: real, q: int, i: int)
    ensures var r := Times(Nearest(Times(v, PowR(2, -q)), ToNearestEven) as real, PowR(2, q));
            Distance(v, r) <= Distance(v, Times(i as real, PowR(2, q)))
  {
    hide Times, PowR, Nearest;
    var x := Times(v, PowR(2, -q));
    var n := Nearest(x, ToNearestEven);
    NearestClosest(x, i);
    Rescale(v, -q, q, 0);
    PowRUnit(2);
    TUnit(v);
    DistanceScaled(x, n as real, PowR(2, q));
    DistanceScaled(x, i as real, PowR(2, q));
    TMonotone(Distance(x, n as real), Distance(x, i as real), PowR(2, q));
  }

  /** The rounded result is a closest double. */
  lemma {:induction false} CorrectlyRounded(v: real, m: nat, e: int, y: real, k: nat, j: int)
    requires Rounded(v, m, e, ToNearestEven) && IsDouble(y, k, j)
    ensures Distance(v, Times(m as real, PowR(2, e - 53))) <= Distance(v, y)
  {
    hide Times, PowR, Nearest, Pow;
    var t :| RoundedAt(v, t, m, e, ToNearestEven);
    var q := LastPlace(t);
    if j >= q {
      PowRNat(2, j - q);
      TNat(k, Pow(2, j - q));
      Rescale(k as real, j - q, q, j);
      GridClosest(v, q, k * Pow(2, j - q));
    } else {
      BelowBinade(k, j, t);
      PowRNat(2, 52);
      PowRSum(52, t - 53, t - 1);
      GridClosest(v, q, Pow(2, 52));
    }
  }

  lemma {:induction false} BelowBinade(k: nat, j: int, t: int)
    requires k < Pow(2, 53) && j < t - 53
    ensures Times(k as real, PowR(2, j)) <= PowR(2, t - 1)
  {
    hide Times, PowR, Pow;
    PowRNat(2, 53);
    TMonotone(k as real, PowR(2, 53), PowR(2, j));
    PowRSum(53, j, 53 + j);
    PowRMonotone(2, 53 + j, t - 1);
  }

  // ----- recovering a double from a number near it -----

  /** w lies within half a last place of m * 2^(e-53); below a power of two, the
      last place is half as large. */
  ghost predicate Near(w: real, m: nat, e: int) {
    var x := Times(m as real, PowR(2, e - 53));
    if w >= x then w - x < PowR(2, e - 54)
    else if m > Pow(2, 52) then x - w < PowR(2, e - 54)
    else x - w <= PowR(2, e - 55)
  }

  /** m * 2^(e-53) is a double: below 2^-1022, a multiple of 2^-1074. */
  ghost predicate Representable(m: nat, e: int) {
    && Pow(2, 52) <= m < Pow(2, 53)
    && e >= MIN_EXPONENT - 52
    && (e < MIN_EXPONENT ==> m % Pow(2, MIN_EXPONENT - e) == 0)
  }

  /** The number of last places (for exponent t) in m * 2^(e-53). */
  lemma {:induction false} LastPlaces(m: nat, e: int, t: int) returns (n: nat)
    requires Representable(m, e) && e - 1 <= t <= e
    ensures Times(n as real, PowR(2, LastPlace(t))) == Times(m as real, PowR(2, e - 53))
    ensures t == e - 1 && t >= MIN_EXPONENT ==> n == 2 * m
  {
    hide Times, PowR, Pow;
    var q := LastPlace(t);
    if q <= e - 53 {
      n := m * Pow(2, e - 53 - q);
      PowNext(2, 0);
      TNat(m, Pow(2, e - 53 - q));
      PowRNat(2, e - 53 - q);
      Rescale(m as real, e - 53 - q, q, e - 53);
    } else {
      var d := Pow(2, MIN_EXPONENT - e);
      n := m / d;
      Euclid(m, d);
      TNat(n, d);
      PowRNat(2, MIN_EXPONENT - e);
      Rescale(n as real, MIN_EXPONENT - e, e - 53, q);
    }
  }

  /** A number near a double rounds to it. */
  lemma {:induction false} Recovered(w: real, m: nat, e: int)
    requires Representable(m, e) && Near(w, m, e)
    ensures Rounded(w, m, e, ToNearestEven)
  {
    hide Times, PowR, Nearest, Pow, Rounded;
    var t := NearBracket(w, m, e);
    var n := LastPlaces(m, e, t);
    NearPlaces(w, m, e, t, n);
    assert RoundedAt(w, t, m, e, ToNearestEven);
    RoundedIntro(w, t, m, e, ToNearestEven);
  }

  lemma {:induction false} RoundedIntro(v: real, t: int, m: nat, e: int, mode: RoundMode)
    requires RoundedAt(v, t, m, e, mode)
    ensures Rounded(v, m, e, mode)
  {
    hide RoundedAt;
  }

  /** w lies in the binade of the double, or just below it. */
  lemma {:induction false} NearBracket(w: real, m: nat, e: int) returns (t: int)
    requires Representable(m, e) && Near(w, m, e)
    ensures Bracket(w, t)
    ensures t == e || (t == e - 1 && m == Pow(2, 52) && w < Times(m as real, PowR(2, e - 53)))
  {
    hide Times, Pow, PowR;
    var x, u := Times(m as real, PowR(2, e - 53)), PowR(2, e - 53);
    PowRNat(2, 52);
    PowRNat(2, 53);
    PowRSum(52, e - 53, e - 1);
    PowRSum(53, e - 53, e);
    TMonotone(PowR(2, 52), m as real, u);
    TMonotone((m + 1) as real, PowR(2, 53), u);
    TMonotone((Pow(2, 52) + 1) as real, m as real, u);
    TDistribute(u, m as real, 1.0);
    TDistribute(u, Pow(2, 52) as real, 1.0);
    TUnit(u);
    Doubled(e - 53);
    Doubled(e - 54);
    if w >= PowR(2, e - 1) {
      t := e;
    } else {
      t := e - 1;
      Doubled(e - 1);
      PowRMonotone(2, e - 55, e - 2);
    }
  }

  /** Half a last place away, or exactly half at an even multiple. */
  lemma {:induction false} NearPlaces(w: real, m: nat, e: int, t: int, n: nat)
    requires Representable(m, e) && Near(w, m, e)
    requires t == e || (t == e - 1 && m == Pow(2, 52) && w < Times(m as real, PowR(2, e - 53)))
    requires Times(n as real, PowR(2, LastPlace(t))) == Times(m as real, PowR(2, e - 53))
    requires t == e - 1 && t >= MIN_EXPONENT ==> n == 2 * m
    ensures Nearest(Times(w, PowR(2, -LastPlace(t))), ToNearestEven) == n
  {
    hide Times, Nearest, Pow, PowR;
    var q := LastPlace(t);
    var u := PowR(2, q);
    var y := Times(w, PowR(2, -q));
    Rescale(w, -q, q, 0);
    PowRUnit(2);
    TUnit(w);
    TDistribute(u, y, n as real);
    TDistribute(u, n as real, y);
    var d := y - n as real;
    TMonotone(d + d, 1.0, u);
    TMonotone(-1.0, d + d, u);
    TMonotone(d + d, -1.0, u);
    TDistribute(u, d, d);
    TDistribute(u, 0.0, 1.0);
    TUnit(u);
    Doubled(q);
    Doubled(e - 53);
    Doubled(e - 54);
    assert Times(d, u) == w - Times(m as real, PowR(2, e - 53));
    if q >= e - 53 {
      PowRMonotone(2, e - 54, q - 1);
    }
    NearestTo(y, n);
  }
}
