/** The meaning of the integer roundings: powers with integer exponents over the
    reals, and rounding of a real number to an integer.  Products of reals are
    written Times, so that proofs can treat them abstractly. */
module DtoaReal {
  import opened DtoaPow
  import opened DtoaBits

  ghost function Times(a: real, b: real): real { a * b }

  ghost function Inverse(y: real): real
    requires y != 0.0
  {
    1.0 / y
  }

  lemma {:induction false} TComm(a: real, b: real)
    ensures Times(a, b) == Times(b, a)
  {}

  lemma {:induction false} TAssoc(a: real, b: real, c: real)
    ensures Times(a, Times(b, c)) == Times(Times(a, b), c)
  {}

  lemma {:induction false} TDistribute(d: real, x: real, y: real)
    ensures Times(x + y, d) == Times(x, d) + Times(y, d) && Times(d, x + y) == Times(d, x) + Times(d, y)
    ensures Times(x - y, d) == Times(x, d) - Times(y, d) && Times(d, x - y) == Times(d, x) - Times(d, y)
  {}

  lemma {:induction false} TMonotone(a: real, b: real, c: real)
    requires c > 0.0
    ensures a <= b <==> Times(a, c) <= Times(b, c)
    ensures a < b <==> Times(a, c) < Times(b, c)
  {}

  lemma {:induction false} TPositive(a: real, b: real)
    requires a > 0.0 && b > 0.0
    ensures Times(a, b) > 0.0
  {}

  lemma {:induction false} TUnit(a: real)
    ensures Times(1.0, a) == a == Times(a, 1.0) && Times(0.0, a) == 0.0 == Times(a, 0.0)
    ensures Times(2.0, a) == a + a
  {}

  lemma {:induction false} TCancel(a: real, b: real, y: real)
    requires y > 0.0 && Times(a, y) == Times(b, y)
    ensures a == b
  {}

  lemma {:induction false} TInterchange(a: real, b: real, x: real, y: real)
    ensures Times(Times(a, b), Times(x, y)) == Times(Times(a, x), Times(b, y))
  {}

  lemma {:induction false} TInverse(y: real)
    requires y > 0.0
    ensures Inverse(y) > 0.0 && Times(Inverse(y), y) == 1.0 == Times(y, Inverse(y))
  {}

  lemma {:induction false} TNat(a: int, b: int)
    ensures (a * b) as real == Times(a as real, b as real)
  {}

  // ----- powers -----

  /** b^k for any integer k. */
  ghost function PowR(b: nat, k: int): (r: real)
    requires b > 0
    ensures r > 0.0
  {
    if k >= 0 then Pow(b, k) as real else Inverse(Pow(b, -k) as real)
  }

  lemma {:induction false} PowRNat(b: nat, k: nat)
    requires b > 0
    ensures PowR(b, k) == Pow(b, k) as real
  {}

  lemma {:induction false} PowRNeg(b: nat, k: int)
    requires b > 0 && k <= 0
    ensures PowR(b, k) == Inverse(Pow(b, -k) as real)
  {
    PowNext(b, 0);
  }

  lemma {:induction false} PowRUnit(b: nat)
    requires b > 0
    ensures PowR(b, 0) == 1.0 && PowR(b, 1) == b as real
  {
    PowNext(b, 0);
  }

  lemma {:induction false} InverseStep(x: real, b: real)
    requires x > 0.0 && b > 0.0
    ensures Times(x, b) > 0.0 && Times(Inverse(Times(x, b)), b) == Inverse(x)
  {
    hide Times, Inverse;
    TPositive(x, b);
    var y := Inverse(Times(x, b));
    TInverse(Times(x, b));
    TComm(x, b);
    TAssoc(y, b, x);
    TInverse(x);
    TCancel(Times(y, b), Inverse(x), x);
  }

  lemma {:induction false} PowRNext(b: nat, k: int)
    requires b > 0
    ensures PowR(b, k + 1) == Times(PowR(b, k), b as real)
  {
    hide Times, Inverse, PowR, Pow;
    if k >= 0 {
      PowNext(b, k);
      PowRNat(b, k);
      PowRNat(b, k + 1);
      TNat(Pow(b, k), b);
    } else {
      var x := Pow(b, -k - 1);
      PowNext(b, -k - 1);
      PowRNeg(b, k);
      PowRNeg(b, k + 1);
      TNat(x, b);
      InverseStep(x as real, b as real);
    }
  }

  lemma {:induction false} AddUp(jk: real, j: real, k: real, jk1: real, k1: real, b: real)
    requires jk1 == Times(j, k1) && jk == Times(jk1, b) && k == Times(k1, b)
    ensures jk == Times(j, k)
  {
    hide Times;
    TAssoc(j, k1, b);
  }

  lemma {:induction false} AddDown(jk: real, j: real, k: real, jk1: real, k1: real, b: real)
    requires jk1 == Times(j, k1) && jk1 == Times(jk, b) && k1 == Times(k, b) && b > 0.0
    ensures jk == Times(j, k)
  {
    hide Times;
    TAssoc(j, k, b);
    TCancel(jk, Times(j, k), b);
  }

  lemma {:induction false} PowRAdd(b: nat, j: int, k: int)
    requires b > 0
    ensures PowR(b, j + k) == Times(PowR(b, j), PowR(b, k))
    decreases if k >= 0 then k else -k
  {
    hide PowR, Times;
    PowRUnit(b);
    if k > 0 {
      PowRAdd(b, j, k - 1);
      PowRNext(b, j + k - 1);
      PowRNext(b, k - 1);
      assert j + k - 1 + 1 == j + k && j + (k - 1) == j + k - 1;
      AddUp(PowR(b, j + k), PowR(b, j), PowR(b, k), PowR(b, j + k - 1), PowR(b, k - 1), b as real);
    } else if k < 0 {
      PowRAdd(b, j, k + 1);
      PowRNext(b, j + k);
      PowRNext(b, k);
      assert j + k + 1 == j + (k + 1);
      AddDown(PowR(b, j + k), PowR(b, j), PowR(b, k), PowR(b, j + k + 1), PowR(b, k + 1), b as real);
    } else {
      TUnit(PowR(b, j));
    }
  }

  lemma {:induction false} PowRInverse(b: nat, k: int)
    requires b > 0
    ensures Times(PowR(b, k), PowR(b, -k)) == 1.0
  {
    hide PowR, Times;
    PowRAdd(b, k, -k);
    PowRUnit(b);
  }

  lemma {:induction false} InverseProduct(ab: real, a: real, b: real, ab1: real, a1: real, b1: real)
    requires Times(ab, ab1) == 1.0 && Times(a, a1) == 1.0 && Times(b, b1) == 1.0
    requires ab1 == Times(a1, b1) && ab1 > 0.0
    ensures ab == Times(a, b)
  {
    hide Times;
    TInterchange(a, b, a1, b1);
    TUnit(1.0);
    TCancel(ab, Times(a, b), ab1);
  }

  lemma {:induction false} PowRMul(a: nat, b: nat, k: int)
    requires a > 0 && b > 0
    ensures a * b > 0 && PowR(a * b, k) == Times(PowR(a, k), PowR(b, k))
    decreases if k < 0 then 1 else 0
  {
    hide Times, PowR, Pow;
    MulAtLeast(a, b);
    if k >= 0 {
      PowMul(a, b, k);
      PowRNat(a * b, k);
      PowRNat(a, k);
      PowRNat(b, k);
      TNat(Pow(a, k), Pow(b, k));
    } else {
      PowRMul(a, b, -k);
      PowRInverse(a, k);
      PowRInverse(b, k);
      PowRInverse(a * b, k);
      InverseProduct(PowR(a * b, k), PowR(a, k), PowR(b, k), PowR(a * b, -k), PowR(a, -k), PowR(b, -k));
    }
  }

  /** (b^j)^k = b^(jk). */
  lemma {:induction false} PowRPow(b: nat, j: nat, k: int)
    requires b > 0
    ensures PowR(Pow(b, j), k) == PowR(b, j * k)
  {
    if k >= 0 {
      PowPow(b, j, k);
      assert j * k >= 0;
    } else {
      PowPow(b, j, -k);
      PowRNeg(Pow(b, j), k);
      assert j * k == -(j * -k) && j * k <= 0;
      PowRNeg(b, j * k);
    }
  }

  lemma {:induction false} PowRMonotone(b: nat, j: int, k: int)
    requires b > 0 && j <= k
    ensures PowR(b, j) <= PowR(b, k)
  {
    hide Times, PowR;
    PowRAdd(b, k - j, j);
    PowRNat(b, k - j);
    TMonotone(1.0, PowR(b, k - j), PowR(b, j));
    TUnit(PowR(b, j));
    assert k - j + j == k;
  }

  lemma {:induction false} PowRStrict(b: nat, j: int, k: int)
    requires b > 1 && j < k
    ensures PowR(b, j) < PowR(b, k)
  {
    hide Times, PowR;
    PowRMonotone(b, j + 1, k);
    PowRNext(b, j);
    TMonotone(1.0, b as real, PowR(b, j));
    TComm(PowR(b, j), b as real);
    TUnit(PowR(b, j));
  }

  /** Each step of the exponent doubles. */
  lemma {:induction false} Doubled(k: int)
    ensures PowR(2, k) == PowR(2, k - 1) + PowR(2, k - 1)
  {
    hide Times, PowR;
    PowRNext(2, k - 1);
    TComm(PowR(2, k - 1), 2.0);
    TUnit(PowR(2, k - 1));
  }

  // ----- rounding to an integer -----

  ghost function Nearest(x: real, mode: RoundMode): int {
    var f := x.Floor;
    var d := x - f as real;
    match mode
    case TowardZero => f
    case ToNearestAway => if d >= 0.5 then f + 1 else f
    case ToNearestEven => if d > 0.5 || (d == 0.5 && f % 2 == 1) then f + 1 else f
  }

  ghost function Distance(x: real, y: real): real {
    if x <= y then y - x else x - y
  }

  /** No integer is closer, and a tie goes to the even one. */
  lemma {:induction false} NearestClosest(x: real, i: int)
    ensures Distance(x, Nearest(x, ToNearestEven) as real) <= 0.5
    ensures Distance(x, Nearest(x, ToNearestEven) as real) <= Distance(x, i as real)
    ensures Distance(x, Nearest(x, ToNearestEven) as real) == 0.5 ==> Nearest(x, ToNearestEven) % 2 == 0
  {
    var f := x.Floor;
    if i <= f {
      assert i as real <= f as real;
    } else {
      assert i as real >= (f + 1) as real;
    }
  }

  /** Within half a unit of an integer, strictly, is rounding to it; exactly half
      a unit away it must be even. */
  lemma {:induction false} NearestTo(x: real, i: int)
    requires -0.5 <= x - i as real <= 0.5
    requires x - i as real == 0.5 || x - i as real == -0.5 ==> i % 2 == 0
    ensures Nearest(x, ToNearestEven) == i
  {}

  lemma {:induction false} NearestMonotone(x: real, y: real, mode: RoundMode)
    requires x <= y
    ensures Nearest(x, mode) <= Nearest(y, mode)
  {}

  lemma {:induction false} FractionBounds(d: real, rho: real, w: real)
    requires w > 0.0 && Times(d, w) == rho && 0.0 <= rho < w
    ensures 0.0 <= d < 1.0
    ensures 2.0 * d > 1.0 <==> 2.0 * rho > w
    ensures 2.0 * d == 1.0 <==> 2.0 * rho == w
  {
    hide Times;
    TMonotone(0.0, d, w);
    TMonotone(d, 1.0, w);
    TMonotone(1.0, d + d, w);
    TMonotone(d + d, 1.0, w);
    TDistribute(w, d, d);
    TUnit(w);
  }

  /** x = q + rho / w decides by comparing 2 rho with w. */
  lemma {:induction false} NearestAt(x: real, q: int, rho: real, w: real, mode: RoundMode)
    requires w > 0.0 && Times(x, w) == Times(q as real, w) + rho && 0.0 <= rho < w
    ensures x.Floor == q
    ensures Nearest(x, mode)
            == q + (match mode
                    case TowardZero => 0
                    case ToNearestAway => if 2.0 * rho >= w then 1 else 0
                    case ToNearestEven => if 2.0 * rho > w || (2.0 * rho == w && q % 2 == 1) then 1 else 0)
  {
    hide Times;
    TDistribute(w, x, q as real);
    FractionBounds(x - q as real, rho, w);
  }

  /** Integer rounding of a quotient is rounding of the real quotient. */
  lemma {:induction false} RoundQuotIsNearest(n: nat, d: nat, x: real, mode: RoundMode)
    requires d > 0 && Times(x, d as real) == n as real
    ensures RoundQuot(n, d, mode) == Nearest(x, mode)
  {
    hide Times, Nearest;
    var q, r := n / d, n % d;
    Euclid(n, d);
    TNat(q, d);
    NearestAt(x, q, r as real, d as real, mode);
  }

  lemma {:induction false} NearestInt(n: int, mode: RoundMode)
    ensures Nearest(n as real, mode) == n
  {}

  /** Integer rounding of a shift is rounding of the scaled real. */
  lemma {:induction false} RoundShiftIsNearest(n: nat, s: int, mode: RoundMode)
    ensures RoundShift(n, s, mode) == Nearest(Times(n as real, PowR(2, -s)), mode)
  {
    hide PowR, RoundQuot, Nearest, Pow, Times;
    if s <= 0 {
      PowRNat(2, -s);
      TNat(n, Pow(2, -s));
      NearestInt(n * Pow(2, -s), mode);
    } else {
      PowRInverse(2, s);
      PowRNat(2, s);
      TComm(PowR(2, s), PowR(2, -s));
      TAssoc(n as real, PowR(2, -s), PowR(2, s));
      TUnit(n as real);
      RoundQuotIsNearest(n, Pow(2, s), Times(n as real, PowR(2, -s)), mode);
    }
  }
}
