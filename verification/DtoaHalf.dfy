/** Doubles in order: the bits of the nearest double tell between which halfway
    points a number lies. */
module DtoaHalf {
  import opened DtoaPow
  import opened DtoaBits
  import opened DtoaReal
  import opened DtoaRound
  import opened DtoaTables
  import opened DtoaScale
  import opened DtoaSearch
  import opened DtoaLog
  import opened Dtoa

  // ----- where rounding reaches infinity and zero -----

  /** Halfway between the largest double and 2^1024. */
  ghost function OverflowLimit(): real { PowR(2, 1024) - PowR(2, 970) }

  /** The scaled number that is rounded, and the range it lies in. */
  lemma {:induction false} RoundedParts(v: real, t: int, m: nat, e: int) returns (y: real, n: int)
    requires RoundedAt(v, t, m, e, ToNearestEven)
    ensures var q := LastPlace(t);
            && Bracket(v, t) && y == Times(v, PowR(2, -q)) && Times(y, PowR(2, q)) == v
            && PowR(2, t - 1 - q) <= y < PowR(2, t - q)
            && n == Nearest(y, ToNearestEven) && Times(m as real, PowR(2, e - 53)) == Times(n as real, PowR(2, q))
  {
    hide Times, PowR, Nearest, Significand;
    var q := LastPlace(t);
    y := Times(v, PowR(2, -q));
    n := Nearest(y, ToNearestEven);
    ScaledBracket(v, t - 1, -q);
    assert t - 1 + -q == t - 1 - q && t - 1 + 1 + -q == t - q && t - 1 + 1 == t;
    Rescale(v, -q, q, 0);
    PowRUnit(2);
    TUnit(v);
  }

  /** Below a power of two, rounding does not pass it. */
  lemma {:induction false} RoundedUpTo(v: real, t: int, m: nat, e: int, k: int)
    requires RoundedAt(v, t, m, e, ToNearestEven) && t <= k && k >= -1073
    ensures Times(m as real, PowR(2, e - 53)) <= PowR(2, k)
  {
    hide Times, PowR, Nearest, RoundedAt, Pow;
    var y, n := RoundedParts(v, t, m, e);
    var q := LastPlace(t);
    PowRMonotone(2, t - q, k - q);
    NearestMonotone(y, PowR(2, k - q), ToNearestEven);
    PowRNat(2, k - q);
    NearestInt(Pow(2, k - q), ToNearestEven);
    TMonotone(n as real, PowR(2, k - q), PowR(2, q));
    PowRSum(k - q, q, k);
  }

  /** In the last binade. */
  lemma {:induction false} LastBinade(v: real, m: nat, e: int)
    requires RoundedAt(v, 1024, m, e, ToNearestEven)
    ensures Times(m as real, PowR(2, e - 53)) >= PowR(2, 1024) <==> v >= OverflowLimit()
  {
    Pow52();
    hide Times, PowR, Nearest, RoundedAt, Pow;
    var y, n := RoundedParts(v, 1024, m, e);
    var u, half := PowR(2, 971), Pow(2, 53) as real - 0.5;
    PowRNat(2, 53);
    PowRSum(53, 971, 1024);
    Doubled(971);
    TDistribute(u, Pow(2, 53) as real, 0.5);
    TDistribute(u, 0.5, 0.5);
    TUnit(u);
    assert Times(half, u) == OverflowLimit();
    TMonotone(half, y, u);
    AtHalf(y, Pow(2, 53));
    TMonotone(Pow(2, 53) as real, n as real, u);
    assert n >= Pow(2, 53) <==> n as real >= Pow(2, 53) as real;
  }

  /** Up to half below an even number, rounding gives it. */
  lemma {:induction false} AtHalf(y: real, i: int)
    requires y < i as real && i % 2 == 0
    ensures Nearest(y, ToNearestEven) >= i <==> y >= i as real - 0.5
  {
    if y >= i as real - 0.5 {
      NearestTo(y, i);
    }
  }

  /** A significand with exponent e, against 2^1024. */
  lemma {:induction false} LargeSignificand(m: nat, e: int)
    requires Significand(m)
    ensures m > 0 && e > 1024 <==> Times(m as real, PowR(2, e - 53)) >= PowR(2, 1024)
  {
    hide Times, PowR, Pow;
    Pow52();
    ZeroProduct(m, PowR(2, e - 53));
    if m > 0 {
      SignificandRange(m, e);
      if e > 1024 {
        PowRMonotone(2, 1024, e - 1);
      } else {
        PowRMonotone(2, e, 1024);
      }
    }
  }

  lemma {:induction false} RoundedOverflow(v: real, t: int, m: nat, e: int)
    requires RoundedAt(v, t, m, e, ToNearestEven)
    ensures m > 0 && e > 1024 <==> v >= OverflowLimit()
  {
    hide Times, PowR, Nearest, Pow;
    LargeSignificand(m, e);
    PowRMonotone(2, 970, 1023);
    Doubled(1024);
    if t > 1024 {
      RoundedAbove(v, t, LastPlace(t));
      PowRMonotone(2, 1024, t - 1);
    } else if t == 1024 {
      LastBinade(v, m, e);
    } else {
      RoundedUpTo(v, t, m, e, 1023);
      PowRMonotone(2, t, 1023);
      PowRStrict(2, 1023, 1024);
    }
  }

  lemma {:induction false} RoundedUnderflow(v: real, t: int, m: nat, e: int)
    requires RoundedAt(v, t, m, e, ToNearestEven)
    ensures m == 0 <==> v <= PowR(2, -1075)
    ensures m > 0 ==> e >= -1073
  {
    hide Times, PowR, Nearest, Pow, RoundedAt;
    var y, n := RoundedParts(v, t, m, e);
    var q := LastPlace(t);
    RoundedRange(y, t - q, ToNearestEven);
    assert n >= 0;
    ZeroProduct(m, PowR(2, e - 53));
    ZeroProduct(n, PowR(2, q));
    NoPlaces(v, t, y, n, q);
    if m > 0 {
      SmallestDouble(v, t, m, e, n, q);
    }
  }

  lemma {:induction false} SmallestDouble(v: real, t: int, m: nat, e: int, n: int, q: int)
    requires RoundedAt(v, t, m, e, ToNearestEven) && m > 0 && n > 0 && q >= -1074
    requires Times(m as real, PowR(2, e - 53)) == Times(n as real, PowR(2, q))
    ensures e >= -1073
  {
    hide Times, PowR, Nearest, Pow;
    Pow52();
    SignificandRange(m, e);
    TMonotone(1.0, n as real, PowR(2, q));
    TUnit(PowR(2, q));
    PowRMonotone(2, -1074, q);
    if e < -1073 {
      PowRMonotone(2, e, -1074);
    }
  }

  /** Nothing is left exactly up to half of the smallest double. */
  lemma {:induction false} NoPlaces(v: real, t: int, y: real, n: int, q: int)
    requires Bracket(v, t) && q == LastPlace(t) && y == Times(v, PowR(2, -q)) && n == Nearest(y, ToNearestEven)
    requires PowR(2, t - 1 - q) <= y < PowR(2, t - q)
    ensures n == 0 <==> v <= PowR(2, -1075)
  {
    RoundedRange(y, t - q, ToNearestEven);
    hide Times, PowR, Pow;
    if t > q {
      PowMonotone(2, 0, t - q - 1);
      PowNext(2, 0);
      PowRStrict(2, -1075, t - 1);
    } else {
      PowRMonotone(2, t - 1, -1075);
      TMonotone(v, PowR(2, -1075), PowR(2, 1074));
      PowRSum(-1075, 1074, -1);
      PowRUnit(2);
      Doubled(0);
      PowRMonotone(2, t - q, 0);
    }
  }

  lemma {:induction false} PackKinds(m: nat, e: int)
    requires Significand(m) && (m > 0 ==> e >= -1073)
    ensures Pack(m, e) == INFINITY <==> m > 0 && e > 1024
    ensures Pack(m, e) == 0 <==> m == 0
  {
    Pow52();
    hide Pow, Quo;
    if m > 0 && e < -1021 {
      var d := Pow(2, -e - 1021);
      PowMonotone(2, -e - 1021, 52);
      QuoRemOf(m, d);
      PowMonotone(2, 0, -e - 1021);
      PowNext(2, 0);
      var x := Quo(m, d);
      MulAtLeast(d, x);
      assert x <= m;
      assert x > 0;
    }
  }

  /** The doubles that stand for overflow and underflow are read exactly beyond
      the halfway points. */
  lemma {:induction false} ReadsThresholds(v: real, bits: nat)
    requires ReadsAs(v, bits)
    ensures bits == INFINITY <==> v >= OverflowLimit()
    ensures bits == 0 <==> v <= PowR(2, -1075)
  {
    hide PowR, Rounded, Pack;
    PowRStrict(2, -1075, 970);
    PowRStrict(2, 970, 1023);
    Doubled(1024);
    if m: nat, e: int :| Rounded(v, m, e, ToNearestEven) && bits == Pack(m, e) {
      var t := RoundedBinade(v, m, e);
      RoundedOverflow(v, t, m, e);
      RoundedUnderflow(v, t, m, e);
      PackKinds(m, e);
    }
  }

  lemma {:induction false} RoundedBinade(v: real, m: nat, e: int) returns (t: int)
    requires Rounded(v, m, e, ToNearestEven)
    ensures RoundedAt(v, t, m, e, ToNearestEven) && Significand(m)
  {
    hide PowR, Pow, Times, Nearest;
    t :| RoundedAt(v, t, m, e, ToNearestEven);
  }

  // ----- the doubles by their bits -----

  /** The double with bits b is GridCount(b) * 2^GridExp(b); infinity stands for 2^1024. */
  function GridExp(b: nat): int { if b < TWO52 then -1074 else b / TWO52 - 1075 }

  function GridCount(b: nat): nat { if b < TWO52 then b else TWO52 + b % TWO52 }

  ghost function DoubleAt(b: nat): real { Times(GridCount(b) as real, PowR(2, GridExp(b))) }

  /** Halfway between the doubles b and b + 1. */
  ghost function Half(b: nat): real { Times((2 * GridCount(b) + 1) as real, PowR(2, GridExp(b) - 1)) }

  /** v goes to b or below, rather than to b + 1 or above: a tie goes to the even one. */
  ghost predicate RoundsDown(v: real, b: nat) { v < Half(b) || (v == Half(b) && b % 2 == 0) }

  lemma {:induction false} GridFacts(b: nat)
    ensures GridCount(b) < 2 * TWO52 && GridExp(b) >= -1074 && b == (GridExp(b) + 1074) * TWO52 + GridCount(b)
    ensures GridCount(b) % 2 == b % 2
    ensures b < INFINITY ==> GridExp(b) <= 971
    ensures b >= TWO52 ==> GridCount(b) >= TWO52
    ensures b < TWO52 ==> GridExp(b) == -1074
  {}

  lemma {:induction false} GridNext(b: nat)
    ensures (GridExp(b + 1) == GridExp(b) && GridCount(b + 1) == GridCount(b) + 1)
            || (GridExp(b + 1) == GridExp(b) + 1 && GridCount(b) + 1 == 2 * TWO52 && GridCount(b + 1) == TWO52)
  {
    if b >= TWO52 {
      var q, r := b / TWO52, b % TWO52;
      assert b == q * TWO52 + r;
      if r + 1 < TWO52 {
        assert b + 1 == q * TWO52 + (r + 1);
        assert (b + 1) / TWO52 == q && (b + 1) % TWO52 == r + 1;
      } else {
        assert b + 1 == (q + 1) * TWO52;
        assert (b + 1) / TWO52 == q + 1 && (b + 1) % TWO52 == 0;
      }
    }
  }

  /** The next double is one place up, and the halfway point half a place. */
  lemma {:induction false} NextDouble(b: nat)
    ensures DoubleAt(b + 1) == DoubleAt(b) + PowR(2, GridExp(b))
    ensures Half(b) == DoubleAt(b) + PowR(2, GridExp(b) - 1)
    ensures Half(b) == DoubleAt(b + 1) - PowR(2, GridExp(b) - 1)
  {
    hide PowR, Times, GridExp, GridCount;
    GridNext(b);
    var k, j := GridCount(b), GridExp(b);
    var u := PowR(2, j);
    TDistribute(u, k as real, 1.0);
    TUnit(u);
    Doubled(j);
    TDistribute(PowR(2, j - 1), k as real, k as real);
    TDistribute(PowR(2, j - 1), (k + k) as real, 1.0);
    TUnit(PowR(2, j - 1));
    TDistribute(k as real, PowR(2, j - 1), PowR(2, j - 1));
    assert (2 * k + 1) as real == (k + k) as real + 1.0 && (k + k) as real == k as real + k as real;
    if GridExp(b + 1) == j + 1 {
      Doubled(j + 1);
      TDistribute(TWO52 as real, u, u);
      TDistribute(u, TWO52 as real, TWO52 as real);
    }
  }

  lemma {:induction false} DoublesIncrease(a: nat, b: nat)
    requires a < b
    ensures DoubleAt(a) < DoubleAt(b)
    decreases b - a
  {
    hide DoubleAt, PowR, GridExp;
    NextDouble(a);
    if a + 1 < b {
      DoublesIncrease(a + 1, b);
    }
  }

  /** Infinity stands where the range ends. */
  lemma {:induction false} InfinityAt()
    ensures DoubleAt(INFINITY) == PowR(2, 1024)
  {
    Pow52();
    hide PowR, Times, Pow;
    assert GridExp(INFINITY) == 972 && GridCount(INFINITY) == TWO52;
    PowRNat(2, 52);
    PowRSum(52, 972, 1024);
  }

  lemma {:induction false} IsDoubleAt(b: nat)
    ensures IsDouble(DoubleAt(b), GridCount(b), GridExp(b))
  {
    Pow52();
    GridFacts(b);
    hide PowR, Times, Pow, GridExp, GridCount;
  }

  // ----- the bits of a rounded number -----

  /** The bits count places: n of them above the binade of the last place q. */
  lemma {:induction false} PackPlaces(v: real, t: int, m: nat, e: int, n: int)
    requires RoundedAt(v, t, m, e, ToNearestEven) && t <= 1024
    requires n == Nearest(Times(v, PowR(2, -LastPlace(t))), ToNearestEven)
    ensures n >= 0 && Pack(m, e) == (LastPlace(t) + 1074) * TWO52 + n && n <= 2 * TWO52
    ensures Times(n as real, PowR(2, LastPlace(t))) == Times(m as real, PowR(2, e - 53))
    ensures LastPlace(t) > -1074 ==> n >= TWO52
  {
    Pow52();
    hide PowR, Times, Nearest, Pow, RoundedAt, Pack;
    var q := LastPlace(t);
    var y, n0 := RoundedParts(v, t, m, e);
    RoundedRange(y, t - q, ToNearestEven);
    PlacesRange(t, n);
    RoundedUnderflow(v, t, m, e);
    SignificandOf(v, t, m, e);
    PackCount(m, e, n, q);
  }

  lemma {:induction false} SignificandOf(v: real, t: int, m: nat, e: int)
    requires RoundedAt(v, t, m, e, ToNearestEven)
    ensures m == 0 || TWO52 <= m < 2 * TWO52
  {
    Pow52();
    hide PowR, Times, Nearest, Pow;
  }

  lemma {:induction false} PlacesRange(t: int, n: int)
    requires var p := t - LastPlace(t);
             (p >= 1 ==> Pow(2, p - 1) <= n <= Pow(2, p)) && (p == 0 ==> 0 <= n <= 1) && (p < 0 ==> n == 0)
    ensures 0 <= n <= 2 * TWO52
    ensures LastPlace(t) > -1074 ==> n >= TWO52
  {
    Pow52();
    hide Pow;
    var p := t - LastPlace(t);
    if p >= 1 {
      PowMonotone(2, p, 53);
    }
  }

  lemma {:induction false} PackCount(m: nat, e: int, n: nat, q: int)
    requires m == 0 || (TWO52 <= m < 2 * TWO52 && e >= -1073)
    requires -1074 <= q <= 971 && n <= 2 * TWO52 && (q > -1074 ==> n >= TWO52)
    requires Times(n as real, PowR(2, q)) == Times(m as real, PowR(2, e - 53))
    ensures Pack(m, e) == (q + 1074) * TWO52 + n
  {
    hide PowR, Times, Pow, Quo;
    ZeroProduct(m, PowR(2, e - 53));
    ZeroProduct(n, PowR(2, q));
    if n == 0 {
    } else if n == 2 * TWO52 {
      TopCount(m, e, q);
    } else if n >= TWO52 {
      assert q + 53 - 53 == q;
      NormalUnique(n, q + 53, m, e);
    } else {
      SubnormalCount(m, e, n);
    }
  }

  lemma {:induction false} TopCount(m: nat, e: int, q: int)
    requires TWO52 <= m < 2 * TWO52
    requires Times((2 * TWO52) as real, PowR(2, q)) == Times(m as real, PowR(2, e - 53))
    ensures m == TWO52 && e == q + 54
  {
    hide PowR, Times;
    Doubled(q + 1);
    TDistribute(PowR(2, q), TWO52 as real, TWO52 as real);
    TDistribute(TWO52 as real, PowR(2, q), PowR(2, q));
    assert q + 54 - 53 == q + 1;
    NormalUnique(TWO52, q + 54, m, e);
  }

  lemma {:induction false} SubnormalCount(m: nat, e: int, n: nat)
    requires TWO52 <= m < 2 * TWO52 && e >= -1073 && 0 < n < TWO52
    requires Times(n as real, PowR(2, -1074)) == Times(m as real, PowR(2, e - 53))
    ensures e < -1021 && Quo(m, Pow(2, -e - 1021)) == n
  {
    Pow52();
    hide PowR, Times, Pow, Quo;
    PowRNat(2, 52);
    PowRSum(52, -1074, -1022);
    TMonotone(n as real, PowR(2, 52), PowR(2, -1074));
    SignificandRange(m, e);
    if e >= -1021 {
      PowRMonotone(2, -1022, e - 1);
    }
    var d := -e - 1021;
    PowRNat(2, d);
    TNat(n, Pow(2, d));
    Rescale(n as real, d, e - 53, -1074);
    TCancel((n * Pow(2, d)) as real, m as real, PowR(2, e - 53));
    QuoRemUnique(m, Pow(2, d), n, 0);
  }

  /** The double with these bits has this many places. */
  lemma {:induction false} PlacesAt(n: nat, q: int)
    requires q >= -1074 && n <= 2 * TWO52 && (q > -1074 ==> n >= TWO52)
    ensures DoubleAt((q + 1074) * TWO52 + n) == Times(n as real, PowR(2, q))
  {
    hide PowR, Times;
    var b := (q + 1074) * TWO52 + n;
    if n == 2 * TWO52 {
      assert b == (q + 1076) * TWO52;
      assert b / TWO52 == q + 1076 && b % TWO52 == 0;
      Doubled(q + 1);
      TDistribute(PowR(2, q), TWO52 as real, TWO52 as real);
      TDistribute(TWO52 as real, PowR(2, q), PowR(2, q));
    } else if n >= TWO52 {
      assert b == (q + 1075) * TWO52 + (n - TWO52);
      assert b / TWO52 == q + 1075 && b % TWO52 == n - TWO52;
    }
  }

  // ----- the nearest double by the halfway points -----

  /** In a cell between two doubles, the places are those of the lower one. */
  lemma {:induction false} CellPlace(v: real, t: int, b: nat)
    requires Bracket(v, t) && b < INFINITY && DoubleAt(b) <= v < DoubleAt(b + 1)
    ensures LastPlace(t) == GridExp(b) && t <= 1024
  {
    Pow52();
    GridFacts(b);
    NextDouble(b);
    hide PowR, Times, Pow, GridExp, GridCount;
    var k, j := GridCount(b), GridExp(b);
    PowRNat(2, 52);
    PowRNat(2, 53);
    PowRSum(52, j, j + 52);
    PowRSum(53, j, j + 53);
    TDistribute(PowR(2, j), k as real, 1.0);
    TUnit(PowR(2, j));
    TMonotone((k + 1) as real, PowR(2, 53), PowR(2, j));
    TMonotone(PowR(2, 52), k as real, PowR(2, j));
    assert v < PowR(2, j + 53);
    if t - 1 >= j + 53 {
      PowRMonotone(2, j + 53, t - 1);
    }
    if b >= TWO52 && t <= j + 52 {
      PowRMonotone(2, t, j + 52);
    }
  }

  /** A tie: the even one of the two doubles. */
  lemma {:induction false} TieBits(v: real, t: int, m: nat, e: int, b: nat)
    requires RoundedAt(v, t, m, e, ToNearestEven) && b < INFINITY && v == Half(b)
    ensures Pack(m, e) == if b % 2 == 0 then b else b + 1
  {
    hide PowR, Times, Nearest, Pow, Pack, RoundedAt;
    NextDouble(b);
    BracketOf(v, t, m, e);
    CellPlace(v, t, b);
    GridFacts(b);
    hide GridExp, GridCount, Half, DoubleAt;
    var k, q := GridCount(b), GridExp(b);
    var n := Nearest(Times(v, PowR(2, -q)), ToNearestEven);
    PackPlaces(v, t, m, e, n);
    HalfPlaces(b);
    var y := Times(v, PowR(2, -q));
    assert y == k as real + 0.5;
    NearestTo(y, if k % 2 == 0 then k else k + 1);
  }

  lemma {:induction false} BracketOf(v: real, t: int, m: nat, e: int)
    requires RoundedAt(v, t, m, e, ToNearestEven)
    ensures Bracket(v, t)
  {
    hide PowR, Times, Nearest, Pow;
  }

  lemma {:induction false} HalfPlaces(b: nat)
    ensures Times(Half(b), PowR(2, 0 - GridExp(b))) == GridCount(b) as real + 0.5
  {
    hide PowR, Times, GridExp, GridCount;
    var k, j := GridCount(b), GridExp(b);
    Rescale((2 * k + 1) as real, j - 1, 0 - j, -1);
    PowRUnit(2);
    Doubled(0);
    var h := PowR(2, -1);
    TDistribute(h, (k + k) as real, 1.0);
    TDistribute(h, k as real, k as real);
    TDistribute(k as real, h, h);
    TUnit(k as real);
    TUnit(h);
    assert (2 * k + 1) as real == (k + k) as real + 1.0 && (k + k) as real == k as real + k as real;
  }

  /** A rounded number lies on the side of each halfway point that its bits tell. */
  lemma {:induction false} RoundedOrder(v: real, t: int, m: nat, e: int, b: nat)
    requires RoundedAt(v, t, m, e, ToNearestEven) && t <= 1024 && b < INFINITY
    ensures RoundsDown(v, b) <==> Pack(m, e) <= b
  {
    hide PowR, Times, Nearest, Pow, Pack, RoundedAt, Half, DoubleAt, GridExp, GridCount;
    var bits := Pack(m, e);
    var w := DoubleAt(bits);
    RoundedIs(v, t, m, e);
    NextDouble(b);
    RoundedIntro(v, t, m, e, ToNearestEven);
    IsDoubleAt(b);
    IsDoubleAt(b + 1);
    CorrectlyRounded(v, m, e, DoubleAt(b), GridCount(b), GridExp(b));
    CorrectlyRounded(v, m, e, DoubleAt(b + 1), GridCount(b + 1), GridExp(b + 1));
    if v == Half(b) {
      TieBits(v, t, m, e, b);
    } else if bits <= b {
      DoublesUpTo(bits, b);
    } else {
      DoublesUpTo(b + 1, bits);
    }
  }

  lemma {:induction false} RoundedIs(v: real, t: int, m: nat, e: int)
    requires RoundedAt(v, t, m, e, ToNearestEven) && t <= 1024
    ensures DoubleAt(Pack(m, e)) == Times(m as real, PowR(2, e - 53))
  {
    hide PowR, Times, Nearest, Pow, Pack, RoundedAt, DoubleAt;
    var q := LastPlace(t);
    var n := Nearest(Times(v, PowR(2, -q)), ToNearestEven);
    PackPlaces(v, t, m, e, n);
    PlacesAt(n, q);
  }

  lemma {:induction false} DoublesUpTo(a: nat, b: nat)
    requires a <= b
    ensures DoubleAt(a) <= DoubleAt(b)
  {
    hide DoubleAt;
    if a < b {
      DoublesIncrease(a, b);
    }
  }

  /** The bits of the nearest double tell on which side of each halfway point v lies. */
  lemma {:induction false} ReadsOrder(v: real, bits: nat, b: nat)
    requires ReadsAs(v, bits) && b < INFINITY
    ensures RoundsDown(v, b) <==> bits <= b
  {
    hide PowR, Rounded, Pack, Half, DoubleAt;
    ReadsThresholds(v, bits);
    EndPoints();
    LargestHalf(b);
    if v >= PowR(2, 1024) {
    } else if v < PowR(2, -1075) {
    } else {
      var m: nat, e: int :| Rounded(v, m, e, ToNearestEven) && bits == Pack(m, e);
      var t := RoundedBinade(v, m, e);
      BracketOf(v, t, m, e);
      if t > 1024 {
        PowRMonotone(2, 1024, t - 1);
      }
      RoundedOrder(v, t, m, e, b);
    }
  }

  lemma {:induction false} EndPoints()
    ensures PowR(2, 1024) - PowR(2, 970) == OverflowLimit()
    ensures PowR(2, -1075) < PowR(2, 970) < PowR(2, 1024)
  {
    hide PowR;
    PowRStrict(2, -1075, 970);
    PowRStrict(2, 970, 1024);
  }

  /** All halfway points lie between half the smallest double and the overflow limit. */
  lemma {:induction false} LargestHalf(b: nat)
    requires b < INFINITY
    ensures PowR(2, -1075) <= Half(b) < PowR(2, 1024)
  {
    hide PowR, Times, DoubleAt, Half;
    NextDouble(b);
    DoublesUpTo(b + 1, INFINITY);
    InfinityAt();
    GridFacts(b);
    PowRMonotone(2, -1075, GridExp(b) - 1);
    DoublesUpTo(0, b);
    ZeroAt();
  }

  lemma {:induction false} ZeroAt()
    ensures DoubleAt(0) == 0.0
  {
    hide PowR, Times;
    TUnit(PowR(2, -1074));
  }

  // ----- every number has a nearest double -----

  lemma {:induction false} BracketExists(v: real, lo: int, hi: int) returns (t: int)
    requires PowR(2, lo) <= v < PowR(2, hi)
    ensures Bracket(v, t)
    decreases hi - lo
  {
    hide PowR;
    if hi <= lo {
      PowRMonotone(2, hi, lo);
    }
    if v < PowR(2, lo + 1) {
      t := lo + 1;
    } else {
      t := BracketExists(v, lo + 1, hi);
    }
  }

  lemma {:induction false} RoundingExists(v: real, t: int) returns (m: nat, e: int)
    requires Bracket(v, t) && t >= -1074
    ensures RoundedAt(v, t, m, e, ToNearestEven)
  {
    Pow52();
    hide PowR, Times, Nearest, Pow;
    var q := LastPlace(t);
    var p, y := t - q, Times(v, PowR(2, -q));
    ScaledBracket(v, t - 1, -q);
    assert t - 1 + -q == p - 1 && t - 1 + 1 + -q == p && t - 1 + 1 == t;
    RoundedRange(y, p, ToNearestEven);
    var n := Nearest(y, ToNearestEven);
    PowNext(2, 0);
    if n == Pow(2, p) {
      m, e := Pow(2, 52), t + 1;
      Overflowed(p, t);
    } else {
      m, e := n * Pow(2, 53 - p), t;
      Renormalized(n, p, t);
    }
    assert t - p == q;
  }

  lemma {:induction false} ReadsSome(v: real, lo: int, hi: int) returns (bits: nat)
    requires PowR(2, lo) <= v < PowR(2, hi)
    ensures ReadsAs(v, bits)
  {
    hide PowR, Rounded, Pack, RoundedAt;
    if v >= PowR(2, 1024) {
      bits := INFINITY;
    } else if v < PowR(2, -1075) {
      bits := 0;
    } else {
      var t := BracketExists(v, lo, hi);
      if t < -1074 {
        PowRMonotone(2, t, -1075);
      }
      var m, e := RoundingExists(v, t);
      RoundedIntro(v, t, m, e, ToNearestEven);
      bits := Pack(m, e);
    }
  }

  /** The nearest double is the one between whose halfway points v lies. */
  lemma {:induction false} ReadsBetween(v: real, bits: nat, lo: int, hi: int)
    requires PowR(2, lo) <= v < PowR(2, hi)
    ensures ReadsAs(v, bits) <==>
              && bits <= INFINITY && (bits > 0 ==> !RoundsDown(v, bits - 1))
              && (bits < INFINITY ==> RoundsDown(v, bits))
  {
    hide PowR, ReadsAs, RoundsDown, OverflowLimit;
    if ReadsAs(v, bits) {
      ReadsBounded(v, bits);
      if bits > 0 {
        ReadsOrder(v, bits, bits - 1);
      }
      if bits < INFINITY {
        ReadsOrder(v, bits, bits);
      }
    }
    if bits <= INFINITY && (bits > 0 ==> !RoundsDown(v, bits - 1)) && (bits < INFINITY ==> RoundsDown(v, bits)) {
      var c := ReadsSome(v, lo, hi);
      ReadsBounded(v, c);
      if bits > 0 {
        ReadsOrder(v, c, bits - 1);
      }
      if bits < INFINITY {
        ReadsOrder(v, c, bits);
      }
      assert c == bits;
    }
  }

  lemma {:induction false} ReadsBounded(v: real, bits: nat)
    requires ReadsAs(v, bits)
    ensures bits <= INFINITY
  {
    hide PowR, Half, OverflowLimit, Rounded;
    if bits > INFINITY {
      ReadsOrder(v, bits, INFINITY - 1);
      ReadsThresholds(v, bits);
      LastHalf();
    }
  }

  /** The last halfway point is where overflow begins, the first where underflow ends. */
  lemma {:induction false} LastHalf()
    ensures Half(INFINITY - 1) == OverflowLimit() && Half(0) == PowR(2, -1075)
  {
    hide PowR, Times, DoubleAt, Half;
    InfinityAt();
    NextDouble(INFINITY - 1);
    assert GridExp(INFINITY - 1) == 971 && GridExp(0) == -1074;
    ZeroAt();
    NextDouble(0);
  }

  // ----- two numbers with the same nearest double -----

  /** A halfway point comes between x and y. */
  ghost predicate Separated(x: real, y: real) {
    exists b: nat :: b < INFINITY && RoundsDown(x, b) && !RoundsDown(y, b)
  }

  /** The nearest double of x is that of a larger number y as well if and only if no
      halfway point comes between them. */
  lemma {:induction false} SameNearest(x: real, y: real, bits: nat, lo: int, hi: int)
    requires x <= y && ReadsAs(x, bits) && PowR(2, lo) <= y < PowR(2, hi)
    ensures ReadsAs(y, bits) <==> !Separated(x, y)
  {
    hide PowR, ReadsAs, Half, OverflowLimit;
    if ReadsAs(y, bits) {
      forall b: nat | b < INFINITY ensures RoundsDown(x, b) == RoundsDown(y, b) {
        ReadsOrder(x, bits, b);
        ReadsOrder(y, bits, b);
      }
    } else {
      var c := ReadsSome(y, lo, hi);
      ReadsBounded(y, c);
      ReadsBounded(x, bits);
      var b: nat := if bits < c then bits else c;
      ReadsOrder(x, bits, b);
      ReadsOrder(y, c, b);
      assert bits != c;
    }
  }
}
