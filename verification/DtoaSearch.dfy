/** Free-format printing: the search for few digits that still read back as the
    same double. */
module DtoaSearch {
  import opened DtoaPow
  import opened DtoaLimbs
  import opened DtoaBits
  import opened DtoaBig
  import opened DtoaReal
  import opened DtoaRound
  import opened DtoaTables
  import opened DtoaPowers
  import opened DtoaScale

  // ----- radix = radix1 * 2^radixShift -----

  /** Trailing zero bits. */
  function Ctz(n: nat): nat
    requires n > 0
  {
    if n % 2 == 1 then 0 else 1 + Ctz(n / 2)
  }

  lemma {:induction false} CtzSplit(n: nat)
    requires n > 0
    ensures n == (n / Pow(2, Ctz(n))) * Pow(2, Ctz(n)) && (n / Pow(2, Ctz(n))) % 2 == 1
  {
    if n % 2 == 0 {
      CtzSplit(n / 2);
      var k := Ctz(n / 2);
      PowNext(2, k);
      hide Pow;
      DivDiv(n, 2, Pow(2, k));
      Assoc(n / 2 / Pow(2, k), 2, Pow(2, k));
      Assoc(2, n / 2 / Pow(2, k), Pow(2, k));
    }
  }

  /** radix >> ctz32(radix) */
  function OddOf(radix: nat): nat
    requires radix > 0
  {
    Quo(radix, Pow(2, Ctz(radix)))
  }

  lemma {:induction false} RadixSplit(radix: nat)
    requires IsRadix(radix)
    ensures var s := Ctz(radix);
            var r1 := OddOf(radix);
            OddPart(r1) && s <= 5 && r1 * Pow(2, s) == radix
  {
    hide Ctz, Pow;
    CtzSplit(radix);
    RadixParts(radix, radix / Pow(2, Ctz(radix)), Ctz(radix));
  }

  lemma {:induction false} RadixParts(radix: nat, r1: nat, s: nat)
    requires IsRadix(radix) && radix == r1 * Pow(2, s) && r1 % 2 == 1
    ensures OddPart(r1) && s <= 5
  {
    if s > 5 {
      PowMonotone(2, 6, s);
      assert Pow(2, 6) == 64;
      hide Pow;
      MulAtLeast(r1, Pow(2, s));
    } else {
      hide Pow;
      MulAtLeast(Pow(2, s), r1);
    }
  }

  // ----- the candidates -----

  /** E0 - 1 is the exact floor of the radix logarithm of 2^(e-1), which
      mul_log2_radix computes. */
  ghost predicate LogFloor(radix: nat, e: int, E0: int)
    requires radix > 0
  {
    PowR(radix, E0 - 1) <= PowR(2, e - 1) < PowR(radix, E0)
  }

  /** x * radix^(P-E), for x = m * 2^(e-53). */
  ghost function Shift(m: nat, e: int, radix: nat, P: int, E: int): real
    requires radix > 0
  {
    Product(m, e - 53, radix, P - E)
  }

  /** The P-digit candidate at exponent E. */
  ghost function Candidate(m: nat, e: int, radix: nat, P: int, E: int): int
    requires radix > 0
  {
    Nearest(Shift(m, e, radix, P, E), ToNearestEven)
  }

  /** The exponent at which the candidate has no more than P digits. */
  ghost function Bumped(m: nat, e: int, radix: nat, P: nat, E0: int): int
    requires radix > 0
  {
    if Candidate(m, e, radix, P, E0) < Pow(radix, P) then E0 else E0 + 1
  }

  lemma {:induction false} SignificandRange(m: nat, e: int)
    requires Pow(2, 52) <= m < Pow(2, 53)
    ensures var x := Times(m as real, PowR(2, e - 53));
            && PowR(2, e - 1) <= x <= PowR(2, e) - PowR(2, e - 53)
            && (m == Pow(2, 52) ==> x == PowR(2, e - 1))
  {
    hide Times, Pow, PowR;
    var u := PowR(2, e - 53);
    PowRNat(2, 52);
    PowRNat(2, 53);
    PowRSum(52, e - 53, e - 1);
    PowRSum(53, e - 53, e);
    TMonotone(PowR(2, 52), m as real, u);
    TMonotone((m + 1) as real, PowR(2, 53), u);
    TDistribute(u, m as real, 1.0);
    TUnit(u);
  }

  lemma {:induction false} RadixSum(radix: nat, j: int, k: int, l: int)
    requires radix > 0 && l == j + k
    ensures Times(PowR(radix, j), PowR(radix, k)) == PowR(radix, l)
  {
    PowRAdd(radix, j, k);
  }

  /** radix^(P-1) <= x * radix^(P-E0) < 2 radix^P; for radix 2, below radix^P. */
  lemma {:induction false} ShiftRange(m: nat, e: int, radix: nat, P: int, E0: int)
    requires radix >= 2 && Pow(2, 52) <= m < Pow(2, 53) && LogFloor(radix, e, E0)
    ensures PowR(radix, P - 1) <= Shift(m, e, radix, P, E0) < 2.0 * PowR(radix, P)
    ensures radix == 2 ==> Shift(m, e, radix, P, E0) < PowR(radix, P)
  {
    hide Times, Pow, PowR;
    SignificandRange(m, e);
    var x, g := Times(m as real, PowR(2, e - 53)), PowR(radix, P - E0);
    RadixSum(radix, E0 - 1, P - E0, P - 1);
    RadixSum(radix, E0, P - E0, P);
    TMonotone(PowR(radix, E0 - 1), x, g);
    Doubled(e);
    TMonotone(x, PowR(radix, E0) + PowR(radix, E0), g);
    TDistribute(g, PowR(radix, E0), PowR(radix, E0));
    if radix == 2 {
      BinaryLog(e, E0);
      TMonotone(x, PowR(radix, E0), g);
    }
  }

  lemma {:induction false} BinaryLog(e: int, E0: int)
    requires LogFloor(2, e, E0)
    ensures E0 == e
  {
    hide PowR;
    if E0 < e {
      PowRMonotone(2, E0, e - 1);
    } else if E0 > e {
      PowRStrict(2, e - 1, E0 - 1);
    }
  }

  /** Moving the exponent up by one divides by the radix. */
  lemma {:induction false} ShiftNext(m: nat, e: int, radix: nat, P: int, E: int)
    requires radix > 0
    ensures Times(Shift(m, e, radix, P, E + 1), radix as real) == Shift(m, e, radix, P, E)
  {
    hide Times, PowR;
    PowRNext(radix, P - (E + 1));
    TAssoc(Times(m as real, PowR(2, e - 53)), PowR(radix, P - (E + 1)), radix as real);
  }

  lemma {:induction false} CandidateRange(m: nat, e: int, radix: nat, P: nat, E0: int)
    requires radix >= 2 && P >= 1 && Pow(2, 52) <= m < Pow(2, 53) && LogFloor(radix, e, E0)
    ensures Pow(radix, P - 1) <= Candidate(m, e, radix, P, E0) <= 2 * Pow(radix, P)
  {
    ShiftRange(m, e, radix, P, E0);
    hide Shift, Pow, PowR, Nearest, LogFloor;
    var y := Shift(m, e, radix, P, E0);
    PowRNat(radix, P - 1);
    PowRNat(radix, P);
    NearestInt(Pow(radix, P - 1), ToNearestEven);
    NearestInt(2 * Pow(radix, P), ToNearestEven);
    NearestMonotone(Pow(radix, P - 1) as real, y, ToNearestEven);
    NearestMonotone(y, (2 * Pow(radix, P)) as real, ToNearestEven);
  }

  /** When the first candidate has P + 1 digits, the next has P: one bump is enough. */
  lemma {:induction false} BumpRange(m: nat, e: int, radix: nat, P: nat, E0: int)
    requires radix >= 2 && P >= 1 && Pow(2, 52) <= m < Pow(2, 53) && LogFloor(radix, e, E0)
    requires Candidate(m, e, radix, P, E0) >= Pow(radix, P)
    ensures Pow(radix, P - 1) <= Candidate(m, e, radix, P, E0 + 1) < Pow(radix, P)
  {
    ShiftRange(m, e, radix, P, E0);
    ShiftNext(m, e, radix, P, E0);
    hide Shift, Pow, PowR, Nearest, LogFloor, Times;
    var y0, y1 := Shift(m, e, radix, P, E0), Shift(m, e, radix, P, E0 + 1);
    var p := Pow(radix, P - 1);
    NearestClosest(y0, 0);
    PowNext(radix, P - 1);
    PowRNat(radix, P);
    assert y0 >= Pow(radix, P) as real - 0.5;
    TNat(p, radix);
    BumpBounds(y0, y1, p, radix);
    NearestRange(y1, p, radix);
    MulMonotone(2, radix, p);
    if radix > 2 {
      MulMonotone(3, radix, p);
    }
  }

  lemma {:induction false} BumpBounds(y0: real, y1: real, p: nat, radix: nat)
    requires radix >= 2 && Times(y1, radix as real) == y0
    requires Times(p as real, radix as real) - 0.5 <= y0 < 2.0 * Times(p as real, radix as real)
    requires radix == 2 ==> y0 < Times(p as real, radix as real)
    ensures p as real - 0.25 <= y1 < (2 * p) as real
    ensures radix == 2 ==> y1 < p as real
  {
    hide Times;
    var r := radix as real;
    TDistribute(r, p as real, 0.25);
    TDistribute(r, p as real, p as real);
    TMonotone(2.0, r, 0.25);
    TComm(0.25, r);
    Quarter();
    TMonotone(p as real - 0.25, y1, r);
    TMonotone(y1, p as real + p as real, r);
    TMonotone(y1, p as real, r);
  }

  lemma {:induction false} Quarter()
    ensures Times(2.0, 0.25) == 0.5
  {}

  lemma {:induction false} NearestRange(y1: real, p: nat, radix: nat)
    requires p as real - 0.25 <= y1 < (2 * p) as real && (radix == 2 ==> y1 < p as real)
    ensures p <= Nearest(y1, ToNearestEven) <= 2 * p
    ensures radix == 2 ==> Nearest(y1, ToNearestEven) <= p
  {}

  // ----- maxDigits digits are enough -----

  /** What the candidate stands for: its distance from x. */
  lemma {:induction false} CandidateError(m: nat, e: int, radix: nat, P: int, E: int, c: nat)
    requires radix > 0 && c == Candidate(m, e, radix, P, E)
    ensures var w, x, h := Product(c, 0, radix, E - P), Times(m as real, PowR(2, e - 53)), PowR(radix, E - P);
            && -h <= 2.0 * (w - x) <= h
            && (c as real >= Shift(m, e, radix, P, E) ==> w >= x)
  {
    hide Times, PowR, Nearest;
    var x, h := Times(m as real, PowR(2, e - 53)), PowR(radix, E - P);
    var y := Shift(m, e, radix, P, E);
    RadixSum(radix, P - E, E - P, 0);
    PowRUnit(radix);
    PowRUnit(2);
    TAssoc(x, PowR(radix, P - E), h);
    TUnit(x);
    assert Times(y, h) == x;
    TUnit(c as real);
    NearestClosest(y, 0);
    var d := c as real - y;
    TDistribute(h, c as real, y);
    TDistribute(h, d, d);
    TMonotone(-1.0, d + d, h);
    TMonotone(d + d, 1.0, h);
    TMonotone(y, c as real, h);
    TDistribute(h, 0.0, 1.0);
    TUnit(h);
  }

  /** radix^(E0-P) is at most a quarter of the last place. */
  lemma {:induction false} UnitBound(e: int, radix: nat, P: nat, E0: int)
    requires radix >= 2 && P >= 1 && LogFloor(radix, e, E0) && Pow(radix, P - 1) >= Pow(2, 53)
    ensures PowR(radix, E0 - P) <= PowR(2, e - 54)
  {
    hide Times, Pow, PowR;
    PowRNat(radix, P - 1);
    PowRNat(2, 53);
    var g := PowR(radix, E0 - P);
    RadixSum(radix, P - 1, E0 - P, E0 - 1);
    PowRSum(53, e - 54, e - 1);
    TMonotone(PowR(2, 53), PowR(radix, P - 1), g);
    TComm(PowR(2, 53), g);
    TComm(PowR(2, 53), PowR(2, e - 54));
    TMonotone(g, PowR(2, e - 54), PowR(2, 53));
  }

  /** After a bump, radix^(E0+1-P) is still below one last place. */
  lemma {:induction false} BumpUnitBound(m: nat, e: int, radix: nat, P: nat, E0: int)
    requires radix >= 2 && P >= 1 && LogFloor(radix, e, E0) && Pow(radix, P - 1) >= Pow(2, 53)
    requires Pow(2, 52) <= m < Pow(2, 53) && Candidate(m, e, radix, P, E0) >= Pow(radix, P)
    ensures PowR(radix, E0 + 1 - P) < PowR(2, e - 53)
  {
    UnitBound(e, radix, P, E0);
    SignificandRange(m, e);
    ShiftBelow(m, e, radix, P, E0);
    hide Times, Pow, PowR, Candidate, LogFloor;
    PowRNat(radix, P - 1);
    PowRNat(2, 53);
    var h := PowR(radix, E0 + 1 - P);
    RadixSum(radix, P - 1, E0 + 1 - P, E0);
    PowRSum(53, e - 53, e);
    TMonotone(PowR(2, 53), PowR(radix, P - 1), h);
    Doubled(e - 53);
    TComm(PowR(2, 53), h);
    TComm(PowR(2, 53), PowR(2, e - 53));
    TMonotone(h, PowR(2, e - 53), PowR(2, 53));
  }

  /** A candidate of P + 1 digits puts x at radix^E0, less half a unit. */
  lemma {:induction false} ShiftBelow(m: nat, e: int, radix: nat, P: nat, E0: int)
    requires radix > 0 && Candidate(m, e, radix, P, E0) >= Pow(radix, P)
    ensures 2.0 * PowR(radix, E0) <= 2.0 * Times(m as real, PowR(2, e - 53)) + PowR(radix, E0 - P)
  {
    hide Times, Pow, PowR, Nearest;
    var c := Candidate(m, e, radix, P, E0);
    CandidateError(m, e, radix, P, E0, c);
    var g := PowR(radix, E0 - P);
    PowRNat(radix, P);
    TMonotone(Pow(radix, P) as real, c as real, g);
    RadixSum(radix, P, E0 - P, E0);
    PowRUnit(2);
    TUnit(c as real);
  }

  /** Half a unit of at most half a last place, or from above, is near. */
  lemma {:induction false} NearBy(w: real, h: real, m: nat, e: int)
    requires Pow(2, 52) <= m
    requires var x := Times(m as real, PowR(2, e - 53));
             && -h <= 2.0 * (w - x) <= h
             && (h <= PowR(2, e - 54) || (h < PowR(2, e - 53) && (m == Pow(2, 52) ==> w >= x)))
    ensures Near(w, m, e)
  {
    hide Times, Pow, PowR;
    Doubled(e - 53);
    Doubled(e - 54);
  }

  /** The candidate with maxDigits digits lies nearer to the double than to any
      midpoint, before or after a bump. */
  lemma {:induction false} MaxDigitsNear(m: nat, e: int, radix: nat, P: nat, E0: int, E: int, c: nat)
    requires radix >= 2 && P >= 1 && LogFloor(radix, e, E0) && Pow(radix, P - 1) >= Pow(2, 53)
    requires Pow(2, 52) <= m < Pow(2, 53) && c == Candidate(m, e, radix, P, E)
    requires E == E0 || (E == E0 + 1 && Candidate(m, e, radix, P, E0) >= Pow(radix, P))
    ensures Near(Product(c, 0, radix, E - P), m, e)
  {
    CandidateError(m, e, radix, P, E, c);
    hide Times, Pow, PowR, Candidate, Product, Shift, LogFloor, Near;
    if E == E0 {
      UnitBound(e, radix, P, E0);
    } else {
      BumpUnitBound(m, e, radix, P, E0);
      if m == Pow(2, 52) {
        BumpFromAbove(m, e, radix, P, E0);
      }
    }
    NearBy(Product(c, 0, radix, E - P), PowR(radix, E - P), m, e);
  }

  /** At a power of two the bumped candidate is not below x. */
  lemma {:induction false} BumpFromAbove(m: nat, e: int, radix: nat, P: nat, E0: int)
    requires radix >= 2 && P >= 1 && LogFloor(radix, e, E0) && m == Pow(2, 52)
    requires Candidate(m, e, radix, P, E0) >= Pow(radix, P)
    ensures Candidate(m, e, radix, P, E0 + 1) as real >= Shift(m, e, radix, P, E0 + 1)
  {
    PowNext(2, 52);
    BumpRange(m, e, radix, P, E0);
    SignificandRange(m, e);
    hide Times, Pow, PowR, Nearest;
    var g := PowR(radix, P - (E0 + 1));
    RadixSum(radix, E0, P - (E0 + 1), P - 1);
    PowRNat(radix, P - 1);
    TMonotone(PowR(2, e - 1), PowR(radix, E0), g);
  }

  // ----- a number has one rounding -----

  const TWO52: nat := 0x10_0000_0000_0000

  lemma {:induction false} Pow52()
    ensures Pow(2, 52) == TWO52 && Pow(2, 53) == 2 * TWO52
  {
    hide Pow;
    Pow53();
    EvenPower(53);
  }

  lemma {:induction false} BracketUnique(v: real, t: int, u: int)
    requires Bracket(v, t) && Bracket(v, u)
    ensures t == u
  {
    hide PowR;
    if t < u {
      PowRMonotone(2, t, u - 1);
    } else if u < t {
      PowRMonotone(2, u, t - 1);
    }
  }

  lemma {:induction false} NormalOrder(m: nat, e: int, m1: nat, e1: int)
    requires TWO52 <= m < 2 * TWO52 && TWO52 <= m1 < 2 * TWO52
    requires Times(m as real, PowR(2, e - 53)) == Times(m1 as real, PowR(2, e1 - 53))
    ensures e >= e1
  {
    hide Pow, PowR, Times;
    Pow52();
    SignificandRange(m, e);
    SignificandRange(m1, e1);
    if e < e1 {
      PowRMonotone(2, e, e1 - 1);
    }
  }

  lemma {:induction false} NormalUnique(m: nat, e: int, m1: nat, e1: int)
    requires TWO52 <= m < 2 * TWO52 && TWO52 <= m1 < 2 * TWO52
    requires Times(m as real, PowR(2, e - 53)) == Times(m1 as real, PowR(2, e1 - 53))
    ensures m == m1 && e == e1
  {
    hide PowR, Times;
    NormalOrder(m, e, m1, e1);
    NormalOrder(m1, e1, m, e);
    TCancel(m as real, m1 as real, PowR(2, e - 53));
  }

  lemma {:induction false} ZeroProduct(m: nat, w: real)
    requires w > 0.0
    ensures Times(m as real, w) == 0.0 <==> m == 0
  {
    if m > 0 {
      TPositive(m as real, w);
    }
  }

  /** A number has one rounding. */
  lemma {:induction false} RoundedUnique(v: real, m: nat, e: int, m1: nat, e1: int)
    requires Rounded(v, m, e, ToNearestEven) && Rounded(v, m1, e1, ToNearestEven) && m > 0
    ensures m1 == m && e1 == e
  {
    hide Pow, PowR, Times, Nearest;
    Pow52();
    var t :| RoundedAt(v, t, m, e, ToNearestEven);
    var u :| RoundedAt(v, u, m1, e1, ToNearestEven);
    BracketUnique(v, t, u);
    ZeroProduct(m, PowR(2, e - 53));
    ZeroProduct(m1, PowR(2, e1 - 53));
    NormalUnique(m, e, m1, e1);
  }

  // ----- the search -----

  /** The digits mant (P of them, at exponent E, none superfluous) read back as
      m * 2^(e-53). */
  ghost predicate ReadsBack(mant: nat, P: nat, E: int, m: nat, e: int, radix: nat)
    requires radix > 0
  {
    && Digits(mant, P, radix)
    && Rounded(Product(mant, 0, radix, E - P), m, e, ToNearestEven)
  }

  /** mant has exactly P digits. */
  ghost predicate Digits(mant: nat, P: nat, radix: nat) {
    P >= 1 && Pow(radix, P - 1) <= mant < Pow(radix, P)
  }

  /** One candidate, as a 64-bit word. */
  method ComputeCandidate(tmp: Mpb, m: nat, e: int, radix: nat, P: int, E: int) returns (mant: nat)
    requires IsRadix(radix) && 0 < m < 0x1_0000_0000_0000_0000 && Capacity(P - E, e - 53) <= tmp.tab.Length
    requires 0 <= Candidate(m, e, radix, P, E) < 0x1_0000_0000_0000_0000
    modifies tmp, tmp.tab
    ensures tmp.Normal() && mant == Candidate(m, e, radix, P, E)
  {
    hide Val, Pow, PowR, NormalLimbs, Candidate, Product, Nearest, Ctz, OddOf, Capacity;
    RadixSplit(radix);
    MulPowRound(tmp, m, e - 53, OddOf(radix), Ctz(radix), P - E, ToNearestEven);
    CandidateIs(m, e, radix, P, E);
    mant := tmp.GetU64();
  }

  /** P digits of the significand: the candidate at E0, or one exponent up. */
  method FindCandidate(tmp: Mpb, m: nat, e: int, radix: nat, P: nat, E0: int) returns (mant: nat, E: int)
    requires IsRadix(radix) && 1 <= P <= Info(radix).maxDigits
    requires Pow(2, 52) <= m < Pow(2, 53) && LogFloor(radix, e, E0)
    requires tmp.tab.Length >= Room(e, E0)
    modifies tmp, tmp.tab
    ensures tmp.Normal()
    ensures E == Bumped(m, e, radix, P, E0)
    ensures mant == Candidate(m, e, radix, P, E) && Digits(mant, P, radix)
  {
    hide Val, Pow, PowR, NormalLimbs, Candidate, LogFloor, Info, Product, Nearest, Ctz, OddOf;
    DigitsTable(radix);
    Pow53();
    PowMonotone(radix, P, Info(radix).maxDigits);
    CandidateRange(m, e, radix, P, E0);
    var mantMax := PowUi(radix, P);
    E := E0;
    mant := ComputeCandidate(tmp, m, e, radix, P, E);
    while mant >= mantMax
      invariant tmp.Normal()
      invariant E == E0 || (E == E0 + 1 && Candidate(m, e, radix, P, E0) >= Pow(radix, P) && mant < mantMax)
      invariant mant == Candidate(m, e, radix, P, E) && mant >= Pow(radix, P - 1)
      decreases E0 + 1 - E
    {
      BumpRange(m, e, radix, P, E0);
      E := E + 1;
      mant := ComputeCandidate(tmp, m, e, radix, P, E);
    }
  }

  /** Limbs that suffice for every step of the search. */
  function Room(e: int, E0: int): nat { 8 + 7 * (Abs(E0) + 56) + 2 * (Abs(e) + 53) }

  lemma {:induction false} CandidateIs(m: nat, e: int, radix: nat, P: int, E: int)
    requires radix > 0
    ensures Candidate(m, e, radix, P, E) == Nearest(Product(m, e - 53, radix, P - E), ToNearestEven)
  {}

  /** A trailing zero digit moves into the exponent. */
  lemma {:induction false} Strip(mant: nat, P: nat, E: int, radix: nat)
    requires radix >= 2 && mant > 0 && mant % radix == 0 && Digits(mant, P, radix)
    ensures mant / radix > 0 && P >= 2 && Digits(mant / radix, P - 1, radix)
    ensures Product(mant / radix, 0, radix, E - (P - 1)) == Product(mant, 0, radix, E - P)
  {
    hide Times, Pow, PowR;
    var q := mant / radix;
    Euclid(mant, radix);
    assert mant == q * radix;
    StripRange(q, radix, P);
    TNat(q, radix);
    PowRUnit(2);
    TUnit(mant as real);
    TUnit(q as real);
    PowRNext(radix, E - P);
    TComm(PowR(radix, E - P), radix as real);
    TAssoc(q as real, radix as real, PowR(radix, E - P));
  }

  lemma {:induction false} StripRange(q: nat, radix: nat, P: nat)
    requires radix >= 2 && q * radix > 0 && Digits(q * radix, P, radix)
    ensures q > 0 && P >= 2 && Digits(q, P - 1, radix)
  {
    hide Pow;
    PowNext(radix, P - 1);
    PowNext(radix, 0);
    if q >= Pow(radix, P - 1) {
      MulMonotone(Pow(radix, P - 1), q, radix);
      assert false;
    }
    MulAtLeast(q, radix);
    assert P >= 2;
    PowNext(radix, P - 2);
    if q < Pow(radix, P - 2) {
      MulMonotone(q + 1, Pow(radix, P - 2), radix);
      Distribute(radix, q, 1);
      assert false;
    }
  }

  /** Without trailing zeros. */
  ghost function Stripped(mant: nat, P: int, radix: nat): (r: (nat, int))
    requires radix >= 2
    ensures r.1 <= P
    decreases mant
  {
    if mant > 0 && mant % radix == 0 then
      QuotientLess(mant, radix);
      Stripped(mant / radix, P - 1, radix)
    else (mant, P)
  }

  lemma {:induction false} QuotientLess(n: nat, radix: nat)
    requires radix >= 2 && n > 0
    ensures 0 <= n / radix < n
  {
    Euclid(n, radix);
    MulMonotone(2, radix, n / radix);
  }

  method StripZeros(mant0: nat, P0: nat, E: int, radix: nat) returns (mant: nat, P: nat)
    requires radix >= 2 && mant0 > 0 && Digits(mant0, P0, radix)
    ensures (mant, P) == Stripped(mant0, P0, radix)
    ensures Digits(mant, P, radix) && mant % radix != 0 && P <= P0
    ensures Product(mant, 0, radix, E - P) == Product(mant0, 0, radix, E - P0)
  {
    hide Digits, Product;
    mant, P := mant0, P0;
    while mant % radix == 0
      invariant mant > 0 && Digits(mant, P, radix) && P <= P0
      invariant Stripped(mant, P, radix) == Stripped(mant0, P0, radix)
      invariant Product(mant, 0, radix, E - P) == Product(mant0, 0, radix, E - P0)
      decreases P
    {
      Strip(mant, P, E, radix);
      mant := mant / radix;
      P := P - 1;
    }
  }

  /** Reads digits back, as the parser does. */
  method Check(tmp: Mpb, mant: nat, P: nat, E: int, radix: nat, m: nat, e: int) returns (same: bool)
    requires IsRadix(radix) && 0 < mant < 0x1_0000_0000_0000_0000 && tmp.tab.Length >= Abs(E - P) + 68
    modifies tmp, tmp.tab
    requires m > 0
    ensures same <==> Rounded(Product(mant, 0, radix, E - P), m, e, ToNearestEven)
  {
    hide Val, Pow, PowR, NormalLimbs, Product, Rounded, Ctz, OddOf;
    RadixSplit(radix);
    var shift := Ctz(radix);
    var radix1 := OddOf(radix);
    tmp.SetU64(mant);
    var m1, e1 := MulPowRoundToD(tmp, radix1, shift, E - P, ToNearestEven);
    same := m1 == m && e1 == e;
    if Rounded(Product(mant, 0, radix, E - P), m, e, ToNearestEven) {
      RoundedUnique(Product(mant, 0, radix, E - P), m, e, m1, e1);
    }
  }

  /** The p-digit candidate rounds back to m * 2^(e-53). */
  ghost predicate TryReads(m: nat, e: int, radix: nat, p: nat, E0: int)
    requires radix > 0
  {
    var E := Bumped(m, e, radix, p, E0);
    var c := Candidate(m, e, radix, p, E);
    c >= 0 && Rounded(Product(c, 0, radix, E - p), m, e, ToNearestEven)
  }

  /** The p-digit candidate without its trailing zeros, and how many digits are left. */
  ghost function Attempt(m: nat, e: int, radix: nat, p: nat, E0: int): (r: (nat, int))
    requires radix >= 2
    ensures r.1 <= p
  {
    var c := Candidate(m, e, radix, p, Bumped(m, e, radix, p, E0));
    Stripped(if c >= 0 then c else 0, p, radix)
  }

  /** The last number of digits tried with success, from q on: each time the trailing zeros
      and one more digit are given up. */
  ghost function LastTry(m: nat, e: int, radix: nat, q: nat, E0: int): (r: nat)
    requires radix >= 2
    ensures r <= q
    decreases q
  {
    var p := Attempt(m, e, radix, q, E0).1 - 1;
    if 1 <= p < q && TryReads(m, e, radix, p, E0) then LastTry(m, e, radix, p, E0) else q
  }

  /** The search ends with the candidate of that many digits. */
  ghost predicate SearchEnds(mant: nat, P: nat, E: int, m: nat, e: int, radix: nat, E0: int)
    requires IsRadix(radix)
  {
    var q := LastTry(m, e, radix, Info(radix).maxDigits, E0);
    (mant, P) == Attempt(m, e, radix, q, E0) && E == Bumped(m, e, radix, q, E0)
  }

  /** So the candidate with one digit less than the result does not round back. */
  lemma {:induction false} LastTryStops(m: nat, e: int, radix: nat, q: nat, E0: int)
    requires radix >= 2 && q >= 1
    ensures var P := Attempt(m, e, radix, LastTry(m, e, radix, q, E0), E0).1;
            P > 1 ==> !TryReads(m, e, radix, P - 1, E0)
    decreases q
  {
    hide TryReads, Attempt;
    var p := Attempt(m, e, radix, q, E0).1 - 1;
    if 1 <= p < q && TryReads(m, e, radix, p, E0) {
      LastTryStops(m, e, radix, p, E0);
    }
  }

  /** (mf, Pf, Ef) is the last success so far, found with q digits. */
  ghost predicate Found(mf: nat, Pf: nat, Ef: int, q: nat, m: nat, e: int, radix: nat, E0: int)
    requires IsRadix(radix)
  {
    && ReadsBack(mf, Pf, Ef, m, e, radix) && mf % radix != 0 && Pf <= q <= Info(radix).maxDigits
    && (mf, Pf) == Attempt(m, e, radix, q, E0) && Ef == Bumped(m, e, radix, q, E0)
    && LastTry(m, e, radix, Info(radix).maxDigits, E0) == LastTry(m, e, radix, q, E0)
  }

  /** c, stripped to c1, is the candidate of p digits. */
  ghost predicate Tried(c: nat, p: nat, E: int, c1: nat, p1: nat, m: nat, e: int, radix: nat, E0: int)
    requires IsRadix(radix)
  {
    && E == Bumped(m, e, radix, p, E0) && c == Candidate(m, e, radix, p, E)
    && (c1, p1) == Stripped(c, p, radix) && p1 <= p && c1 % radix != 0 && Digits(c1, p1, radix)
    && Product(c1, 0, radix, E - p1) == Product(c, 0, radix, E - p)
  }

  /** A candidate that rounds back is the next success. */
  lemma {:induction false} NextFound(mf: nat, Pf: nat, Ef: int, q: nat, c: nat, p: nat, E: int, c1: nat, p1: nat,
          m: nat,
          e: int, radix: nat, E0: int)
    requires IsRadix(radix) && Tried(c, p, E, c1, p1, m, e, radix, E0) && p >= 1
    requires Rounded(Product(c1, 0, radix, E - p1), m, e, ToNearestEven)
    requires p == Info(radix).maxDigits || (Found(mf, Pf, Ef, q, m, e, radix, E0) && p == Pf - 1)
    ensures Found(c1, p1, E, p, m, e, radix, E0)
  {
    hide Candidate, Info, Product, Rounded, Digits, Bumped, Stripped;
  }

  /** The search ends when there is no digit left to give up, or the candidate with one
      digit less does not round back. */
  lemma {:induction false} FoundEnds(mf: nat, Pf: nat, Ef: int, q: nat, m: nat, e: int, radix: nat, E0: int)
    requires IsRadix(radix) && Found(mf, Pf, Ef, q, m, e, radix, E0)
    requires Pf == 1 || !TryReads(m, e, radix, Pf - 1, E0)
    ensures SearchEnds(mf, Pf, Ef, m, e, radix, E0)
  {
    hide Candidate, Info, Product, Rounded, Bumped, Attempt, TryReads;
  }

  lemma {:induction false} NotRead(c: nat, p: nat, E: int, c1: nat, p1: nat, m: nat, e: int, radix: nat, E0: int)
    requires IsRadix(radix) && Tried(c, p, E, c1, p1, m, e, radix, E0)
    requires !Rounded(Product(c1, 0, radix, E - p1), m, e, ToNearestEven)
    ensures !TryReads(m, e, radix, p, E0)
  {
    hide Candidate, Product, Rounded, Digits, Bumped, Stripped;
  }

  /** The digits found always read back as the same double: those of the first
      try because maxDigits digits are enough, all others because each was
      checked. */
  method FreeFormat(tmp: Mpb, m: nat, e: int, radix: nat, E0: int) returns (mant: nat, P: nat, E: int)
    requires IsRadix(radix) && Representable(m, e) && LogFloor(radix, e, E0)
    requires tmp.tab.Length >= Room(e, E0)
    modifies tmp, tmp.tab
    ensures ReadsBack(mant, P, E, m, e, radix)
    ensures mant % radix != 0 && P <= Info(radix).maxDigits && E0 <= E <= E0 + 1
    ensures SearchEnds(mant, P, E, m, e, radix, E0)
  {
    hide Val, Pow, PowR, NormalLimbs, Candidate, LogFloor, Info, Product, Rounded, Digits, Near, Stripped, Bumped,
         SearchEnds, Attempt, LastTry, TryReads, Found, Representable;
    DigitsTable(radix);
    Pow53();
    SignificandOf64(m, e);
    var Pf: nat, Ef: int, mf: nat := 0, 0, 0;
    ghost var q: nat := 0;
    var p := Info(radix).maxDigits;
    var searching := true;
    while searching
      invariant 0 <= Pf <= Info(radix).maxDigits && 1 <= p <= Info(radix).maxDigits
      invariant Pf == 0 ==> searching && p == Info(radix).maxDigits
      invariant Pf > 0 ==> Found(mf, Pf, Ef, q, m, e, radix, E0)
      invariant Pf > 0 && searching ==> p == Pf - 1
      invariant !searching ==> Pf == 1 || !TryReads(m, e, radix, Pf - 1, E0)
      decreases searching, p
    {
      var p0 := p;
      var c, E1 := FindCandidate(tmp, m, e, radix, p, E0);
      DigitsBound(c, p, radix);
      var c1, p1 := StripZeros(c, p, E1, radix);
      DigitsBound(c1, p1, radix);
      assert Tried(c, p0, E1, c1, p1, m, e, radix, E0);
      var accept := true;
      if Pf == 0 {
        FirstReads(m, e, radix, p, E0, E1, c);
      } else {
        BumpedNear(m, e, radix, p, E0);
        accept := Check(tmp, c1, p1, E1, radix, m, e);
      }
      p := p1;
      if accept {
        NextFound(mf, Pf, Ef, q, c, p0, E1, c1, p1, m, e, radix, E0);
        Pf, Ef, mf, q := p, E1, c1, p0;
        if p == 1 {
          searching := false;
        } else {
          p := p - 1;
        }
      } else {
        NotRead(c, p0, E1, c1, p1, m, e, radix, E0);
        searching := false;
      }
    }
    mant, P, E := mf, Pf, Ef;
    FoundEnds(mf, Pf, Ef, q, m, e, radix, E0);
    FoundFacts(mf, Pf, Ef, q, m, e, radix, E0);
  }

  lemma {:induction false} FoundFacts(mf: nat, Pf: nat, Ef: int, q: nat, m: nat, e: int, radix: nat, E0: int)
    requires IsRadix(radix) && Found(mf, Pf, Ef, q, m, e, radix, E0)
    ensures ReadsBack(mf, Pf, Ef, m, e, radix) && mf % radix != 0 && E0 <= Ef <= E0 + 1
  {
    hide Candidate, Info, Product, Rounded, Digits, Attempt, LastTry, Pow;
  }

  lemma {:induction false} BumpedNear(m: nat, e: int, radix: nat, p: nat, E0: int)
    requires radix > 0
    ensures E0 <= Bumped(m, e, radix, p, E0) <= E0 + 1
  {
    hide Candidate, Pow;
  }

  /** The first candidate rounds back. */
  lemma {:induction false} FirstReads(m: nat, e: int, radix: nat, p: nat, E0: int, E: int, c: nat)
    requires IsRadix(radix) && Representable(m, e) && LogFloor(radix, e, E0) && p == Info(radix).maxDigits
    requires E == Bumped(m, e, radix, p, E0) && c == Candidate(m, e, radix, p, E)
    ensures Rounded(Product(c, 0, radix, E - p), m, e, ToNearestEven)
  {
    hide Pow, PowR, Candidate, LogFloor, Info, Product, Rounded, Near;
    DigitsTable(radix);
    Pow53();
    MaxDigitsNear(m, e, radix, p, E0, E, c);
    Recovered(Product(c, 0, radix, E - p), m, e);
  }

  lemma {:induction false} SignificandOf64(m: nat, e: int)
    requires Representable(m, e)
    ensures Pow(2, 52) <= m < Pow(2, 53) && m > 0
  {
    Pow52();
    hide Pow;
  }

  lemma {:induction false} DigitsBound(mant: nat, P: nat, radix: nat)
    requires IsRadix(radix) && Digits(mant, P, radix) && P <= Info(radix).maxDigits
    ensures 0 < mant < 0x1_0000_0000_0000_0000 && P >= 1
  {
    hide Info, Pow;
    DigitsTable(radix);
    PowMonotone(radix, P, Info(radix).maxDigits);
  }
}
