/** How short the printed digits are.  The search stops at P digits when the candidate with
    one digit less does not read back.  Then no number with fewer digits reads back either,
    unless the double is a power of two, whose neighbour below is nearer than the one above:
    there the next candidate up may read back, and it alone decides. */
module DtoaShort {
  import opened Basics
  import opened DtoaPow
  import opened DtoaBits
  import opened DtoaReal
  import opened DtoaRound
  import opened DtoaTables
  import opened DtoaScale
  import opened DtoaSearch
  import opened DtoaDigits
  import opened DtoaLog
  import opened DtoaText
  import opened Dtoa
  import opened DtoaHalf
  import opened DtoaWrap
  import opened DtoaRoundTrip

  // ----- candidates are the nearest numbers of their length -----

  ghost function ValueOf(m: nat, e: int): real { Times(m as real, PowR(2, e - 53)) }

  lemma {:induction false} PlainProduct(c: nat, radix: nat, f: int)
    requires radix > 0
    ensures Product(c, 0, radix, f) == Times(c as real, PowR(radix, f))
  {
    hide Times, PowR;
    PowRUnit(2);
    TUnit(c as real);
  }

  lemma {:induction false} ScaledDistance(a: real, b: real, g: real)
    requires g > 0.0
    ensures Distance(Times(a, g), Times(b, g)) == Times(Distance(a, b), g)
  {
    hide Times;
    TDistribute(g, a, b);
    TDistribute(g, b, a);
    TMonotone(a, b, g);
  }

  lemma {:induction false} ShiftBack(m: nat, e: int, radix: nat, Q: int, E: int)
    requires radix > 0
    ensures Times(Shift(m, e, radix, Q, E), PowR(radix, E - Q)) == ValueOf(m, e)
  {
    hide Times, PowR;
    var x, h := ValueOf(m, e), PowR(radix, E - Q);
    RadixSum(radix, Q - E, E - Q, 0);
    PowRUnit(radix);
    TAssoc(x, PowR(radix, Q - E), h);
    TUnit(x);
  }

  /** No multiple of the unit is nearer than the candidate. */
  lemma {:induction false} OnGrid(m: nat, e: int, radix: nat, Q: int, E: int, k: nat, i: nat)
    requires radix > 0 && k == Candidate(m, e, radix, Q, E)
    ensures Distance(ValueOf(m, e), Product(k, 0, radix, E - Q))
            <= Distance(ValueOf(m, e), Product(i, 0, radix, E - Q))
    ensures Distance(ValueOf(m, e), Product(k, 0, radix, E - Q)) <= PowR(radix, E - Q)
  {
    hide Times, PowR, Nearest, Shift, ValueOf;
    var y, g := Shift(m, e, radix, Q, E), PowR(radix, E - Q);
    ShiftBack(m, e, radix, Q, E);
    PlainProduct(k, radix, E - Q);
    PlainProduct(i, radix, E - Q);
    NearestClosest(y, i);
    ScaledDistance(y, k as real, g);
    ScaledDistance(y, i as real, g);
    TMonotone(Distance(y, k as real), Distance(y, i as real), g);
    TMonotone(Distance(y, k as real), 1.0, g);
    TUnit(g);
  }

  /** A number of at most Q digits is a multiple of the unit, or lies below all Q-digit
      multiples of it. */
  lemma {:induction false} FewDigits(c: nat, F: int, radix: nat, Q: nat, E: int) returns (i: nat)
    requires radix >= 2 && 0 < c < Pow(radix, Q) && Q >= 1
    ensures F >= E - Q ==> Product(c, 0, radix, F) == Product(i, 0, radix, E - Q)
    ensures F < E - Q ==> Product(c, 0, radix, F) < PowR(radix, E - 1)
  {
    hide Times, PowR, Pow, Product;
    if F >= E - Q {
      i := c * Pow(radix, F - (E - Q));
      ZerosMoved(c, F - (E - Q), radix, E - Q);
    } else {
      i := 0;
      PlainProduct(c, radix, F);
      PowRNat(radix, Q);
      TMonotone(c as real, Pow(radix, Q) as real, PowR(radix, F));
      RadixSum(radix, Q, F, Q + F);
      PowRMonotone(radix, Q + F, E - 1);
    }
  }

  lemma {:induction false} GridPower(radix: nat, n: nat, f: int)
    requires radix > 0
    ensures Product(Pow(radix, n), 0, radix, f) == PowR(radix, n + f)
  {
    hide Times, PowR, Pow;
    PlainProduct(Pow(radix, n), radix, f);
    PowRNat(radix, n);
    RadixSum(radix, n, f, n + f);
  }

  /** At an exponent no larger than the number's own, the candidate is as near as any
      number with so few digits. */
  lemma {:induction false} Beats(m: nat, e: int, radix: nat, Q: nat, E: int, k: nat, c: nat, F: int)
    requires radix >= 2 && Q >= 1 && 0 < c < Pow(radix, Q) && k == Candidate(m, e, radix, Q, E)
    requires PowR(radix, E - 1) <= ValueOf(m, e)
    ensures Distance(ValueOf(m, e), Product(k, 0, radix, E - Q)) <= Distance(ValueOf(m, e), Product(c, 0, radix, F))
  {
    hide PowR, Pow, Product, Candidate, ValueOf;
    var i := FewDigits(c, F, radix, Q, E);
    if F >= E - Q {
      OnGrid(m, e, radix, Q, E, k, i);
    } else {
      GridPower(radix, Q - 1, E - Q);
      assert Q - 1 + (E - Q) == E - 1;
      OnGrid(m, e, radix, Q, E, k, Pow(radix, Q - 1));
    }
  }

  /** The same for the candidate at the exponent the search settles on. */
  lemma {:induction false} BumpedBeats(m: nat, e: int, radix: nat, Q: nat, E0: int, k: nat, c: nat, F: int)
    requires radix >= 2 && Q >= 1 && 0 < c < Pow(radix, Q)
    requires Pow(2, 52) <= m < Pow(2, 53) && LogFloor(radix, e, E0)
    requires k == Candidate(m, e, radix, Q, Bumped(m, e, radix, Q, E0))
    ensures Distance(ValueOf(m, e), Product(k, 0, radix, Bumped(m, e, radix, Q, E0) - Q))
            <= Distance(ValueOf(m, e), Product(c, 0, radix, F))
  {
    hide PowR, Pow, Product, Candidate;
    SignificandRange(m, e);
    CandidateRange(m, e, radix, Q, E0);
    var k0 := Candidate(m, e, radix, Q, E0);
    hide ValueOf;
    var x, y := ValueOf(m, e), Product(c, 0, radix, F);
    Beats(m, e, radix, Q, E0, k0, c, F);
    if k0 >= Pow(radix, Q) {
      if PowR(radix, E0) <= x {
        Beats(m, e, radix, Q, E0 + 1, k, c, F);
      } else {
        // x lies just below radix^E0, which is then the nearest number of Q digits
        GridPower(radix, Q, E0 - Q);
        LargerProduct(Pow(radix, Q), k0, radix, E0 - Q);
        GridPower(radix, Q - 1, E0 + 1 - Q);
        assert Q - 1 + (E0 + 1 - Q) == E0 && Q + (E0 - Q) == E0;
        OnGrid(m, e, radix, Q, E0 + 1, k, Pow(radix, Q - 1));
      }
    }
  }

  // ----- rounding back, by bits -----

  /** A representable number is the double of its packed bits. */
  lemma {:induction false} SelfValue(m: nat, e: int)
    requires Representable(m, e) && e <= 1024
    ensures DoubleAt(Pack(m, e)) == ValueOf(m, e) && Rounded(ValueOf(m, e), m, e, ToNearestEven)
  {
    hide PowR, Pow, Times, Nearest, Pack, DoubleAt, Near, RoundedAt;
    NearSelf(m, e);
    Recovered(ValueOf(m, e), m, e);
    var t :| RoundedAt(ValueOf(m, e), t, m, e, ToNearestEven);
    BracketOf(ValueOf(m, e), t, m, e);
    OwnBracket(m, e);
    BracketUnique(ValueOf(m, e), t, e);
    RoundedIs(ValueOf(m, e), t, m, e);
  }

  lemma {:induction false} OwnBracket(m: nat, e: int)
    requires Pow(2, 52) <= m < Pow(2, 53)
    ensures Bracket(ValueOf(m, e), e)
  {
    hide PowR, Pow, Times;
    SignificandRange(m, e);
  }

  /** Reading as these bits is rounding to the number they stand for. */
  lemma {:induction false} ReadsIsRounds(v: real, m: nat, e: int)
    requires Representable(m, e) && e <= 1024
    ensures ReadsAs(v, Pack(m, e)) <==> Rounded(v, m, e, ToNearestEven)
  {
    hide PowR, Pow, Times, Pack, RoundedAt, Rounded, ValueOf, DoubleAt;
    PackKinds(m, e);
    if ReadsAs(v, Pack(m, e)) && !(v >= PowR(2, 1024)) {
      var m1: nat, e1: int :| Rounded(v, m1, e1, ToNearestEven) && Pack(m, e) == Pack(m1, e1);
      SamePacked(v, m, e, m1, e1);
    }
    if ReadsAs(v, Pack(m, e)) && v >= PowR(2, 1024) {
      ReadsThresholds(v, Pack(m, e));
      RangeEnds();
    }
  }

  lemma {:induction false} RangeEnds()
    ensures OverflowLimit() < PowR(2, 1024)
  {
    LimitBelow();
  }

  lemma {:induction false} SamePacked(v: real, m: nat, e: int, m1: nat, e1: int)
    requires Representable(m, e) && e <= 1024 && v < PowR(2, 1024)
    requires Rounded(v, m1, e1, ToNearestEven) && Pack(m1, e1) == Pack(m, e)
    ensures m1 == m && e1 == e
  {
    hide PowR, Pow, Times, Pack, Nearest, DoubleAt, LastPlace;
    SelfValue(m, e);
    PackKinds(m, e);
    var t :| RoundedAt(v, t, m1, e1, ToNearestEven);
    if t > 1024 {
      PowRMonotone(2, 1024, t - 1);
      assert false;
    }
    RoundedIs(v, t, m1, e1);
    Pow52();
    RoundedUnderflow(v, t, m1, e1);
    PackKinds(m1, e1);
    NormalUnique(m, e, m1, e1);
  }

  // ----- the numbers that read as one double -----

  lemma {:induction false} ReadsInside(v: real, b: nat)
    requires ReadsAs(v, b) && 0 < b < INFINITY
    ensures PowR(2, -1075) <= v < PowR(2, 1024)
  {
    hide PowR, ReadsAs, OverflowLimit;
    ReadsThresholds(v, b);
    RangeEnds();
  }

  /** What lies between two of them is one of them. */
  lemma {:induction false} Convex(b: nat, p: real, v: real, q: real)
    requires 0 < b < INFINITY && ReadsAs(p, b) && ReadsAs(q, b) && p <= v <= q
    ensures ReadsAs(v, b)
  {
    hide PowR, ReadsAs, Half;
    ReadsInside(p, b);
    ReadsInside(q, b);
    ReadsBetween(p, b, -1075, 1024);
    ReadsBetween(v, b, -1075, 1024);
    ReadsBetween(q, b, -1075, 1024);
  }

  /** Distances to the halfway points: above at least as far as below. */
  lemma {:induction false} Halves(b: nat)
    requires b > 0
    ensures var x, up, down := DoubleAt(b), PowR(2, GridExp(b) - 1), PowR(2, GridExp(b - 1) - 1);
            && Half(b) == x + up && Half(b - 1) == x - down && down <= up
            && (Symmetric(b) ==> down == up)
  {
    hide PowR, DoubleAt, Half;
    NextDouble(b);
    NextDouble(b - 1);
    GridNext(b - 1);
    PowRMonotone(2, GridExp(b - 1) - 1, GridExp(b) - 1);
    SameGrid(b);
  }

  /** The doubles with neighbours equally far: all but the powers of two above 2^-1022. */
  predicate Symmetric(b: nat) { b % TWO52 != 0 || b == TWO52 }

  lemma {:induction false} SameGrid(b: nat)
    requires b > 0
    ensures Symmetric(b) ==> GridExp(b - 1) == GridExp(b)
  {
    if b >= TWO52 && b % TWO52 != 0 {
      var q, r := b / TWO52, b % TWO52;
      assert b - 1 == q * TWO52 + (r - 1);
      assert (b - 1) / TWO52 == q;
    }
  }

  /** A number below the double is mirrored by one above it. */
  lemma {:induction false} Mirror(b: nat, y: real)
    requires 0 < b < INFINITY && ReadsAs(y, b) && (y <= DoubleAt(b) || Symmetric(b))
    requires ReadsAs(DoubleAt(b), b)
    ensures ReadsAs(DoubleAt(b) + DoubleAt(b) - y, b)
  {
    hide PowR, ReadsAs, DoubleAt, Half, Symmetric, GridExp;
    var x := DoubleAt(b);
    var z := x + x - y;
    Halves(b);
    ReadsInside(y, b);
    ReadsInside(x, b);
    LargestHalf(b);
    LargestHalf(b - 1);
    ReadsBetween(y, b, -1075, 1024);
    ReadsBetween(z, b, -1075, 1024);
  }

  /** Nearer numbers read as the double as well, on either side of it if the farther one
      lies below or the neighbours are equally far. */
  lemma {:induction false} NearerReads(b: nat, w: real, y: real)
    requires 0 < b < INFINITY && ReadsAs(y, b) && ReadsAs(DoubleAt(b), b)
    requires Distance(DoubleAt(b), w) <= Distance(DoubleAt(b), y)
    requires y <= DoubleAt(b) || Symmetric(b)
    ensures ReadsAs(w, b)
  {
    hide ReadsAs, DoubleAt, Symmetric;
    var x := DoubleAt(b);
    Mirror(b, y);
    if y <= x {
      Convex(b, y, w, x + x - y);
    } else {
      Convex(b, x + x - y, w, y);
    }
  }

  // ----- the length of the result -----

  /** Some number with at most Q digits reads as b. */
  ghost predicate HasShort(b: nat, radix: nat, Q: nat)
    requires radix > 0
  {
    exists c: nat, F: int :: ShortReads(b, radix, Q, c, F)
  }

  ghost predicate ShortReads(b: nat, radix: nat, Q: nat, c: nat, F: int)
    requires radix > 0
  {
    0 < c < Pow(radix, Q) && ReadsAs(Product(c, 0, radix, F), b)
  }

  /** The candidate of Q digits and its unit, as the search finds them. */
  ghost function Rejected(m: nat, e: int, radix: nat, Q: nat, E0: int): int
    requires radix > 0
  {
    Candidate(m, e, radix, Q, Bumped(m, e, radix, Q, E0))
  }

  lemma {:induction false} RejectedRange(m: nat, e: int, radix: nat, Q: nat, E0: int)
    requires radix >= 2 && Q >= 1 && Pow(2, 52) <= m < Pow(2, 53) && LogFloor(radix, e, E0)
    ensures Rejected(m, e, radix, Q, E0) >= 0 && Digits(Rejected(m, e, radix, Q, E0), Q, radix)
  {
    hide PowR, Pow, Candidate, LogFloor;
    CandidateRange(m, e, radix, Q, E0);
    if Candidate(m, e, radix, Q, E0) >= Pow(radix, Q) {
      BumpRange(m, e, radix, Q, E0);
    }
  }

  /** Where the candidate of Q digits does not read back, a number of at most Q digits does
      if and only if the next candidate up does. */
  lemma {:induction false} ShorterExact(m: nat, e: int, radix: nat, Q: nat, E0: int)
    requires IsRadix(radix) && Q >= 1 && Representable(m, e) && e <= 1024 && LogFloor(radix, e, E0)
    requires !TryReads(m, e, radix, Q, E0)
    ensures Rejected(m, e, radix, Q, E0) >= 0
    ensures HasShort(Pack(m, e), radix, Q) <==>
              ReadsAs(Product(Rejected(m, e, radix, Q, E0) + 1, 0, radix, Bumped(m, e, radix, Q, E0) - Q), Pack(m, e))
    ensures Symmetric(Pack(m, e)) ==> !HasShort(Pack(m, e), radix, Q)
  {
    hide Pow, PowR, Product, ReadsAs, Pack, Candidate, Bumped, LogFloor, DoubleAt, Rounded, Digits, Symmetric, ValueOf,
         Representable;
    SignificandOf64(m, e);
    RejectedRange(m, e, radix, Q, E0);
    var b, k, E := Pack(m, e), Rejected(m, e, radix, Q, E0), Bumped(m, e, radix, Q, E0);
    var w := Product(k, 0, radix, E - Q);
    ReadsIsRounds(w, m, e);
    if HasShort(b, radix, Q) {
      var c: nat, F: int :| ShortReads(b, radix, Q, c, F);
      ShorterForces(m, e, radix, Q, E0, k, c, F);
    }
    if ReadsAs(Product(k + 1, 0, radix, E - Q), b) {
      NextIsShort(b, radix, Q, E, k);
    }
  }

  /** The candidate after a Q-digit one has at most Q digits, or is a power of the radix. */
  lemma {:induction false} NextIsShort(b: nat, radix: nat, Q: nat, E: int, k: nat)
    requires radix >= 2 && Digits(k, Q, radix) && ReadsAs(Product(k + 1, 0, radix, E - Q), b)
    ensures HasShort(b, radix, Q)
  {
    hide Pow, PowR, Product, ReadsAs;
    if k + 1 < Pow(radix, Q) {
      assert ShortReads(b, radix, Q, k + 1, E - Q);
    } else {
      GridPower(radix, Q, E - Q);
      GridPower(radix, 0, E);
      PowNext(radix, 0);
      PowStrict(radix, 0, Q);
      assert Q + (E - Q) == 0 + E;
      assert ShortReads(b, radix, Q, 1, E);
    }
  }

  /** A shorter number that reads back lies above the double, and so does the next candidate. */
  lemma {:induction false} ShorterForces(m: nat, e: int, radix: nat, Q: nat, E0: int, k: nat, c: nat, F: int)
    requires IsRadix(radix) && Q >= 1 && Representable(m, e) && e <= 1024 && LogFloor(radix, e, E0)
    requires k == Rejected(m, e, radix, Q, E0) && Digits(k, Q, radix)
    requires !ReadsAs(Product(k, 0, radix, Bumped(m, e, radix, Q, E0) - Q), Pack(m, e))
    requires ShortReads(Pack(m, e), radix, Q, c, F)
    ensures ReadsAs(Product(k + 1, 0, radix, Bumped(m, e, radix, Q, E0) - Q), Pack(m, e))
    ensures !Symmetric(Pack(m, e))
  {
    hide Pow, PowR, Product, ReadsAs, Pack, Candidate, Bumped, LogFloor, DoubleAt, Rounded, Digits, Symmetric, ValueOf,
         Representable;
    var b, E := Pack(m, e), Bumped(m, e, radix, Q, E0);
    var x, y, w := DoubleAt(b), Product(c, 0, radix, F), Product(k, 0, radix, E - Q);
    SignificandOf64(m, e);
    SelfValue(m, e);
    PackedInside(m, e);
    ReadsIsRounds(x, m, e);
    BumpedBeats(m, e, radix, Q, E0, k, c, F);
    if y <= x || Symmetric(b) {
      NearerReads(b, w, y);
      assert false;
    }
    if w >= x {
      Convex(b, x, w, y);
      assert false;
    }
    NextBelow(m, e, radix, Q, E0, k, c, F);
    Convex(b, x, Product(k + 1, 0, radix, E - Q), y);
  }

  lemma {:induction false} PackedInside(m: nat, e: int)
    requires Representable(m, e) && e <= 1024
    ensures 0 < Pack(m, e) < INFINITY
  {
    hide Pow, PowR, Pack, ReadsAs, Rounded, ValueOf;
    SignificandOf64(m, e);
    PackKinds(m, e);
    SelfValue(m, e);
    ReadsIsRounds(ValueOf(m, e), m, e);
    ReadsBounded(ValueOf(m, e), Pack(m, e));
  }

  /** Between the double and a shorter number above it stands the next candidate. */
  lemma {:induction false} NextBelow(m: nat, e: int, radix: nat, Q: nat, E0: int, k: nat, c: nat, F: int)
    requires radix >= 2 && Q >= 1 && 0 < c < Pow(radix, Q)
    requires k == Rejected(m, e, radix, Q, E0) && Digits(k, Q, radix)
    requires var u := Bumped(m, e, radix, Q, E0) - Q;
             Product(k, 0, radix, u) < ValueOf(m, e) < Product(c, 0, radix, F)
    ensures var u := Bumped(m, e, radix, Q, E0) - Q;
            ValueOf(m, e) <= Product(k + 1, 0, radix, u) <= Product(c, 0, radix, F)
  {
    hide Pow, PowR, Product, Candidate, Bumped, ValueOf, Times;
    var E := Bumped(m, e, radix, Q, E0);
    var g := PowR(radix, E - Q);
    OnGrid(m, e, radix, Q, E, k, 0);
    PlainProduct(k, radix, E - Q);
    PlainProduct(k + 1, radix, E - Q);
    TDistribute(g, k as real, 1.0);
    TUnit(g);
    var i := FewDigits(c, F, radix, Q, E);
    if F < E - Q {
      GridPower(radix, Q - 1, E - Q);
      assert Q - 1 + (E - Q) == E - 1;
      LargerProduct(Pow(radix, Q - 1), k, radix, E - Q);
      assert false;
    }
    if i <= k {
      LargerProduct(i, k, radix, E - Q);
      assert false;
    }
    LargerProduct(k + 1, i, radix, E - Q);
  }

  /** The digits printed for a double that is not a whole number below 2^53: fewer digits
      read back if and only if the candidate after the rejected one does, and never for a
      double whose neighbours are equally far. */
  lemma {:induction false} PrintedShortest(bits: nat, d: seq<char>, E: int, radix: nat, mode: ExpMode)
    requires IsRadix(radix) && FiniteNonZero(bits) && -1080 <= Unpack(bits).e <= 1024
    requires Chosen(d, E, Unpack(bits).m, Unpack(bits).e, radix, mode)
    requires mode == Enabled || !IsWhole(Unpack(bits).m, Unpack(bits).e)
    ensures Symmetric(bits % SIGN) ==> !HasShort(bits % SIGN, radix, if |d| > 0 then |d| - 1 else 0)
    ensures |d| > 1 ==>
      var u, E0 := Unpack(bits), 1 + MulLog2(Unpack(bits).e - 1, radix);
      var k, f := Rejected(u.m, u.e, radix, |d| - 1, E0), Bumped(u.m, u.e, radix, |d| - 1, E0) - (|d| - 1);
      k >= 0 && (HasShort(bits % SIGN, radix, |d| - 1) <==> ReadsAs(Product(k + 1, 0, radix, f), bits % SIGN))
  {
    hide Pow, PowR, Product, ReadsAs, Pack, Rejected, Bumped, LogFloor, HasShort, Symmetric, Representable, TryReads,
         MulLog2, Unpack, DigitString, IsWhole, Attempt, LastTry, Info, ReadValue, FiniteNonZero;
    var u, E0 := Unpack(bits), 1 + MulLog2(Unpack(bits).e - 1, radix);
    UnpackedRange(bits);
    MulLog2Exact(u.e - 1, radix);
    PackedBits(bits);
    if |d| > 1 {
      MaxDigitsPositive(radix);
      LastTryStops(u.m, u.e, radix, Info(radix).maxDigits, E0);
      ShorterExact(u.m, u.e, radix, |d| - 1, E0);
    } else {
      NoShorter(bits % SIGN, radix);
    }
  }

  lemma {:induction false} MaxDigitsPositive(radix: nat)
    requires IsRadix(radix)
    ensures Info(radix).maxDigits >= 1
  {
    hide Info;
    DigitsTable(radix);
  }

  lemma {:induction false} PackedBits(bits: nat)
    requires FiniteNonZero(bits)
    ensures Pack(Unpack(bits).m, Unpack(bits).e) == bits % SIGN
  {
    hide Pack, Pow, Normalizing;
    PackUnpack(bits);
    UnpackedRange(bits);
    PackedInside(Unpack(bits).m, Unpack(bits).e);
  }

  lemma {:induction false} NoShorter(b: nat, radix: nat)
    requires radix > 0
    ensures !HasShort(b, radix, 0)
  {
    hide ReadsAs, Product, Pow;
    PowNext(radix, 0);
  }

  /** The double of the bits, by their sign, exponent and fraction. */
  lemma {:induction false} UnpackValue(bits: nat)
    requires FiniteNonZero(bits)
    ensures ValueOf(Unpack(bits).m, Unpack(bits).e) == DoubleAt(bits % SIGN)
  {
    hide Pack, Pow, PowR, Unpack, DoubleAt, ValueOf, Representable, Rounded;
    UnpackedRange(bits);
    PackedBits(bits);
    SelfValue(Unpack(bits).m, Unpack(bits).e);
  }

  // ----- whole numbers -----

  /** A whole number below 2^53 and its halfway points. */
  lemma {:induction false} WholeHalves(bits: nat)
    requires FiniteNonZero(bits) && IsWhole(Unpack(bits).m, Unpack(bits).e)
    ensures var b, n := bits % SIGN, Quo(Unpack(bits).m, Pow(2, 53 - Unpack(bits).e));
            && 0 < b < INFINITY && n > 0
            && n as real - 0.5 <= Half(b - 1) && Half(b) <= n as real + 0.5
  {
    hide Pow, PowR, Times, Half, DoubleAt, ValueOf, Quo, Rem, Unpack, Pack, Product;
    var u, b := Unpack(bits), bits % SIGN;
    UnpackedRange(bits);
    PackedBits(bits);
    PackedInside(u.m, u.e);
    UnpackValue(bits);
    WholeIs(u.m, u.e);
    WholeGrid(bits);
    Halves(b);
    PowRMonotone(2, GridExp(b) - 1, -1);
    Doubled(0);
    PowRUnit(2);
  }

  lemma {:induction false} WholeIs(m: nat, e: int)
    requires Representable(m, e) && IsWhole(m, e)
    ensures var n := Quo(m, Pow(2, 53 - e)); n > 0 && ValueOf(m, e) == n as real
  {
    hide Pow, PowR, Times, Quo, Rem, Product;
    var w := Pow(2, 53 - e);
    var n := Quo(m, w);
    QuoRemOf(m, w);
    Pow52();
    WholeBelow(m, n, w);
    WholeValue(m, e, n, w, 2);
    PlainProduct(n, 2, 0);
    PowRUnit(2);
    TUnit(n as real);
  }

  lemma {:induction false} WholeGrid(bits: nat)
    requires FiniteNonZero(bits) && 1 <= Unpack(bits).e <= 53
    ensures GridExp(bits % SIGN) <= 0
  {
    hide Pow, Normalizing;
    var b := bits % SIGN;
    assert b / TWO52 == (bits / TWO52) % 2048;
  }

  /** A whole number with its trailing zeros taken off is written with the fewest digits
      that read back. */
  lemma {:induction false} WholeShortest(bits: nat, radix: nat, a: nat, z: nat, P: nat)
    requires IsRadix(radix) && FiniteNonZero(bits) && IsWhole(Unpack(bits).m, Unpack(bits).e)
    requires Quo(Unpack(bits).m, Pow(2, 53 - Unpack(bits).e)) == a * Pow(radix, z)
    requires a % radix != 0 && Digits(a, P, radix)
    ensures !HasShort(bits % SIGN, radix, P - 1)
  {
    hide Pow, PowR, Half, ReadsAs, Product, Quo, Unpack, IsWhole;
    var b, n := bits % SIGN, a * Pow(radix, z);
    WholeHalves(bits);
    if HasShort(b, radix, P - 1) {
      var c: nat, F: int :| ShortReads(b, radix, P - 1, c, F);
      var y := Product(c, 0, radix, F);
      ReadsInside(y, b);
      ReadsBetween(y, b, -1075, 1024);
      PowNext(radix, 0);
      if F >= 0 {
        WholeMultiple(radix, c, F, n);
        SameWhole(radix, c, F, a, z, P - 1);
      } else {
        FarBelow(radix, c, F, a, z, P - 1);
      }
      assert false;
    }
  }

  lemma {:induction false} WholeMultiple(radix: nat, c: nat, F: nat, n: nat)
    requires radix > 0 && n as real - 0.5 <= Product(c, 0, radix, F) <= n as real + 0.5
    ensures c * Pow(radix, F) == n
  {
    hide Pow, PowR, Times, Product;
    PlainProduct(c, radix, F);
    PowRNat(radix, F);
    TNat(c, Pow(radix, F));
    var j := c * Pow(radix, F);
    assert j as real == Product(c, 0, radix, F);
  }

  /** Two ways to write a number: the one without trailing zeros has no more digits. */
  lemma {:induction false} SameWhole(radix: nat, c: nat, F: nat, a: nat, z: nat, Q: nat)
    requires radix >= 2 && c * Pow(radix, F) == a * Pow(radix, z) && 0 < c < Pow(radix, Q) <= a
    ensures a % radix == 0
  {
    hide Pow;
    if F <= z {
      PowMonotone(radix, F, z);
      MulMonotone(Pow(radix, F), Pow(radix, z), c);
      MulMonotone(c + 1, a, Pow(radix, z));
      Distribute(Pow(radix, z), c, 1);
      assert false;
    }
    var k := F - z - 1;
    PowAdd(radix, F - z, z);
    PowNext(radix, k);
    var w := Pow(radix, k);
    Assoc(c, Pow(radix, F - z), Pow(radix, z));
    Cancel(a, c * Pow(radix, F - z), Pow(radix, z));
    Assoc(c, w, radix);
    DivModUnique(a, radix, c * w, 0);
  }

  lemma {:induction false} Cancel(a: nat, b: nat, w: nat)
    requires w > 0 && a * w == b * w
    ensures a == b
  {
    if a < b {
      MulMonotone(a + 1, b, w);
      Distribute(w, a, 1);
    } else if b < a {
      MulMonotone(b + 1, a, w);
      Distribute(w, b, 1);
    }
  }

  lemma {:induction false} FarBelow(radix: nat, c: nat, F: int, a: nat, z: nat, Q: nat)
    requires radix >= 2 && F < 0 && 0 < c < Pow(radix, Q) <= a && Q >= 1
    ensures Product(c, 0, radix, F) < (a * Pow(radix, z)) as real - 0.5
  {
    hide Pow, PowR, Product;
    var i := FewDigits(c, F, radix, Q, Q);
    PowRNat(radix, Q - 1);
    PowNext(radix, Q - 1);
    MulMonotone(2, radix, Pow(radix, Q - 1));
    MulMonotone(1, Pow(radix, z), a);
  }

  // ----- a power of two that is printed longer than need be -----

  /** 2^-44. */
  const POWER_BITS: nat := 979 * TWO52

  lemma {:induction false} PowerUnpacked()
    ensures FiniteNonZero(POWER_BITS) && Unpack(POWER_BITS) == Unpacked(false, TWO52, -43)
            && POWER_BITS % SIGN == POWER_BITS
  {}

  lemma {:induction false} TenPowers()
    ensures Pow(10, 16) == 10000000000000000 && Pow(10, 17) == 100000000000000000
    ensures Pow(10, 29) == 100000000000000000000000000000 && Pow(10, 30) == 1000000000000000000000000000000
  {
    assert Pow(10, 4) == 10000 && Pow(10, 1) == 10;
    hide Pow;
    PowAdd(10, 4, 4);
    PowAdd(10, 8, 8);
    PowAdd(10, 16, 1);
    PowAdd(10, 8, 4);
    PowAdd(10, 17, 12);
    PowAdd(10, 29, 1);
  }

  lemma {:induction false} TwoPowers()
    ensures Pow(2, 44) == 17592186044416 && Pow(2, 98) == 316912650057057350374175801344
  {
    assert Pow(2, 5) == 32 && Pow(2, 6) == 64;
    hide Pow;
    PowAdd(2, 5, 6);
    PowAdd(2, 11, 11);
    PowAdd(2, 22, 22);
    PowAdd(2, 44, 5);
    PowAdd(2, 49, 49);
  }

  lemma {:induction false} TinyPowers()
    ensures PowR(2, -44) * 17592186044416.0 == 1.0 && PowR(2, -98) * 316912650057057350374175801344.0 == 1.0
    ensures PowR(10, 29) == 100000000000000000000000000000.0 && PowR(10, 30) == 1000000000000000000000000000000.0
    ensures PowR(10, -29) * 100000000000000000000000000000.0 == 1.0
  {
    hide Pow, PowR;
    TenPowers();
    TwoPowers();
    PowRNat(2, 44);
    PowRNat(2, 98);
    PowRNat(10, 29);
    PowRNat(10, 30);
    PowRInverse(2, 44);
    PowRInverse(2, 98);
    PowRInverse(10, 29);
  }

  lemma {:induction false} PowerValue()
    ensures ValueOf(TWO52, -43) == PowR(2, -44)
  {
    Pow52();
    hide Pow, PowR, Times;
    SignificandRange(TWO52, -43);
    PowNext(2, 52);
  }

  /** Its candidates of 16 and 17 digits. */
  lemma {:induction false} PowerCandidates()
    ensures Candidate(TWO52, -43, 10, 16, -13) == 5684341886080801
    ensures Candidate(TWO52, -43, 10, 17, -13) == 56843418860808015
  {
    hide PowR;
    TinyPowers();
    PowerValue();
    assert Shift(TWO52, -43, 10, 16, -13) == PowR(2, -44) * 100000000000000000000000000000.0;
    assert Shift(TWO52, -43, 10, 17, -13) == PowR(2, -44) * 1000000000000000000000000000000.0;
  }

  lemma {:induction false} PowerExponent()
    ensures MulLog2(-44, 10) == -14 && Info(10).maxDigits == 17
  {
    assert RadixBits(10) == 0;
    hide RadixBits;
  }

  /** The 16-digit candidate lies more than half a place below, the next one up less than
      half a place above. */
  lemma {:induction false} PowerReads()
    ensures !ReadsAs(Product(5684341886080801, 0, 10, -29), POWER_BITS)
    ensures ReadsAs(Product(5684341886080802, 0, 10, -29), POWER_BITS)
  {
    hide PowR, ReadsAs, Half, DoubleAt, Product;
    TinyPowers();
    var w, r := PowR(2, -98), PowR(10, -29);
    PlainProduct(5684341886080801, 10, -29);
    PlainProduct(5684341886080802, 10, -29);
    Halves(POWER_BITS);
    PowerHalves();
    var lo, hi := Product(5684341886080801, 0, 10, -29), Product(5684341886080802, 0, 10, -29);
    assert lo == 5684341886080801.0 * r && hi == 5684341886080802.0 * r;
    LargestHalf(POWER_BITS);
    LargestHalf(POWER_BITS - 1);
    ReadsBetween(hi, POWER_BITS, -1075, 1024);
    if ReadsAs(lo, POWER_BITS) {
      ReadsInside(lo, POWER_BITS);
      ReadsBetween(lo, POWER_BITS, -1075, 1024);
    }
  }

  lemma {:induction false} PowerHalves()
    ensures var w := PowR(2, -98);
            && DoubleAt(POWER_BITS) == 18014398509481984.0 * w
            && PowR(2, GridExp(POWER_BITS) - 1) == 2.0 * w && PowR(2, GridExp(POWER_BITS - 1) - 1) == w
  {
    hide PowR, DoubleAt, ValueOf;
    assert GridExp(POWER_BITS) == -96 && GridExp(POWER_BITS - 1) == -97;
    hide GridExp;
    Doubled(-97);
    TinyPowers();
    PowerUnpacked();
    UnpackValue(POWER_BITS);
    PowerValue();
  }

  /** 2^-44 in radix 10 is printed with the 17 digits 56843418860808015, although the 16
      digits 5684341886080802 read back: the search gives up at 5684341886080801. */
  lemma {:induction false} NotShortest(d: seq<char>, E: int, mode: ExpMode)
    requires Chosen(d, E, TWO52, -43, 10, mode)
    ensures FiniteNonZero(POWER_BITS) && Unpack(POWER_BITS) == Unpacked(false, TWO52, -43)
    ensures |d| == 17 && ReadValue(d, 10) == 56843418860808015 && HasShort(POWER_BITS, 10, 16)
  {
    hide Pow, PowR, ReadsAs, Product, Candidate, Rounded, DigitString, ReadValue, Pack, MulLog2, Info, TryReads;
    PowerExponent();
    PowerCandidates();
    PowerReads();
    TenPowers();
    PowerTried();
    PowerUnpacked();
    assert ShortReads(POWER_BITS, 10, 16, 5684341886080802, -29);
  }

  lemma {:induction false} PowerTried()
    ensures Bumped(TWO52, -43, 10, 17, -13) == Bumped(TWO52, -43, 10, 16, -13) == -13
    ensures Attempt(TWO52, -43, 10, 17, -13) == (56843418860808015, 17)
    ensures !TryReads(TWO52, -43, 10, 16, -13)
    ensures LastTry(TWO52, -43, 10, 17, -13) == 17
  {
    hide Pow, PowR, ReadsAs, Product, Candidate, Rounded, Pack, Unpack, Representable;
    PowerCandidates();
    TenPowers();
    PowerReads();
    PowerUnpacked();
    UnpackedRange(POWER_BITS);
    PackedBits(POWER_BITS);
    ReadsIsRounds(Product(5684341886080801, 0, 10, -29), TWO52, -43);
    assert Bumped(TWO52, -43, 10, 16, -13) == -13;
    assert !TryReads(TWO52, -43, 10, 16, -13);
  }
}
