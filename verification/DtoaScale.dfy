/** Multiplying by a power of the radix, exactly up to a sticky bit, and the two
    roundings built on it. */
module DtoaScale {
  import opened DtoaPow
  import opened DtoaLimbs
  import opened DtoaBits
  import opened DtoaBig
  import opened DtoaDivide
  import opened DtoaReal
  import opened DtoaRound
  import opened DtoaTables
  import opened DtoaPowers

  /** The odd part of a radix. */
  predicate OddPart(radix1: nat) { 1 <= radix1 <= 35 && radix1 % 2 == 1 }

  function Abs(x: int): nat { if x < 0 then -x else x }
  function Min(a: int, b: int): int { if a < b then a else b }
  function Max(a: int, b: int): int { if a > b then a else b }

  /** v * radix1^f * 2^k, exactly for f >= 0, with a sticky bit otherwise. */
  ghost function ScaledBy(v: nat, radix1: nat, f: int, k: nat): nat
    requires radix1 > 0
  {
    if f >= 0 then v * Pow(radix1, f) * Pow(2, k) else Sticky(v * Pow(2, k), Pow(radix1, -f))
  }

  // ----- powers that fit a limb -----

  lemma {:induction false} OddBase(radix1: nat)
    requires OddPart(radix1) && radix1 > 1
    ensures IsRadix(radix1) && Info(radix1).limbBase != 0
  {}

  lemma {:induction false} LimbPower(radix1: nat, n: nat)
    requires OddPart(radix1) && radix1 > 1 && n <= Info(radix1).limbDigits
    ensures 0 < Pow(radix1, n) < BASE
  {
    OddBase(radix1);
    LimbTable(radix1);
    hide Info, Pow;
    PowMonotone(radix1, n, Info(radix1).limbDigits);
  }

  // ----- mul_pow, f >= 0 -----

  method MulUp(a: Mpb, radix1: nat, f: nat)
    requires a.Normal() && OddPart(radix1) && radix1 > 1 && a.len + f <= a.tab.Length
    modifies a, a.tab
    ensures a.Normal() && a.Value() == old(a.Value()) * Pow(radix1, f) && a.len <= old(a.len) + f
  {
    hide Val, Pow, Info, NormalLimbs;
    LimbTable(radix1);
    PowNext(radix1, 0);
    var d := Info(radix1).limbDigits;
    ghost var v := a.Value();
    var g, n0, b: limb := f, 0, 0;
    while g != 0
      invariant 0 <= g <= f && a.Normal() && a.len <= old(a.len) + (f - g)
      invariant a.Value() == v * Pow(radix1, f - g)
      invariant 0 <= n0 <= d && (n0 > 0 ==> b == Pow(radix1, n0))
    {
      var n := Min(g, d);
      LimbPower(radix1, n);
      if n != n0 {
        b := PowUi(radix1, n);
        n0 := n;
      }
      PowAdd(radix1, f - g, n);
      Assoc(v, Pow(radix1, f - g), Pow(radix1, n));
      assert f - g + n == f - (g - n);
      a.TimesLimb(b);
      g := g - n;
    }
  }

  // ----- mul_pow, f < 0 -----

  /** The chained truncating divisions: together they divide by the whole power,
      and some remainder is nonzero exactly when the division is inexact. */
  method DivDown(a: Mpb, radix1: nat, f: nat) returns (inexact: bool)
    requires a.Valid() && OddPart(radix1) && radix1 > 1 && f > 0
    modifies a, a.tab
    ensures a.Normal() && a.len <= old(a.len)
    ensures a.Value() == old(a.Value()) / Pow(radix1, f)
    ensures inexact <==> old(a.Value()) % Pow(radix1, f) != 0
  {
    hide Val, Pow, Info, NormalLimbs, ReciprocalOf;
    LimbTable(radix1);
    PowNext(radix1, 0);
    var d := Info(radix1).limbDigits;
    ghost var v := a.Value();
    var g, n0, b: limb, inv: limb, shift: nat := f, 0, 0, 0, 0;
    inexact := false;
    while g != 0
      invariant 0 <= g <= f && a.Valid() && a.len <= old(a.len) && (g < f ==> a.Normal())
      invariant Divided(v, Pow(radix1, f - g), a.Value(), inexact)
      invariant 0 <= n0 <= d
      invariant n0 > 0 ==>
                  && shift < LIMB_BITS && b >= HALF && b == Pow(radix1, n0) * Pow(2, shift)
                  && inv == ReciprocalOf(b)
    {
      var n := Min(g, d);
      LimbPower(radix1, n);
      if n != n0 {
        b, inv, shift := PowUiInv(radix1, n);
        n0 := n;
      }
      PowAdd(radix1, f - g, n);
      assert f - g + n == f - (g - n);
      DividedNext(v, Pow(radix1, f - g), a.Value(), inexact, Pow(radix1, n));
      var r := a.DivideBy(b, inv, shift, Pow(radix1, n));
      inexact := inexact || r != 0;
      g := g - n;
    }
  }

  ghost predicate Divided(v: nat, d: nat, q: nat, inexact: bool)
  {
    d > 0 && q == v / d && (inexact <==> v % d != 0)
  }

  lemma {:induction false} DividedNext(v: nat, d: nat, q: nat, inexact: bool, b: nat)
    requires Divided(v, d, q, inexact) && b > 0
    ensures d * b > 0 && Divided(v, d * b, q / b, inexact || q % b != 0)
  {
    DivDiv(v, d, b);
  }

  // ----- mul_pow -----

  /** Enough bits remain above the binary point: radix1^f < 2^(32 l). */
  lemma {:induction false} DivisorBound(radix1: nat, f: nat, l: nat)
    requires OddPart(radix1) && radix1 > 1 && l == (f + Info(radix1).limbDigits - 1) / Info(radix1).limbDigits
    ensures Pow(radix1, f) <= Pow(2, 32 * l)
  {
    LimbTable(radix1);
    OddBase(radix1);
    hide Info, Pow;
    var d := Info(radix1).limbDigits;
    Euclid(f + d - 1, d);
    PowMonotone(radix1, f, d * l);
    PowPow(radix1, d, l);
    PowBase(Pow(radix1, d), BASE, l);
    BaseIsPow();
    PowPow(2, 32, l);
  }

  lemma {:induction false} PowBase(a: nat, b: nat, k: nat)
    requires a <= b
    ensures Pow(a, k) <= Pow(b, k)
  {
    if k > 0 {
      PowBase(a, b, k - 1);
      MulMonotone(a, b, Pow(a, k - 1));
      MulMonotone(Pow(a, k - 1), Pow(b, k - 1), b);
    }
  }

  lemma {:induction false} QuotientBound(v: nat, fl: nat, extra: nat, l: nat, e: nat, d: nat)
    requires Pow(2, fl) <= v && fl + extra >= e && 0 < d <= Pow(2, 32 * l)
    ensures v * Pow(2, 32 * l + extra) / d >= Pow(2, e)
  {
    hide Pow;
    PowAdd(2, 32 * l, extra);
    PowAdd(2, fl, extra);
    PowMonotone(2, e, fl + extra);
    var w, x, y := Pow(2, e), Pow(2, 32 * l), Pow(2, extra);
    MulMonotone(Pow(2, fl), v, y);
    Assoc(v, y, x);
    MulMonotone(w, v * y, x);
    MulMonotone(d, x, w);
    var a := v * Pow(2, 32 * l + extra);
    assert a >= w * d;
    QuotientAtLeast(a, d, w);
  }

  lemma {:induction false} QuotientAtLeast(a: nat, d: nat, w: nat)
    requires d > 0 && a >= w * d
    ensures a / d >= w
  {
    Euclid(a, d);
    if a / d < w {
      MulMonotone(a / d + 1, w, d);
      Distribute(d, a / d, 1);
    }
  }

  lemma {:induction false} StickyPositive(a: nat, d: nat)
    requires a > 0 && d > 0
    ensures Sticky(a, d) > 0 && Sticky(a, d) >= a / d
  {
    Euclid(a, d);
  }

  /** a := a * (radix1 * 2^radixShift)^f * 2^eOffset, with the exact or sticky
      result described by k = eOffset + f * radixShift extra bits. */
  method MulPow(a: Mpb, radix1: nat, radixShift: nat, f: int, isInt: bool, e: int) returns (eOffset: int)
    requires a.Normal() && a.Value() > 0 && OddPart(radix1)
    requires a.len + Abs(f) + Abs(e) + 4 <= a.tab.Length
    modifies a, a.tab
    ensures a.Normal() && a.Value() > 0 && a.len <= old(a.len) + Abs(f) + Abs(e) + 4
    ensures eOffset + f * radixShift >= 0
    ensures a.Value() == ScaledBy(old(a.Value()), radix1, f, eOffset + f * radixShift)
    ensures f >= 0 || radix1 == 1 ==> eOffset + f * radixShift == 0
    ensures f < 0 && radix1 > 1 && isInt ==> eOffset >= e + 2
    ensures f < 0 && radix1 > 1 && !isInt && e >= 0 ==> a.Value() >= Pow(2, e)
  {
    ghost var v := a.Value();
    eOffset := -f * radixShift;
    assert eOffset + f * radixShift == 0;
    hide Val, Pow, Info, NormalLimbs;
    PowNext(2, 0);
    if radix1 == 1 {
      PowOne(Abs(f));
      StickyExact(v);
    } else if f >= 0 {
      PowNext(radix1, 0);
      MulAtLeast(Pow(radix1, f), v);
      PowNext(2, 0);
      MulUp(a, radix1, f);
    } else {
      var k := MulPowDown(a, radix1, eOffset, -f, isInt, e);
      eOffset := eOffset + k;
    }
  }

  /** The negative powers: shift up by k bits, then divide. */
  method MulPowDown(a: Mpb, radix1: nat, e0: nat, f: nat, isInt: bool, e: int) returns (k: nat)
    requires a.Normal() && a.Value() > 0 && OddPart(radix1) && radix1 > 1 && f > 0
    requires a.len + f + Abs(e) + 4 <= a.tab.Length
    modifies a, a.tab
    ensures a.Normal() && a.Value() > 0 && a.len <= old(a.len) + f + Abs(e) + 4
    ensures a.Value() == Sticky(old(a.Value()) * Pow(2, k), Pow(radix1, f))
    ensures isInt ==> e0 + k >= e + 2
    ensures !isInt && e >= 0 ==> a.Value() >= Pow(2, e)
  {
    hide Val, Pow, Info, NormalLimbs;
    ghost var v := a.Value();
    LimbTable(radix1);
    var d := Info(radix1).limbDigits;
    var l := (f + d - 1) / d;
    LimbCount(f, d);
    var extra;
    ghost var fl := 0;
    if !isInt {
      var t := a.FloorLog2();
      fl := t;
      extra := Max(e - t, 0);
    } else {
      extra := Max(2 + e - (e0 + l * LIMB_BITS), 0);
    }
    k := l * LIMB_BITS + extra;
    ghost var num, den := v * Pow(2, k), Pow(radix1, f);
    MulAtLeast(v, Pow(2, k));
    StickyPositive(num, den);
    if !isInt && e >= 0 {
      DivisorBound(radix1, f, l);
      QuotientBound(v, fl, extra, l, e, den);
    }
    a.ShiftUp(k);
    var inexact := DivDown(a, radix1, f);
    if inexact {
      a.SetLowBit();
    }
  }

  lemma {:induction false} LimbCount(f: nat, d: nat)
    requires d >= 1
    ensures (f + d - 1) / d <= f
  {
    if f > 0 {
      var q := (f + d - 1) / d;
      Euclid(f + d - 1, d);
      if q > f {
        MulMonotone(f + 1, q, d);
        Distribute(d, f, 1);
        MulAtLeast(d, f);
      }
    } else {
      DivModUnique(d - 1, d, 0, d - 1);
    }
  }

  lemma {:induction false} PowOne(k: nat)
    ensures Pow(1, k) == 1
  {
    if k > 0 {
      PowOne(k - 1);
    }
  }

  lemma {:induction false} StickyExact(v: nat)
    ensures Sticky(v, 1) == v
  {}

  // ----- what the scaled number stands for -----

  /** v * 2^e * radix^f */
  ghost function Product(v: nat, e: int, radix: nat, f: int): real
    requires radix > 0
  {
    Times(Times(v as real, PowR(2, e)), PowR(radix, f))
  }

  /** The exact value behind ScaledBy. */
  ghost function Behind(v: nat, radix1: nat, f: int, k: nat): real
    requires radix1 > 0
  {
    Times(Times(v as real, PowR(radix1, f)), PowR(2, k))
  }

  lemma {:induction false} BehindExact(v: nat, radix1: nat, f: int, k: nat)
    requires radix1 > 0 && f >= 0
    ensures Behind(v, radix1, f, k) == ScaledBy(v, radix1, f, k) as real
  {
    hide Times, PowR, Pow, Sticky;
    PowRNat(radix1, f);
    PowRNat(2, k);
    TNat(v, Pow(radix1, f));
    TNat(v * Pow(radix1, f), Pow(2, k));
  }

  lemma {:induction false} BehindSticky(v: nat, radix1: nat, f: int, k: nat)
    requires radix1 > 0 && f < 0
    ensures IsSticky(ScaledBy(v, radix1, f, k), Behind(v, radix1, f, k), v * Pow(2, k), Pow(radix1, -f))
  {
    hide Times, PowR, Pow, Sticky;
    PowRNat(radix1, -f);
    PowRNat(2, k);
    PowRInverse(radix1, f);
    TNat(v, Pow(2, k));
    var x, p, q, w := v as real, PowR(radix1, f), PowR(radix1, -f), PowR(2, k);
    TAssoc(Times(x, p), w, q);
    TComm(w, q);
    TAssoc(Times(x, p), q, w);
    TAssoc(x, p, q);
    TUnit(x);
  }

  lemma {:induction false} BehindPlain(v: nat, f: int)
    ensures Behind(v, 1, f, 0) == v as real == ScaledBy(v, 1, f, 0) as real
  {
    hide Times, PowR, Pow;
    PowOne(Abs(f));
    PowNext(2, 0);
    StickyExact(v);
    PowRUnit(2);
    TUnit(v as real);
    if f >= 0 {
      PowRNat(1, f);
    } else {
      PowRNat(1, -f);
      PowRInverse(1, f);
      TUnit(PowR(1, f));
    }
  }

  lemma {:induction false} RadixPower(radix1: nat, s: nat, f: int)
    requires radix1 > 0
    ensures radix1 * Pow(2, s) > 0
    ensures PowR(radix1 * Pow(2, s), f) == Times(PowR(radix1, f), PowR(2, s * f))
  {
    hide Times, PowR, Pow;
    PowRMul(radix1, Pow(2, s), f);
    PowRPow(2, s, f);
  }

  /** The offset accounts for the radix's power of two and the extra bits. */
  lemma {:induction false} ProductBehind(v: nat, radix1: nat, s: nat, f: int, k: nat, e: int, eOffset: int)
    requires radix1 > 0 && eOffset + f * s == k
    ensures radix1 * Pow(2, s) > 0
    ensures Times(Behind(v, radix1, f, k), PowR(2, e - eOffset)) == Product(v, e, radix1 * Pow(2, s), f)
  {
    hide Times, PowR, Pow;
    RadixPower(radix1, s, f);
    var x, p := v as real, PowR(radix1, f);
    assert s * f == f * s;
    Rescale(Times(x, p), k, e - eOffset, e + s * f);
    TInterchange(x, PowR(2, e), p, PowR(2, s * f));
    PowRSum(e, s * f, e + s * f);
  }

  // ----- mul_pow_round -----

  /** Limbs that suffice for scaling by radix^f and 2^e. */
  function Capacity(f: int, e: int): nat { 8 + 7 * Abs(f) + 2 * Abs(e) }

  /** The nearest integer to m * 2^e * radix^f. */
  method MulPowRound(a: Mpb, m: nat, e: int, radix1: nat, radixShift: nat, f: int, mode: RoundMode)
    requires 0 < m < 0x1_0000_0000_0000_0000 && OddPart(radix1) && radixShift <= 5
    requires Capacity(f, e) <= a.tab.Length
    modifies a, a.tab
    ensures a.Normal() && radix1 * Pow(2, radixShift) > 0
    ensures a.Value() == Nearest(Product(m, e, radix1 * Pow(2, radixShift), f), mode)
  {
    hide Val, Pow, Times, PowR, Nearest, NormalLimbs, Behind, Product, ScaledBy, RoundShift;
    a.SetU64(m);
    var eOffset := MulPow(a, radix1, radixShift, f, true, e);
    ghost var k := eOffset + f * radixShift;
    ProductBehind(m, radix1, radixShift, f, k, e, eOffset);
    ShiftBound(f, radixShift);
    ScaledRounds(m, radix1, f, k, -e + eOffset, mode);
    a.ShrRound(-e + eOffset, mode);
  }

  lemma {:induction false} ShiftBound(f: int, s: nat)
    requires s <= 5
    ensures -5 * Abs(f) <= f * s <= 5 * Abs(f)
  {
    MulMonotone(s, 5, Abs(f));
  }

  lemma {:induction false} ScaledRounds(v: nat, radix1: nat, f: int, k: nat, s: int, mode: RoundMode)
    requires radix1 > 0 && (f < 0 && radix1 > 1 ==> s >= 2) && (radix1 == 1 ==> k == 0)
    ensures RoundShift(ScaledBy(v, radix1, f, k), s, mode) == Nearest(Times(Behind(v, radix1, f, k), PowR(2, -s)), mode)
  {
    hide Pow, Times, PowR, Nearest, Behind, ScaledBy, RoundQuot;
    if radix1 == 1 {
      BehindPlain(v, f);
      RoundShiftIsNearest(v, s, mode);
    } else if f >= 0 {
      BehindExact(v, radix1, f, k);
      RoundShiftIsNearest(ScaledBy(v, radix1, f, k), s, mode);
    } else {
      BehindSticky(v, radix1, f, k);
      StickyRounds(v * Pow(2, k), Pow(radix1, -f), s, Behind(v, radix1, f, k), mode);
    }
  }

  // ----- round_to_d -----

  /** Rounds a * 2^-eOffset to a double; x is the exact value a stands for. */
  method RoundToD(a: Mpb, eOffset: int, mode: RoundMode, ghost x: real) returns (m: nat, e: int)
    requires a.Normal() && a.Value() > 0 && Stands(a.Value(), x)
    requires a.len + 3 <= a.tab.Length
    modifies a, a.tab
    ensures Rounded(Times(x, PowR(2, -eOffset)), m, e, mode)
  {
    hide Val, Pow, Times, PowR, Nearest, NormalLimbs, RoundShift, Rounded, RoundedAt, Stands, Word64,
         PrecisionAt;
    var fl := a.FloorLog2();
    e := fl + 1 - eOffset;
    var prec := PrecisionAt(e);
    ShiftRounds(a.Value(), x, fl, e, mode);
    a.ShrRound(e + eOffset - prec, mode);
    var word := a.GetU64();
    Carried(x, fl, eOffset, e, a.Value(), mode);
    m := Word64(word * Pow(2, 53 - prec));
    if m >= Pow(2, 53) {
      m := m / 2;
      e := e + 1;
    }
  }

  /** The shift of round_to_d rounds the exact value. */
  lemma {:induction false} ShiftRounds(v: nat, x: real, fl: nat, t: int, mode: RoundMode)
    requires v > 0 && Stands(v, x) && Pow(2, fl) <= v < Pow(2, fl + 1)
    ensures PrecisionAt(t) <= 53 && PowR(2, fl) <= x < PowR(2, fl + 1)
    ensures var k := fl + 1 - PrecisionAt(t);
            RoundShift(v, k, mode) == Nearest(Times(x, PowR(2, -k)), mode)
  {
    hide Pow, Times, PowR, Nearest, RoundShift, Stands;
    var prec := PrecisionAt(t);
    DropsBits(v, x, fl, prec);
    StandsRounds(v, x, fl + 1 - prec, mode);
    StandsBracket(v, x, fl);
  }

  /** What round_to_d makes of the shifted number n: aligned to 53 bits, one place up if it
      carried. */
  lemma {:induction false} Carried(x: real, fl: nat, eOffset: int, t: int, n: nat, mode: RoundMode)
    requires PowR(2, fl) <= x < PowR(2, fl + 1) && t == fl + 1 - eOffset
    requires n == Nearest(Times(x, PowR(2, -(fl + 1 - PrecisionAt(t)))), mode)
    ensures PrecisionAt(t) <= 53
    ensures var w := Word64(Word64(n) * Pow(2, 53 - PrecisionAt(t)));
            Rounded(Times(x, PowR(2, -eOffset)), if w >= Pow(2, 53) then w / 2 else w,
                    if w >= Pow(2, 53) then t + 1 else t, mode)
  {
    hide Pow, Times, PowR, Nearest, Rounded;
    var p := PrecisionAt(t);
    DoubleRange(x, fl, p, mode);
    WordRange(n, p);
    var w := n * Pow(2, 53 - p);
    DoubleResult(x, fl, eOffset, t, p, n, if w >= Pow(2, 53) then w / 2 else w,
                 if w >= Pow(2, 53) then t + 1 else t, mode);
  }

  /** Numbers with a sticky bit lose at least two bits. */
  lemma {:induction false} DropsBits(v: nat, x: real, fl: nat, prec: int)
    requires Pow(2, fl) <= v < Pow(2, fl + 1) && prec <= 53
    ensures v >= Pow(2, 55) ==> fl + 1 - prec >= 2
  {
    hide Pow;
    if v >= Pow(2, 55) {
      LargePower(fl, v);
    }
  }

  lemma {:induction false} DoubleRange(x: real, fl: nat, p: int, mode: RoundMode)
    requires PowR(2, fl) <= x < PowR(2, fl + 1)
    ensures var n := Nearest(Times(x, PowR(2, -(fl + 1 - p))), mode);
            && (p >= 1 ==> Pow(2, p - 1) <= n <= Pow(2, p))
            && (p == 0 ==> 0 <= n <= 1)
            && (p < 0 ==> n == 0)
  {
    hide Pow, Times, PowR, Nearest;
    ScaledBracket(x, fl, -(fl + 1 - p));
    assert fl + -(fl + 1 - p) == p - 1 && fl + 1 + -(fl + 1 - p) == p;
    RoundedRange(Times(x, PowR(2, -(fl + 1 - p))), p, mode);
  }

  /** The rounded number fits 64 bits, and so does the normalized significand. */
  lemma {:induction false} WordRange(n: nat, p: int)
    requires p <= 53 && (p >= 1 ==> n <= Pow(2, p)) && (p == 0 ==> n <= 1) && (p < 0 ==> n == 0)
    ensures n * Pow(2, 53 - p) <= Pow(2, 53) && n <= Pow(2, 53) < 0x1_0000_0000_0000_0000
    ensures p >= 0 ==> (n == Pow(2, p) <==> n * Pow(2, 53 - p) == Pow(2, 53))
    ensures n * Pow(2, 53 - p) == Pow(2, 53) ==> p >= 0 && n == Pow(2, p)
  {
    hide Pow;
    Pow53();
    PowNext(2, 0);
    if p >= 0 {
      PowAdd(2, p, 53 - p);
      Shifted(n, Pow(2, p), Pow(2, 53 - p));
    }
  }

  lemma {:induction false} Pow53()
    ensures Pow(2, 53) == 0x20_0000_0000_0000
  {
    FastPowIsPow(2, 53);
    hide Pow;
  }

  lemma {:induction false} Shifted(n: nat, w: nat, c: nat)
    requires n <= w && c > 0
    ensures n <= n * c <= w * c && (n == w <==> n * c == w * c)
  {
    MulMonotone(n, w, c);
    MulAtLeast(c, n);
    if n < w {
      MulMonotone(n + 1, w, c);
      Distribute(c, n, 1);
    }
  }

  lemma {:induction false} DoubleResult(x: real, fl: nat, eOffset: int, t: int, p: int, n: nat, m: nat, e: int,
          mode: RoundMode)
    requires PowR(2, fl) <= x < PowR(2, fl + 1) && t == fl + 1 - eOffset && p == PrecisionAt(t)
    requires n == Nearest(Times(x, PowR(2, -(fl + 1 - p))), mode)
    requires (p >= 1 ==> Pow(2, p - 1) <= n <= Pow(2, p)) && (p == 0 ==> n <= 1) && (p < 0 ==> n == 0)
    requires var w := n * Pow(2, 53 - p);
             if w >= Pow(2, 53) then m == w / 2 && e == t + 1 else m == w && e == t
    ensures Rounded(Times(x, PowR(2, -eOffset)), m, e, mode)
  {
    hide Pow, Times, PowR, Nearest, Rounded;
    var v := Times(x, PowR(2, -eOffset));
    ScaledBracket(x, fl, -eOffset);
    assert fl + -eOffset == t - 1 && fl + 1 + -eOffset == t;
    var q := LastPlace(t);
    assert q == t - p;
    Rescale(x, -eOffset, -q, -(fl + 1 - p));
    PowNext(2, 0);
    WordRange(n, p);
    if n * Pow(2, 53 - p) >= Pow(2, 53) {
      Overflowed(p, t);
      PowStrict(2, 52, 53);
    } else {
      Renormalized(n, p, t);
    }
    RoundedIntro(v, t, m, e, mode);
  }

  // ----- mul_pow_round_to_d -----

  /** a * radix^f as a double. */
  method MulPowRoundToD(a: Mpb, radix1: nat, radixShift: nat, f: int, mode: RoundMode) returns (m: nat, e: int)
    requires a.Normal() && a.Value() > 0 && OddPart(radix1)
    requires a.len + Abs(f) + 66 <= a.tab.Length
    modifies a, a.tab
    ensures radix1 * Pow(2, radixShift) > 0
    ensures Rounded(Product(old(a.Value()), 0, radix1 * Pow(2, radixShift), f), m, e, mode)
  {
    hide Val, Pow, Times, PowR, NormalLimbs, Behind, Product, ScaledBy, Rounded, Stands;
    ghost var v := a.Value();
    var eOffset := MulPow(a, radix1, radixShift, f, false, 55);
    ghost var k := eOffset + f * radixShift;
    ScaledStands(v, radix1, f, k);
    ProductBehind(v, radix1, radixShift, f, k, 0, eOffset);
    m, e := RoundToD(a, eOffset, mode, Behind(v, radix1, f, k));
  }

  lemma {:induction false} ScaledStands(v: nat, radix1: nat, f: int, k: nat)
    requires radix1 > 0 && (radix1 == 1 ==> k == 0)
    requires f < 0 && radix1 > 1 ==> ScaledBy(v, radix1, f, k) >= Pow(2, 55)
    ensures Stands(ScaledBy(v, radix1, f, k), Behind(v, radix1, f, k))
  {
    hide Pow, Times, PowR, Behind, ScaledBy, IsSticky;
    if radix1 == 1 {
      BehindPlain(v, f);
    } else if f >= 0 {
      BehindExact(v, radix1, f, k);
    } else {
      BehindSticky(v, radix1, f, k);
    }
  }
}
