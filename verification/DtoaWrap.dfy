/** What js_atod makes of digits and exponents: the nearest double, if and only if
    neither its 32-bit exponents nor the digits it drops do harm. */
module DtoaWrap {
  import opened Basics
  import opened DtoaPow
  import opened DtoaBits
  import opened DtoaReal
  import opened DtoaRound
  import opened DtoaTables
  import opened DtoaScale
  import opened DtoaSearch
  import opened DtoaDigits
  import opened DtoaLog
  import opened Dtoa
  import opened DtoaHalf

  // ----- the value against its top exponent -----

  lemma {:induction false} PowerAtLeast(radix: nat, k: int)
    requires radix >= 2 && k >= 0
    ensures PowR(radix, k) >= PowR(2, k)
  {
    hide Pow, PowR;
    PowRNat(radix, k);
    PowRNat(2, k);
    PowBase(2, radix, k);
  }

  lemma {:induction false} PowerAtMost(radix: nat, k: int)
    requires radix >= 2 && k <= 0
    ensures PowR(radix, k) <= PowR(2, k)
  {
    hide Pow, PowR, Times;
    PowerAtLeast(radix, -k);
    PowRInverse(radix, -k);
    PowRInverse(2, -k);
    Inverted(PowR(2, -k), PowR(2, k), PowR(radix, -k), PowR(radix, k));
  }

  /** v ends just below `top`: 2^top in a power-of-two radix, radix^top otherwise. */
  ghost predicate Within(v: real, radix: nat, top: int)
    requires IsRadix(radix)
  {
    if RadixBits(radix) != 0 then PowR(2, top - RadixBits(radix)) <= v < PowR(2, top)
    else PowR(radix, top - 1) <= v < PowR(radix, top)
  }

  lemma {:induction false} ValueWithin(s: seq<char>, radix: nat, top: int)
    requires IsRadix(radix) && Leading(s, radix)
    ensures Within(ValueAt(s, radix, top), radix, top)
  {
    hide Times, PowR, Pow, RadixBits, ReadValue, Product, Digits, Info;
    var k := RadixBits(radix);
    if k != 0 {
      LeadingRange(s, radix);
      Distribute(k, |s|, 0);
      BinaryRange(ReadValue(s, radix), |s|, radix, 0, top - k * |s|);
    } else {
      DigitsTable(radix);
      var n := Kept(s, radix);
      PrefixLeading(s, radix, n);
      LeadingRange(s[..n], radix);
      ProductRange(ReadValue(s[..n], radix), n, radix, top - n);
      assert n - 1 + (top - n) == top - 1 && n + (top - n) == top;
    }
  }

  /** The same in powers of two. */
  lemma {:induction false} WithinRange(v: real, radix: nat, top: int)
    requires IsRadix(radix) && Within(v, radix, top)
    ensures top >= 1 ==> v >= PowR(2, top - 5)
    ensures top <= 0 ==> v < PowR(2, top)
  {
    hide PowR, Pow, RadixBits;
    var k := RadixBits(radix);
    if k != 0 {
      KeptBits([], radix);
      PowRMonotone(2, top - 5, top - k);
    } else if top >= 1 {
      PowerAtLeast(radix, top - 1);
      PowRMonotone(2, top - 5, top - 1);
    } else {
      PowerAtMost(radix, top);
    }
  }

  lemma {:induction false} ValueRange(s: seq<char>, radix: nat, top: int)
    requires IsRadix(radix) && Leading(s, radix)
    ensures top >= 1 ==> ValueAt(s, radix, top) >= PowR(2, top - 5)
    ensures top <= 0 ==> ValueAt(s, radix, top) < PowR(2, top)
  {
    hide PowR, ValueAt, Within, Leading;
    ValueWithin(s, radix, top);
    WithinRange(ValueAt(s, radix, top), radix, top);
  }

  /** A number with a top exponent has bounds. */
  lemma {:induction false} WithinBounds(v: real, radix: nat, top: int) returns (lo: int, hi: int)
    requires IsRadix(radix) && Within(v, radix, top)
    ensures PowR(2, lo) <= v < PowR(2, hi)
  {
    hide PowR, Pow, RadixBits;
    var k := RadixBits(radix);
    if k != 0 {
      lo, hi := top - k, top;
    } else {
      lo, hi := PowerBounds(radix, top - 1);
      var lo1, hi1 := PowerBounds(radix, top);
      hi := hi1;
    }
  }

  lemma {:induction false} PowerBounds(radix: nat, k: int) returns (lo: int, hi: int)
    requires IsRadix(radix)
    ensures PowR(2, lo) <= PowR(radix, k) <= PowR(2, hi)
  {
    hide Pow, PowR, Times;
    var n: nat := if k >= 0 then k else -k;
    PowRNat(radix, n);
    SixBits(radix, n);
    PowRNat(2, n);
    PowRNat(2, 6 * n);
    if k >= 0 {
      lo, hi := n, 6 * n;
    } else {
      lo, hi := 0 - 6 * n, 0 - n;
      PowRInverse(radix, n);
      PowRInverse(2, n);
      PowRInverse(2, 6 * n);
      Inverted(PowR(2, n), PowR(2, 0 - n), PowR(radix, n), PowR(radix, 0 - n));
      Inverted(PowR(radix, n), PowR(radix, 0 - n), PowR(2, 6 * n), PowR(2, 0 - 6 * n));
    }
  }

  lemma {:induction false} SixBits(radix: nat, n: nat)
    requires IsRadix(radix)
    ensures Pow(2, n) <= Pow(radix, n) <= Pow(2, 6 * n)
  {
    assert Pow(2, 6) == 64;
    hide Pow;
    PowBase(2, radix, n);
    PowPow(2, 6, n);
    PowBase(radix, Pow(2, 6), n);
  }

  // ----- the range tests -----

  /** What js_atod compares the top exponent with before it looks at the digits. */
  function UpperGuard(radix: nat): int
    requires IsRadix(radix)
  {
    if RadixBits(radix) != 0 then 1024 + RadixBits(radix) else Logs(radix).maxExponent + 1
  }

  function LowerGuard(radix: nat): int
    requires IsRadix(radix)
  {
    if RadixBits(radix) != 0 then -1075 else Logs(radix).minExponent
  }

  /** A number with this top exponent is read as infinity: its digits matter only
      between the two tests. */
  ghost predicate Overflows(v: real, radix: nat, top: int)
    requires IsRadix(radix)
  {
    top >= UpperGuard(radix) || (top > LowerGuard(radix) && v >= OverflowLimit())
  }

  /** And this one as zero. */
  ghost predicate Underflows(v: real, radix: nat, top: int)
    requires IsRadix(radix)
  {
    top <= LowerGuard(radix) || (top < UpperGuard(radix) && v <= PowR(2, -1075))
  }

  lemma {:induction false} RangeTests(v: real, radix: nat, top: int)
    requires IsRadix(radix) && Within(v, radix, top)
    ensures Overflows(v, radix, top) <==> v >= OverflowLimit()
    ensures Underflows(v, radix, top) <==> v <= PowR(2, -1075)
  {
    hide PowR, Pow, RadixBits, OverflowLimit, Logs;
    LimitBelow();
    PowRStrict(2, -1075, 1023);
    var k := RadixBits(radix);
    if k != 0 {
      if top >= 1024 + k {
        PowRMonotone(2, 1024, top - k);
      }
      if top <= -1075 {
        PowRMonotone(2, top, -1075);
      }
    } else {
      LimitsHold(radix, top - 1);
      LimitsHold(radix, top);
    }
  }

  lemma {:induction false} LimitBelow()
    ensures PowR(2, 1023) <= OverflowLimit() < PowR(2, 1024)
  {
    hide PowR;
    PowRMonotone(2, 970, 1023);
    Doubled(1024);
  }

  // ----- the number and what is kept of it -----

  /** All digits, with their exponents. */
  ghost function FullValue(s: seq<char>, radix: nat, expn: int, bexp: int): real
    requires IsRadix(radix)
  {
    Product(ReadValue(s, radix), bexp, radix, expn)
  }

  lemma {:induction false} FullWithin(s: seq<char>, radix: nat, expn: int, bexp: int)
    requires IsRadix(radix) && Leading(s, radix) && (RadixBits(radix) == 0 ==> bexp == 0)
    ensures Within(FullValue(s, radix, expn, bexp), radix, Top(|s|, radix, expn, bexp))
  {
    hide Times, PowR, Pow, RadixBits, ReadValue, Product, Digits;
    LeadingRange(s, radix);
    if RadixBits(radix) != 0 {
      BinaryRange(ReadValue(s, radix), |s|, radix, expn, bexp);
    } else {
      ProductRange(ReadValue(s, radix), |s|, radix, expn);
      assert |s| - 1 + expn == |s| + expn - 1;
    }
  }

  /** Dropping digits makes the number smaller, if at all. */
  lemma {:induction false} KeptBelow(s: seq<char>, radix: nat, expn: int, bexp: int)
    requires IsRadix(radix) && (RadixBits(radix) == 0 ==> bexp == 0)
    ensures Meant(s, radix, expn, bexp) <= FullValue(s, radix, expn, bexp)
    ensures RadixBits(radix) != 0 || |s| <= Info(radix).atodDigits ==>
              Meant(s, radix, expn, bexp) == FullValue(s, radix, expn, bexp)
  {
    hide Times, PowR, Pow, RadixBits, ReadValue, Info;
    if RadixBits(radix) == 0 {
      var n := Kept(s, radix);
      var z, a := |s| - n, ReadValue(s[..n], radix);
      ZerosMoved(a, z, radix, expn);
      assert expn + z == expn + |s| - n;
      ReadConcat(s[..n], s[n..], radix);
      assert s == s[..n] + s[n..];
      LargerProduct(a * Pow(radix, z), ReadValue(s, radix), radix, expn);
      if n == |s| {
        assert s[..n] == s;
      }
    }
  }

  lemma {:induction false} LargerProduct(a: nat, b: nat, radix: nat, f: int)
    requires radix > 0 && a <= b
    ensures Product(a, 0, radix, f) <= Product(b, 0, radix, f)
  {
    hide Times, PowR;
    PowRUnit(2);
    TUnit(a as real);
    TUnit(b as real);
    TMonotone(a as real, b as real, PowR(radix, f));
  }

  // ----- exact conditions -----

  /** The exponent did not wrap around, or the wrapped number overflows or
      underflows as the number itself does. */
  ghost predicate Unharmed(s: seq<char>, radix: nat, top: int)
    requires IsRadix(radix)
  {
    var w := ToInt32(top);
    var v := ValueAt(s, radix, w);
    || InInt32(top)
    || (top > INT32_MAX && Overflows(v, radix, w))
    || (top < INT32_MIN && Underflows(v, radix, w))
  }

  /** No digit was dropped, or no halfway point comes between what was kept and the
      whole number. */
  ghost predicate Uncut(s: seq<char>, radix: nat, expn: int, bexp: int)
    requires IsRadix(radix)
  {
    || RadixBits(radix) != 0 || |s| <= Info(radix).atodDigits
    || !Separated(Meant(s, radix, expn, bexp), FullValue(s, radix, expn, bexp))
  }

  /** Beyond the range nothing depends on the digits. */
  lemma {:induction false} UncutBeyond(s: seq<char>, radix: nat, expn: int, bexp: int)
    requires IsRadix(radix) && Leading(s, radix) && (RadixBits(radix) == 0 ==> bexp == 0)
    requires !InInt32(Top(|s|, radix, expn, bexp))
    ensures var bits := if Top(|s|, radix, expn, bexp) > INT32_MAX then INFINITY else 0;
            ReadsAs(FullValue(s, radix, expn, bexp), bits) && Uncut(s, radix, expn, bexp)
  {
    hide PowR, Rounded, Meant, Top, ValueAt, Leading, OverflowLimit, Pack, FullValue, Within, Separated, Info,
         RadixBits;
    var top := Top(|s|, radix, expn, bexp);
    var v, m := FullValue(s, radix, expn, bexp), Meant(s, radix, expn, bexp);
    FullWithin(s, radix, expn, bexp);
    WithinRange(v, radix, top);
    MeantAtTop(s, radix, expn, bexp);
    ValueRange(s, radix, top);
    KeptBelow(s, radix, expn, bexp);
    var lo, hi := WithinBounds(v, radix, top);
    if top > INT32_MAX {
      PowRMonotone(2, 1024, top - 5);
      SameNearest(m, v, INFINITY, lo, hi);
    } else {
      PowRStrict(2, top, -1075);
      SameNearest(m, v, 0, lo, hi);
    }
  }

  /** The result is the double nearest to the whole number if and only if neither the
      exponent nor the digits dropped did harm. */
  lemma {:induction false} AtodExact(s: seq<char>, radix: nat, expn: int, bexp: int, bits: nat)
    requires IsRadix(radix) && Leading(s, radix) && (RadixBits(radix) == 0 ==> bexp == 0)
    requires ReadsAs(ValueAt(s, radix, ToInt32(Top(|s|, radix, expn, bexp))), bits)
    ensures ReadsAs(FullValue(s, radix, expn, bexp), bits)
            <==> Unharmed(s, radix, Top(|s|, radix, expn, bexp)) && Uncut(s, radix, expn, bexp)
  {
    hide PowR, ReadsAs, Meant, Top, ValueAt, ToInt32, Leading, OverflowLimit, FullValue, Within, Separated, Info,
         RadixBits, Overflows, Underflows;
    var top := Top(|s|, radix, expn, bexp);
    if InInt32(top) {
      MeantAtTop(s, radix, expn, bexp);
      CutExact(s, radix, expn, bexp, bits);
    } else {
      var w := ToInt32(top);
      UncutBeyond(s, radix, expn, bexp);
      ReadsThresholds(ValueAt(s, radix, w), bits);
      ValueWithin(s, radix, w);
      RangeTests(ValueAt(s, radix, w), radix, w);
      OneNearest(FullValue(s, radix, expn, bexp), if top > INT32_MAX then INFINITY else 0, bits);
    }
  }

  /** A number has one nearest double. */
  lemma {:induction false} OneNearest(v: real, a: nat, b: nat)
    requires ReadsAs(v, a)
    ensures ReadsAs(v, b) <==> a == b
  {
    hide ReadsAs, RoundsDown;
    if ReadsAs(v, b) {
      ReadsBounded(v, a);
      ReadsBounded(v, b);
      if a < b {
        ReadsOrder(v, a, a);
        ReadsOrder(v, b, a);
      } else if b < a {
        ReadsOrder(v, a, b);
        ReadsOrder(v, b, b);
      }
    }
  }

  lemma {:induction false} CutExact(s: seq<char>, radix: nat, expn: int, bexp: int, bits: nat)
    requires IsRadix(radix) && Leading(s, radix) && (RadixBits(radix) == 0 ==> bexp == 0)
    requires ReadsAs(Meant(s, radix, expn, bexp), bits)
    ensures ReadsAs(FullValue(s, radix, expn, bexp), bits) <==> Uncut(s, radix, expn, bexp)
  {
    hide PowR, ReadsAs, Meant, Top, Leading, FullValue, Within, Separated, Info, RadixBits;
    var v, m := FullValue(s, radix, expn, bexp), Meant(s, radix, expn, bexp);
    FullWithin(s, radix, expn, bexp);
    KeptBelow(s, radix, expn, bexp);
    var lo, hi := WithinBounds(v, radix, Top(|s|, radix, expn, bexp));
    SameNearest(m, v, bits, lo, hi);
  }

  /** An exponent that can wrap around at most once always does harm when it does:
      overflow turns into a number below one, underflow into one of 32 or more. */
  lemma {:induction false} WrappedOnce(s: seq<char>, radix: nat, top: int)
    requires IsRadix(radix) && Leading(s, radix) && -0xffff_fff6 <= top <= 0xffff_fff6
    ensures Unharmed(s, radix, top) <==> InInt32(top)
  {
    hide PowR, ValueAt, Leading, OverflowLimit, Overflows, Underflows, Within;
    LimitBelow();
    ValueRange(s, radix, ToInt32(top));
    ValueWithin(s, radix, ToInt32(top));
    RangeTests(ValueAt(s, radix, ToInt32(top)), radix, ToInt32(top));
    if top > INT32_MAX {
      assert ToInt32(top) == top - 0x1_0000_0000;
      PowRMonotone(2, ToInt32(top), 1023);
    } else if top < INT32_MIN {
      assert ToInt32(top) == top + 0x1_0000_0000;
      PowRStrict(2, -1075, ToInt32(top) - 5);
    }
  }

  /** A number in the range of doubles has an exponent that fits. */
  lemma {:induction false} InRangeFits(v: real, radix: nat, top: int)
    requires IsRadix(radix) && Within(v, radix, top) && PowR(2, -1075) < v < OverflowLimit()
    ensures InInt32(top)
  {
    hide PowR, OverflowLimit, Within;
    WithinRange(v, radix, top);
    LimitBelow();
    if top > INT32_MAX {
      PowRMonotone(2, 1024, top - 5);
    } else if top < INT32_MIN {
      PowRMonotone(2, top, -1075);
    }
  }

  /** For a number in the range of doubles only the digits dropped can do harm. */
  lemma {:induction false} InRangeExact(s: seq<char>, radix: nat, expn: int, bexp: int, bits: nat)
    requires IsRadix(radix) && Leading(s, radix) && (RadixBits(radix) == 0 ==> bexp == 0)
    requires ReadsAs(ValueAt(s, radix, ToInt32(Top(|s|, radix, expn, bexp))), bits)
    requires PowR(2, -1075) < FullValue(s, radix, expn, bexp) < OverflowLimit()
    ensures ReadsAs(FullValue(s, radix, expn, bexp), bits) <==> Uncut(s, radix, expn, bexp)
  {
    hide PowR, Top, ValueAt, ToInt32, Leading, OverflowLimit, ReadsAs, Within, FullValue, Uncut, RadixBits;
    FullWithin(s, radix, expn, bexp);
    InRangeFits(FullValue(s, radix, expn, bexp), radix, Top(|s|, radix, expn, bexp));
    AtodExact(s, radix, expn, bexp, bits);
  }

  /** The kept digits of a number in range are read right. */
  lemma {:induction false} KeptInRange(s: seq<char>, radix: nat, expn: int, bexp: int, bits: nat)
    requires IsRadix(radix) && Leading(s, radix)
    requires ReadsAs(ValueAt(s, radix, ToInt32(Top(|s|, radix, expn, bexp))), bits)
    requires PowR(2, -1075) < Meant(s, radix, expn, bexp) < OverflowLimit()
    ensures ReadsAs(Meant(s, radix, expn, bexp), bits)
  {
    hide PowR, Meant, Top, ValueAt, ToInt32, Leading, OverflowLimit, ReadsAs, Within;
    MeantAtTop(s, radix, expn, bexp);
    var top := Top(|s|, radix, expn, bexp);
    ValueWithin(s, radix, top);
    InRangeFits(Meant(s, radix, expn, bexp), radix, top);
    assert ToInt32(top) == top;
  }
}
