/** Texts whose exponent leaves the range of a 32-bit int: the exact condition, and
    an input of each kind that js_atod gets wrong. */
module DtoaOverflow {
  import opened Basics
  import opened DtoaPow
  import opened DtoaBits
  import opened DtoaReal
  import opened DtoaRound
  import opened DtoaTables
  import opened DtoaScale
  import opened DtoaSearch
  import opened DtoaDigits
  import opened DtoaScan
  import opened DtoaText
  import opened DtoaLog
  import opened Dtoa
  import opened DtoaHalf
  import opened DtoaWrap
  import opened DtoaRoundTrip

  // ----- how large the exponents of a text can be -----

  predicate Inside(s: seq<char>, c: Cursor) { c.pos <= c.p <= |s| && -1 <= c.dot <= c.pos }

  lemma {:induction false} ZerosInside(s: seq<char>, start: nat, radix: nat, c: Cursor)
    requires Inside(s, c)
    ensures Inside(s, SkipZeros(s, start, radix, c))
    decreases |s| - c.p
  {
    if !SecondDot(s, start, radix, c) {
      var d := PassDot(s, start, radix, c);
      if CharAt(s, d.p) == '0' {
        ZerosInside(s, start, radix, Onward(d));
      }
    }
  }

  lemma {:induction false} DigitsInside(s: seq<char>, start: nat, radix: nat, c: Cursor, acc: seq<char>)
    requires radix <= 36 && Inside(s, c)
    ensures Inside(s, ReadAll(s, start, radix, c, acc).0)
    decreases |s| - c.p
  {
    DotIsNoDigit();
    hide ToDigit;
    if !SecondDot(s, start, radix, c) {
      var d := PassDot(s, start, radix, c);
      if ToDigit(CharAt(s, d.p)) < radix {
        DigitsInside(s, start, radix, Onward(d), acc + [CharAt(s, d.p)]);
      }
    }
  }

  /** The exponent of the first digit is the one written, moved by no more than the
      length of the text. */
  lemma {:induction false} WrittenBound(s: seq<char>, radix: nat)
    requires IsRadix(radix) && RadixBits(radix) == 0 && Written(s, radix).Scaled?
    ensures var w := Written(s, radix);
            -|s| <= |w.digits| + w.expn - TextExponent(s, radix) <= |s| && w.bexp == 0
  {
    hide SkipZeros, ReadAll, WrittenExponent, ToDigit, RadixBits;
    WrittenKind(s, radix);
    var start, c0 := SignLength(s), Cursor(DigitsStart(s, radix), -1, 0);
    ZerosInside(s, start, radix, c0);
    DigitsInside(s, start, radix, SkipZeros(s, start, radix, c0), []);
    ExponentNotBinary(s, start, radix, ReadAll(s, start, radix, SkipZeros(s, start, radix, c0), []).0.p);
  }

  lemma {:induction false} ExponentNotBinary(s: seq<char>, start: nat, radix: nat, p: nat)
    requires IsRadix(radix) && RadixBits(radix) == 0
    ensures var e := WrittenExponent(s, start, radix, p);
            e.Exponent? ==> !e.binary
  {
    hide ToDigit, AllExpDigits, RadixBits;
  }

  /** For texts no longer than an int can count, in a radix that is not a power of two:
      js_atod is right if and only if the number is beyond the range where its exponent
      is not read, and else the exponent of the first digit is an int and the digits
      dropped do no harm. */
  lemma {:induction false} ShortTextExact(s: seq<char>, radix: nat, r: Option<nat>)
    requires IsRadix(radix) && RadixBits(radix) == 0 && |s| <= INT32_MAX && Computes(s, radix, r)
    ensures var w, e := Written(s, radix), TextExponent(s, radix);
            Converts(s, radix, r) <==>
              (w.Scaled? ==>
                 var v, top := FullValue(w.digits, radix, w.expn, 0), |w.digits| + w.expn;
                 if e > MAX_READ then Overflows(v, radix, top)
                 else if e < -MAX_READ then Underflows(v, radix, top)
                 else InInt32(top) && Uncut(w.digits, radix, w.expn, 0))
  {
    hide Converts, Computes, Written, TextExponent, ToInt32, RadixBits, Unharmed, Uncut, FullValue, Overflows,
         Underflows;
    ConvertsExactly(s, radix, r);
    var w := Written(s, radix);
    if w.Scaled? {
      ReadLeading(s, radix);
      WrittenBound(s, radix);
      if -MAX_READ <= TextExponent(s, radix) <= MAX_READ {
        WrappedOnce(w.digits, radix, |w.digits| + w.expn);
      }
    }
  }

  /** JavaScript strings are shorter still: for them an exponent that is not read never
      does harm. */
  lemma {:induction false} StringExact(s: seq<char>, radix: nat, r: Option<nat>)
    requires IsRadix(radix) && RadixBits(radix) == 0 && |s| <= 0x3fff_ffff && Computes(s, radix, r)
    ensures var w := Written(s, radix);
            Converts(s, radix, r) <==>
              (w.Scaled? && -MAX_READ <= TextExponent(s, radix) <= MAX_READ ==>
                 InInt32(|w.digits| + w.expn) && Uncut(w.digits, radix, w.expn, 0))
  {
    hide Converts, Computes, Written, TextExponent, RadixBits, Uncut, FullValue, Logs;
    ShortTextExact(s, radix, r);
    if Written(s, radix).Scaled? {
      WrittenBound(s, radix);
      LimitsSmall(radix);
    }
  }

  // ----- inputs that fail -----

  /** Digits and an exponent, without a dot. */
  lemma {:induction false} WholeExponent(s: seq<char>, radix: nat, d: seq<char>, x: int)
    requires IsRadix(radix) && Leading(d, radix) && -MAX_READ <= x <= MAX_READ && !BinaryExponent(radix)
    requires s == d + [ExpChar(radix)] + ExponentText(x)
    ensures ScanNumber(s, 0, 0, radix) == Number(d, x, 0, false, false)
  {
    hide ReadAll, SkipZeros, ReadExponent, ExponentText, ExpChar, Stops, ScanNumber, ToDigit, AllDigits, BinaryExponent;
    assert s[0..] == s && WithDot(d, |d|) == d;
    var p := ThreePieces(s, 0, d, ExpChar(radix), ExponentText(x));
    ExpCharStops(s, p, radix);
    ScanDotted(s, 0, radix, d, |d|);
    ExponentRead(s, 0, radix, p, x);
    ExponentResult(s, 0, radix, Cursor(0, -1, 0), Cursor(p, -1, |d|), d, x, false);
  }

  /** The characters before the exponent. */
  lemma {:induction false} SmallPrefix(s: seq<char>, radix: nat, z: nat, d: seq<char>, p: nat)
    requires radix <= 36 && Leading(d, radix) && p == 2 + z + |d| < |s| && s[0..p] == ['0', '.'] + Zeros(z) + d
    ensures s[0] == '0' && s[1] == '.' && s[2 + z] != '0' && s[2 + z] != '.' && s[2 + z..p] == d
    ensures forall i :: 2 <= i < 2 + z ==> s[i] == '0'
  {
    hide ToDigit, AllDigits, Zeros;
    var w := s[0..p];
    assert w[0..] == w;
    SmallChars(w, 0, radix, d, z);
    assert forall i :: 0 <= i < p ==> s[i] == w[i];
    assert s[2 + z..p] == w[2 + z..p];
  }

  /** A zero, a dot, more zeros and digits, with something else behind. */
  lemma {:induction false} SmallDigits(s: seq<char>, radix: nat, z: nat, d: seq<char>, p: nat)
    requires IsRadix(radix) && Leading(d, radix) && p == 2 + z + |d| < |s| && s[0..p] == ['0', '.'] + Zeros(z) + d
    requires Stops(s, p, radix)
    ensures SkipZeros(s, 0, radix, Cursor(0, -1, 0)) == Cursor(2 + z, 1, 1 + z)
    ensures ReadAll(s, 0, radix, Cursor(2 + z, 1, 1 + z), []) == (Cursor(p, 1, 1 + z + |d|), d)
  {
    hide ReadAll, SkipZeros, Stops, ToDigit, AllDigits, Zeros;
    SmallPrefix(s, radix, z, d, p);
    ZeroPoint(s, 0, radix, z);
    ZerosPassed(s, 0, radix, Cursor(2, 1, 1), z);
    var c := Cursor(2 + z, 1, 1 + z);
    NoZeros(s, 0, radix, c);
    DigitsPassed(s, 0, radix, c, [], |d|);
    assert [] + d == d;
    ReadStops(s, 0, radix, Cursor(p, 1, 1 + z + |d|), d);
  }

  lemma {:induction false} SmallExponent(s: seq<char>, radix: nat, z: nat, d: seq<char>, x: int)
    requires IsRadix(radix) && Leading(d, radix) && -MAX_READ <= x <= MAX_READ && !BinaryExponent(radix)
    requires s == ['0', '.'] + Zeros(z) + d + [ExpChar(radix)] + ExponentText(x)
    ensures ScanNumber(s, 0, 0, radix) == Number(d, x - z - |d|, 0, false, false)
  {
    hide ReadAll, SkipZeros, ReadExponent, ExponentText, ExpChar, Stops, ScanNumber, ToDigit, AllDigits, BinaryExponent;
    assert s[0..] == s;
    var p := ThreePieces(s, 0, ['0', '.'] + Zeros(z) + d, ExpChar(radix), ExponentText(x));
    ExpCharStops(s, p, radix);
    SmallDigits(s, radix, z, d, p);
    ExponentRead(s, 0, radix, p, x);
    ExponentResult(s, 0, radix, Cursor(2 + z, 1, 1 + z), Cursor(p, 1, 1 + z + |d|), d, x, false);
  }

  /** A number that starts without a sign or prefix. */
  lemma {:induction false} PlainText(s: seq<char>, radix: nat, d: seq<char>, expn: int)
    requires IsRadix(radix) && d != [] && s != [] && s[0] !in ['+', '-', 'I'] && (s[0] == '0' ==> CharAt(s, 1) == '.')
    requires ScanNumber(s, 0, 0, radix) == Number(d, expn, 0, false, false)
    ensures ReadText(s, radix) == Scaled(d, expn, 0)
  {
    hide ScanNumber, ToDigit;
    NotInfinity(s, 0);
  }

  /** Where the right result and the computed one lie, by their top exponents. */
  lemma {:induction false} Outcome(s: seq<char>, radix: nat, d: seq<char>, expn: int, r: Option<nat>)
    requires IsRadix(radix) && Leading(d, radix) && ReadText(s, radix) == Scaled(d, expn, 0)
    ensures var top := Top(|d|, radix, expn, 0);
            && (Converts(s, radix, r) ==>
                  (top >= 1100 ==> r == Some(INFINITY)) && (top <= -1100 ==> r == Some(0)))
            && (Computes(s, radix, r) ==>
                  (ToInt32(top) >= 1100 ==> r == Some(INFINITY)) && (ToInt32(top) <= -1100 ==> r == Some(0)))
  {
    hide ReadText, Written, FullValue, ReadsAs, PowR, OverflowLimit, Top, ValueAt, ToInt32, Leading, Within,
         TextExponent;
    var top := Top(|d|, radix, expn, 0);
    Readings(s, radix);
    if Converts(s, radix, r) {
      FullWithin(d, radix, expn, 0);
      Extremes(FullValue(d, radix, expn, 0), radix, top, r.value);
    }
    if Computes(s, radix, r) {
      ValueWithin(d, radix, ToInt32(top));
      Extremes(ValueAt(d, radix, ToInt32(top)), radix, ToInt32(top), r.value);
    }
  }

  lemma {:induction false} Extremes(v: real, radix: nat, top: int, bits: nat)
    requires IsRadix(radix) && Within(v, radix, top) && ReadsAs(v, bits)
    ensures top >= 1100 ==> bits == INFINITY
    ensures top <= -1100 ==> bits == 0
  {
    hide PowR, OverflowLimit, ReadsAs, Within;
    WithinRange(v, radix, top);
    LimitBelow();
    ReadsThresholds(v, bits);
    if top >= 1100 {
      PowRMonotone(2, 1024, top - 5);
    } else if top <= -1100 {
      PowRMonotone(2, top, -1075);
    }
  }

  lemma {:induction false} LongestExponent()
    ensures ExponentText(2147483639) == "+2147483639" && ExponentText(-2147483639) == "-2147483639"
  {
    assert IntDigits(214, 10) == "214";
    assert IntDigits(214748, 10) == "214748";
    assert IntDigits(214748363, 10) == "214748363";
    assert IntDigits(2147483639, 10) == "2147483639";
  }

  lemma {:induction false} LargeText()
    ensures "12345678901e+2147483639" == "12345678901" + [ExpChar(10)] + ExponentText(2147483639)
    ensures Leading("12345678901", 10)
  {
    LongestExponent();
    hide ExponentText;
    assert ExpChar(10) == 'e';
    hide ExpChar;
  }

  /** Too large a number, read as zero. */
  lemma {:induction false} OverflowReadAsZero(r: Option<nat>)
    ensures Converts("12345678901e+2147483639", 10, r) ==> r == Some(INFINITY)
    ensures Computes("12345678901e+2147483639", 10, r) ==> r == Some(0)
  {
    hide Converts, Computes, ScanNumber, ReadText, ExponentText, Leading;
    var s: seq<char>, d: seq<char> := "12345678901e+2147483639", "12345678901";
    LargeText();
    WholeExponent(s, 10, d, 2147483639);
    PlainText(s, 10, d, 2147483639);
    Outcome(s, 10, d, 2147483639, r);
    assert Top(|d|, 10, 2147483639, 0) == 2147483650;
  }

  lemma {:induction false} SmallText()
    ensures "0.00000000001e-2147483639" == ['0', '.'] + Zeros(10) + "1" + [ExpChar(10)] + ExponentText(-2147483639)
  {
    LongestExponent();
    hide ExponentText;
    assert Zeros(10) == "0000000000";
    hide Zeros;
    assert ExpChar(10) == 'e';
    hide ExpChar;
  }

  /** Too small a number, read as infinity. */
  lemma {:induction false} UnderflowReadAsInfinity(r: Option<nat>)
    ensures Converts("0.00000000001e-2147483639", 10, r) ==> r == Some(0)
    ensures Computes("0.00000000001e-2147483639", 10, r) ==> r == Some(INFINITY)
  {
    hide Converts, Computes, ScanNumber, ReadText, ExponentText, Zeros;
    var s: seq<char>, d: seq<char> := "0.00000000001e-2147483639", "1";
    SmallText();
    assert Leading(d, 10);
    hide Leading, ToDigit;
    SmallExponent(s, 10, 10, d, -2147483639);
    PlainText(s, 10, d, -2147483650);
    Outcome(s, 10, d, -2147483650, r);
    assert Top(|d|, 10, -2147483650, 0) == -2147483649;
  }

  /** Powers of two as doubles. */
  lemma {:induction false} PowerReads(k: int, bits: nat)
    requires -1022 <= k <= 1023 && ReadsAs(PowR(2, k), bits)
    ensures bits == (k + 1023) * TWO52
  {
    Pow52();
    hide PowR, Times, Pow, ReadsAs, Rounded;
    PowRNat(2, 52);
    PowRSum(52, k - 52, k);
    assert k + 1 - 53 == k - 52;
    NearSelf(TWO52, k + 1);
    Recovered(PowR(2, k), TWO52, k + 1);
    ReadsAsUnique(PowR(2, k), TWO52, k + 1, bits);
  }

  lemma {:induction false} OneValue(radix: nat)
    ensures ReadValue("1", radix) == 1
  {
    ReadNothing(radix);
    ReadSnoc([], '1', radix);
    assert [] + ['1'] == "1";
  }

  lemma {:induction false} WrappedDigit(bits: nat)
    requires RadixBits(32) == 5 && ReadsAs(ValueAt("1", 32, 4), bits)
    ensures bits == 0x3fe0_0000_0000_0000
  {
    hide RadixBits, ReadValue, ReadsAs, Times, PowR;
    OneValue(32);
    PowRUnit(32);
    TUnit(PowR(2, -1));
    PowerReads(-1, bits);
  }

  lemma {:induction false} BinaryExponentText()
    ensures ExponentText(858993459) == "+858993459"
  {
    assert IntDigits(858, 10) == "858";
    assert IntDigits(858993, 10) == "858993";
    assert IntDigits(858993459, 10) == "858993459";
  }

  lemma {:induction false} BinaryText()
    ensures "1@+858993459" == "1" + [ExpChar(32)] + ExponentText(858993459) && Leading("1", 32)
    ensures RadixBits(32) == 5 && !BinaryExponent(32)
  {
    hide ExponentText;
    BinaryExponentText();
    assert RadixBits(32) == 5;
    hide RadixBits;
    assert ExpChar(32) == '@';
    hide ExpChar;
  }

  /** Too large a number in radix 32, read as one half. */
  lemma {:induction false} OverflowReadAsHalf(r: Option<nat>)
    ensures Converts("1@+858993459", 32, r) ==> r == Some(INFINITY)
    ensures Computes("1@+858993459", 32, r) ==> r == Some(0x3fe0_0000_0000_0000)
  {
    hide Converts, ScanNumber, ReadText, ExponentText, Leading, RadixBits, BinaryExponent, ValueAt, ReadsAs;
    var s: seq<char>, d: seq<char> := "1@+858993459", "1";
    BinaryText();
    WholeExponent(s, 32, d, 858993459);
    PlainText(s, 32, d, 858993459);
    Outcome(s, 32, d, 858993459, r);
    assert Top(|d|, 32, 858993459, 0) == 4294967300;
    if Computes(s, 32, r) {
      WrappedDigit(r.value);
    }
  }
}
