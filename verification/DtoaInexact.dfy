/** Texts that js_atod gets wrong although their numbers are in the range of doubles:
    a digit dropped, and an exponent that is not read. */
module DtoaInexact {
  import opened Basics
  import opened DtoaPow
  import opened DtoaBits
  import opened DtoaReal
  import opened DtoaRound
  import opened DtoaTables
  import opened DtoaScale
  import opened DtoaSearch
  import opened DtoaDigits
  import opened DtoaScan
  import opened DtoaText
  import opened DtoaLog
  import opened Dtoa
  import opened DtoaHalf
  import opened DtoaWrap
  import opened DtoaRoundTrip
  import opened DtoaOverflow

  // ----- a digit dropped -----

  /** 2^53 + 1, halfway between two doubles. */
  const TIE: nat := 9007199254740993

  const TIE_DIGITS: seq<char> := "9007199254740993"

  /** The bits of 2^53. */
  const TIE_BITS: nat := 0x4340_0000_0000_0000

  lemma {:induction false} FourMore(a: seq<char>, b: seq<char>)
    requires |b| == 4
    ensures ReadValue(a + b, 10) == ReadValue(a, 10) * 10000 + ReadValue(b, 10)
  {
    assert Pow(10, 2) == 100;
    assert Pow(10, 4) == 10000;
    hide Pow, ReadValue;
    ReadConcat(a, b, 10);
  }

  lemma {:induction false} FourRead(a: char, b: char, c: char, d: char)
    ensures ReadValue([a, b, c, d], 10) == ((ToDigit(a) * 10 + ToDigit(b)) * 10 + ToDigit(c)) * 10 + ToDigit(d)
  {
    hide ToDigit, ReadValue;
    ReadNothing(10);
    ReadSnoc([], a, 10);
    ReadSnoc([a], b, 10);
    ReadSnoc([a, b], c, 10);
    ReadSnoc([a, b, c], d, 10);
    assert [] + [a] == [a] && [a] + [b] == [a, b] && [a, b] + [c] == [a, b, c] && [a, b, c] + [d] == [a, b, c, d];
  }

  lemma {:induction false} FourDigits()
    ensures ReadValue("9007", 10) == 9007 && ReadValue("1992", 10) == 1992
    ensures ReadValue("5474", 10) == 5474 && ReadValue("0993", 10) == 993
  {
    hide ReadValue;
    FourRead('9', '0', '0', '7');
    FourRead('1', '9', '9', '2');
    FourRead('5', '4', '7', '4');
    FourRead('0', '9', '9', '3');
  }

  lemma {:induction false} TieValue()
    ensures ReadValue(TIE_DIGITS, 10) == TIE
  {
    hide ReadValue;
    FourDigits();
    var a, b, c, d: seq<char> := "9007", "1992", "5474", "0993";
    FourMore(a, b);
    FourMore(a + b, c);
    FourMore(a + b + c, d);
    assert a + b + c + d == TIE_DIGITS;
  }

  lemma {:induction false} TieHalves()
    ensures Half(TIE_BITS) == TIE as real && Half(TIE_BITS - 1) < TIE as real && Half(TIE_BITS + 1) > TIE as real + 1.0
  {
    hide PowR, Times;
    assert GridExp(TIE_BITS) == 1 && GridCount(TIE_BITS) == TWO52;
    assert GridExp(TIE_BITS - 1) == 0 && GridCount(TIE_BITS - 1) == 2 * TWO52 - 1;
    assert GridExp(TIE_BITS + 1) == 1 && GridCount(TIE_BITS + 1) == TWO52 + 1;
    PowRUnit(2);
    TUnit(TIE as real);
    TUnit((TIE + 2) as real);
    Doubled(0);
    NextDouble(TIE_BITS - 1);
    NextDouble(TIE_BITS);
    hide GridExp, GridCount;
    assert TIE == 2 * TWO52 + 1;
  }

  /** The numbers around 2^53 + 1 and their nearest doubles. */
  lemma {:induction false} TieReads(v: real, bits: nat)
    requires TIE as real <= v < TIE as real + 1.0 && ReadsAs(v, bits)
    ensures bits == if v == TIE as real then TIE_BITS else TIE_BITS + 1
  {
    hide Half, ReadsAs;
    TieHalves();
    ReadsOrder(v, bits, TIE_BITS - 1);
    ReadsOrder(v, bits, TIE_BITS);
    ReadsOrder(v, bits, TIE_BITS + 1);
  }

  /** 39 digits, the last of them not kept. */
  function LongDigits(): seq<char> { TIE_DIGITS + Zeros(22) + ['1'] }

  lemma {:induction false} LongLeading()
    ensures Leading(LongDigits(), 10) && |LongDigits()| == 39 && RadixBits(10) == 0 && Info(10).atodDigits == 38
    ensures LongDigits()[..38] == TIE_DIGITS + Zeros(22)
  {
    assert Leading(TIE_DIGITS, 10);
    LeadingZeros(TIE_DIGITS, 22, 10);
    assert AllDigits(TIE_DIGITS + Zeros(22), 10) && ToDigit('1') == 1;
    hide ToDigit;
    DigitsSnoc(TIE_DIGITS + Zeros(22), '1', 10);
    assert LongDigits()[0] == (TIE_DIGITS + Zeros(22))[0];
  }

  /** The digits kept are exactly the tie, all digits a little more. */
  lemma {:induction false} LongValues()
    ensures RadixBits(10) == 0 && Meant(LongDigits(), 10, -23, 0) == TIE as real
    ensures TIE as real < FullValue(LongDigits(), 10, -23, 0) < TIE as real + 1.0
  {
    hide ReadValue, Pow, PowR, Times, Product, ToDigit, Leading, RadixBits, Info, Zeros;
    var d, t := LongDigits(), TIE_DIGITS + Zeros(22);
    LongLeading();
    TieValue();
    AppendZeros(TIE_DIGITS, 22, 10);
    ZerosMoved(TIE, 22, 10, -22);
    WholeProduct(TIE);
    ReadSnoc(t, '1', 10);
    OneDigit();
    PowNext(10, 22);
    PowMonotone(10, 0, 23);
    PowNext(10, 0);
    var w := Pow(10, 23);
    Assoc(TIE, Pow(10, 22), 10);
    ZerosMoved(TIE, 23, 10, -23);
    ZerosMoved(TIE + 1, 23, 10, -23);
    WholeProduct(TIE + 1);
    Distribute(w, TIE, 1);
    PowNext(10, 1);
    PowMonotone(10, 1, 23);
    SmallerProduct(TIE * w, TIE * w + 1, 10, -23);
    SmallerProduct(TIE * w + 1, (TIE + 1) * w, 10, -23);
  }

  lemma {:induction false} OneDigit()
    ensures ToDigit('1') == 1
  {}

  lemma {:induction false} WholeProduct(a: nat)
    ensures Product(a, 0, 10, 0) == a as real
  {
    hide PowR, Times;
    PowRUnit(2);
    PowRUnit(10);
    TUnit(a as real);
  }

  lemma {:induction false} SmallerProduct(a: nat, b: nat, radix: nat, f: int)
    requires radix > 0 && a < b
    ensures Product(a, 0, radix, f) < Product(b, 0, radix, f)
  {
    hide Times, PowR;
    PowRUnit(2);
    TUnit(a as real);
    TUnit(b as real);
    TMonotone(a as real, b as real, PowR(radix, f));
  }

  lemma {:induction false} LongText()
    ensures "9007199254740993.00000000000000000000001" == WithDot(LongDigits(), 16)
  {
    assert Zeros(22) == "0000000000000000000000";
    hide Zeros;
    assert LongDigits() == "900719925474099300000000000000000000001";
  }

  /** 2^53 + 1 and a bit, read as 2^53: the nearest double is 2^53 + 2. */
  lemma {:induction false} DroppedDigit(r: Option<nat>)
    ensures Converts("9007199254740993.00000000000000000000001", 10, r) ==> r == Some(TIE_BITS + 1)
    ensures Computes("9007199254740993.00000000000000000000001", 10, r) ==> r == Some(TIE_BITS)
  {
    hide Converts, Computes, ScanNumber, ReadText, Written, Leading, LongDigits, Zeros, FullValue, ReadsAs, ValueAt,
         Meant,
         ReadAll, SkipZeros, ReadExponent, Stops, TextExponent, WithDot, RadixBits;
    var s: seq<char>, d := "9007199254740993.00000000000000000000001", LongDigits();
    LongLeading();
    LongText();
    LongScan(s, d);
    PlainText(s, 10, d, -23);
    Readings(s, 10);
    LongValues();
    LongOutcome(s, d, r);
  }

  lemma {:induction false} LongScan(s: seq<char>, d: seq<char>)
    requires Leading(d, 10) && |d| == 39 && s == WithDot(d, 16)
    ensures ScanNumber(s, 0, 0, 10) == Number(d, -23, 0, false, false)
  {
    hide ReadAll, SkipZeros, ReadExponent, Leading, Stops, ScanNumber;
    assert |s| == 40 && s[0..0 + |s|] == s;
    NothingFollows(s, 0, 10);
    ScanDotted(s, 0, 10, d, 16);
    PlainResult(s, 0, 10, Cursor(0, -1, 0), Cursor(40, 16, 39), d);
  }

  lemma {:induction false} LongOutcome(s: seq<char>, d: seq<char>, r: Option<nat>)
    requires ReadText(s, 10) == Written(s, 10) == Scaled(d, -23, 0) && |d| == 39 && RadixBits(10) == 0
    requires Meant(d, 10, -23, 0) == TIE as real && TIE as real < FullValue(d, 10, -23, 0) < TIE as real + 1.0
    ensures Converts(s, 10, r) ==> r == Some(TIE_BITS + 1)
    ensures Computes(s, 10, r) ==> r == Some(TIE_BITS)
  {
    hide ReadText, Written, ReadsAs, ValueAt, Meant, FullValue, RadixBits;
    MeantAtTop(d, 10, -23, 0);
    assert Top(39, 10, -23, 0) == 16 == ToInt32(16);
    if Converts(s, 10, r) {
      TieReads(FullValue(d, 10, -23, 0), r.value);
    }
    if Computes(s, 10, r) {
      TieReads(Meant(d, 10, -23, 0), r.value);
    }
  }

  // ----- an exponent that is not read -----

  lemma {:induction false} AllExpRead(s: seq<char>, p: nat, acc: nat, t: seq<char>)
    requires p <= |s| && s[p..] == t && AllDigits(t, 10)
    ensures AllExpDigits(s, p, acc) == acc * Pow(10, |t|) + ReadValue(t, 10)
    decreases |t|
  {
    PowNext(10, 0);
    if t == [] {
      DotIsNoDigit();
    } else {
      var n, u := |t| - 1, t[1..];
      var c := ToDigit(t[0]);
      assert s[p] == s[p..][0] && s[p + 1..] == s[p..][1..] == u;
      ReadHead(t, 10);
      PowNext(10, n);
      hide ToDigit, Pow, ReadValue, AllDigits;
      var w := Pow(10, n);
      Distribute(w, acc * 10, c);
      Assoc(acc, 10, w);
      assert acc * (w * 10) + (c * w + ReadValue(u, 10)) == (acc * 10 + c) * w + ReadValue(u, 10);
      AllExpRead(s, p + 1, acc * 10 + c, u);
    }
  }

  /** A printed exponent, however large, is written with its sign. */
  lemma {:induction false} WrittenRead(s: seq<char>, start: nat, radix: nat, p: nat, x: int)
    requires IsRadix(radix) && start < p < |s| && s[p] == ExpChar(radix) && s[p + 1..] == ExponentText(x)
    ensures WrittenExponent(s, start, radix, p) == Exponent(x, x < 0, BinaryExponent(radix), false)
  {
    hide IntDigits, Pow, ReadValue, ToDigit, RadixBits, AllDigits, AllExpDigits, ExponentText;
    var t := ExponentDigits(x);
    ExponentChars(s, p, x, t);
    AllExpRead(s, p + 3, ToDigit(t[0]), t[1..]);
  }

  /** A zero, a dot, zeros, digits and any exponent. */
  lemma {:induction false} SmallWritten(s: seq<char>, radix: nat, z: nat, d: seq<char>, x: int)
    requires IsRadix(radix) && Leading(d, radix)
    requires s == ['0', '.'] + Zeros(z) + d + [ExpChar(radix)] + ExponentText(x)
    ensures Written(s, radix)
            == if BinaryExponent(radix) then Scaled(d, 0 - z - |d|, x) else Scaled(d, x - z - |d|, 0)
    ensures TextExponent(s, radix) == x
  {
    hide ReadAll, SkipZeros, WrittenExponent, ExponentText, ExpChar, Stops, ToDigit, AllDigits, BinaryExponent;
    assert s[0..] == s;
    var p := ThreePieces(s, 0, ['0', '.'] + Zeros(z) + d, ExpChar(radix), ExponentText(x));
    ExpCharStops(s, p, radix);
    SmallDigits(s, radix, z, d, p);
    WrittenRead(s, 0, radix, p, x);
    SmallStart(s, radix, z, d, p);
  }

  lemma {:induction false} SmallStart(s: seq<char>, radix: nat, z: nat, d: seq<char>, p: nat)
    requires radix <= 36 && Leading(d, radix) && p == 2 + z + |d| < |s| && s[0..p] == ['0', '.'] + Zeros(z) + d
    ensures SignLength(s) == 0 && !HexPrefix(s, 0, radix) && CharAt(s, 0) == '0'
  {
    hide Leading, ToDigit, Zeros;
    SmallPrefix(s, radix, z, d, p);
  }

  const TOO_LONG: int := 2147483640

  lemma {:induction false} TooLongText()
    ensures ExponentText(TOO_LONG) == "+2147483640"
  {
    assert IntDigits(214, 10) == "214";
    assert IntDigits(214748, 10) == "214748";
    assert IntDigits(214748364, 10) == "214748364";
    assert IntDigits(2147483640, 10) == "2147483640";
  }

  /** 536870910 zeros behind the dot, in radix 16. */
  function BinaryGuardText(): seq<char> { ['0', '.'] + Zeros(536870910) + "1p+2147483640" }

  lemma {:induction false} BinaryGuardForm()
    ensures BinaryGuardText() == ['0', '.'] + Zeros(536870910) + "1" + [ExpChar(16)] + ExponentText(TOO_LONG)
    ensures BinaryExponent(16) && RadixBits(16) == 4 && Leading("1", 16)
  {
    hide Zeros, ExponentText;
    TooLongText();
    assert RadixBits(16) == 4;
    hide RadixBits;
    assert ExpChar(16) == 'p';
    hide ExpChar;
    var w, a, b: seq<char> := ['0', '.'] + Zeros(536870910), "1" + ['p'], "+2147483640";
    assert "1p+2147483640" == a + b;
    assert w + (a + b) == w + a + b;
    assert w + a == w + "1" + ['p'];
  }

  /** 2^-4, read as infinity: the exponent is not read. */
  lemma {:induction false} SmallReadAsInfinity(r: Option<nat>)
    ensures Converts(BinaryGuardText(), 16, r) ==> r == Some(0x3fb0_0000_0000_0000)
    ensures Computes(BinaryGuardText(), 16, r) ==> r == Some(INFINITY)
  {
    hide Zeros, ExponentText, Leading, RadixBits, Written, ReadText, TextExponent, BinaryGuardText, ReadsAs, FullValue,
         BinaryExponent, ExpChar, PowR;
    var s := BinaryGuardText();
    BinaryGuardForm();
    SmallWritten(s, 16, 536870910, "1", TOO_LONG);
    Readings(s, 16);
    SixteenthValue();
    if Converts(s, 16, r) {
      PowerReads(-4, r.value);
    }
  }

  lemma {:induction false} SixteenthValue()
    requires RadixBits(16) == 4
    ensures FullValue("1", 16, -536870911, TOO_LONG) == PowR(2, -4)
  {
    hide RadixBits, ReadValue, Times, PowR;
    OneValue(16);
    BinaryPower(16, -536870911);
    TUnit(PowR(2, TOO_LONG));
    PowRSum(TOO_LONG, -2147483644, -4);
  }

  /** 2147483620 zeros behind the dot, in radix 10. */
  function DecimalGuardText(): seq<char> { ['0', '.'] + Zeros(2147483620) + "1e+2147483640" }

  lemma {:induction false} DecimalGuardForm()
    ensures DecimalGuardText() == ['0', '.'] + Zeros(2147483620) + "1" + [ExpChar(10)] + ExponentText(TOO_LONG)
    ensures !BinaryExponent(10) && RadixBits(10) == 0 && Leading("1", 10)
  {
    hide Zeros, ExponentText;
    TooLongText();
    assert RadixBits(10) == 0;
    hide RadixBits;
    assert ExpChar(10) == 'e';
    hide ExpChar;
    var w, a, b: seq<char> := ['0', '.'] + Zeros(2147483620), "1" + ['e'], "+2147483640";
    assert "1e+2147483640" == a + b;
    assert w + (a + b) == w + a + b;
    assert w + a == w + "1" + ['e'];
  }

  lemma {:induction false} DecimalGuardLength()
    ensures |DecimalGuardText()| <= INT32_MAX
  {}

  /** 10^19, read as infinity. */
  lemma {:induction false} DecimalReadAsInfinity(r: Option<nat>)
    ensures |DecimalGuardText()| <= INT32_MAX
    ensures Converts(DecimalGuardText(), 10, r) ==> r.Some? && r != Some(INFINITY)
    ensures Computes(DecimalGuardText(), 10, r) ==> r == Some(INFINITY)
  {
    hide Zeros, ExponentText, Leading, RadixBits, Written, ReadText, TextExponent, DecimalGuardText, ReadsAs, FullValue,
         BinaryExponent, ExpChar, PowR, Within;
    var s := DecimalGuardText();
    DecimalGuardForm();
    DecimalGuardLength();
    SmallWritten(s, 10, 2147483620, "1", TOO_LONG);
    Readings(s, 10);
    if Converts(s, 10, r) {
      FullWithin("1", 10, 19, 0);
      ModestFinite(FullValue("1", 10, 19, 0), r.value);
    }
  }

  lemma {:induction false} ModestFinite(v: real, bits: nat)
    requires RadixBits(10) == 0 && Within(v, 10, 20) && ReadsAs(v, bits)
    ensures bits != INFINITY
  {
    hide PowR, Pow, RadixBits, ReadsAs, OverflowLimit;
    ReadsThresholds(v, bits);
    LimitBelow();
    SixBits(10, 20);
    PowRNat(10, 20);
    PowRNat(2, 120);
    PowRMonotone(2, 120, 1023);
  }
}
