/** js_dtoa in free format and js_atod, from bits to text and back. */
module DtoaRoundTrip {
  import opened Basics
  import opened DtoaPow
  import opened DtoaLimbs
  import opened DtoaBits
  import opened DtoaReal
  import opened DtoaRound
  import opened DtoaTables
  import opened DtoaScale
  import opened DtoaSearch
  import opened DtoaDigits
  import opened DtoaScan
  import opened DtoaText
  import opened DtoaLog
  import opened Dtoa
  import opened DtoaHalf
  import opened DtoaWrap

  const INFINITY_TEXT: seq<char> := "Infinity"

  function SignBit(negative: bool): nat { if negative then SIGN else 0 }
  function SignText(negative: bool): seq<char> { if negative then ['-'] else [] }

  // ----- printing -----

  /** The digits and exponent printed for a finite nonzero double. */
  ghost predicate Prints(d: seq<char>, E: int, radix: nat, m: nat, e: int)
    requires IsRadix(radix)
  {
    && Leading(d, radix) && |d| <= Info(radix).maxDigits && Abs(ExpValue(E, radix)) <= 2147483639
    && (exists x: nat :: x < radix && d[0] == DigitChar(x))
    && Rounded(Product(ReadValue(d, radix), 0, radix, E - |d|), m, e, ToNearestEven)
  }

  /** The exponent the search starts from is no larger than the binary one. */
  lemma {:induction false} LogBound(radix: nat, e: int, E0: int)
    requires radix >= 2 && LogFloor(radix, e, E0)
    ensures Abs(E0) <= Abs(e) + 1
  {
    hide PowR, Times;
    if E0 - 1 > Abs(e) {
      PowerAtLeast(radix, E0 - 1);
      PowRStrict(2, e - 1, E0 - 1);
    } else if E0 < 0 - Abs(e) - 1 {
      PowerAtMost(radix, E0);
      PowRMonotone(2, E0, e - 1);
    }
  }

  lemma {:induction false} ExpValueBound(E: int, radix: nat)
    requires IsRadix(radix) && Abs(E) <= 100000
    ensures Abs(ExpValue(E, radix)) <= 2147483639
  {
    RadixSplit(radix);
    hide Ctz, OddOf;
    ShiftBound(E - 1, RadixBits(radix));
  }

  /** A double that is a whole number below 2^53. */
  predicate IsWhole(m: nat, e: int) {
    1 <= e <= 53 && Rem(m, Pow(2, 53 - e)) == 0
  }

  lemma {:induction false} WholeDigits(n: nat, radix: nat)
    requires IsRadix(radix) && 0 < n < 0x20_0000_0000_0000
    ensures |IntDigits(n, radix)| <= Info(radix).maxDigits
  {
    hide Pow, Info, IntDigits, ReadValue;
    DigitsTable(radix);
    IntDigitsRead(n, radix);
    LeadingRange(IntDigits(n, radix), radix);
    var k := |IntDigits(n, radix)|;
    if k > Info(radix).maxDigits {
      PowMonotone(radix, Info(radix).maxDigits - 1, k - 1);
    }
  }

  lemma {:induction false} WholeFirst(n: nat, radix: nat)
    requires IsRadix(radix)
    ensures exists x: nat :: x < radix && IntDigits(n, radix)[0] == DigitChar(x)
    decreases n
  {
    hide DigitChar, Quo, Rem;
    if n < radix {
      assert IntDigits(n, radix)[0] == DigitChar(n);
    } else {
      QuotientSmaller(n, radix);
      WholeFirst(Quo(n, radix), radix);
    }
  }

  /** Whole numbers are printed exactly. */
  lemma {:induction false} WholePrints(m: nat, e: int, radix: nat)
    requires IsRadix(radix) && Representable(m, e) && IsWhole(m, e)
    ensures var n := Quo(m, Pow(2, 53 - e));
            && 0 < n < 0x20_0000_0000_0000
            && Prints(IntDigits(n, radix), |IntDigits(n, radix)|, radix, m, e)
  {
    hide Pow, PowR, Times, Info, IntDigits, ReadValue, Quo, Rem, DigitChar, Rounded, Product, ExpValue, Near;
    Pow52();
    var w := Pow(2, 53 - e);
    var n := Quo(m, w);
    QuoRemOf(m, w);
    assert m == n * w;
    WholeBelow(m, n, w);
    IntDigitsRead(n, radix);
    WholeDigits(n, radix);
    WholeFirst(n, radix);
    var d := IntDigits(n, radix);
    DigitsTable(radix);
    ExpValueBound(|d|, radix);
    WholeValue(m, e, n, w, radix);
    NearSelf(m, e);
    Recovered(Product(n, 0, radix, 0), m, e);
  }

  lemma {:induction false} WholeBelow(m: nat, n: nat, w: nat)
    requires w > 0 && m == n * w && 0 < m < 0x20_0000_0000_0000
    ensures 0 < n <= m
  {
    MulAtLeast(w, n);
  }

  lemma {:induction false} WholeValue(m: nat, e: int, n: nat, w: nat, radix: nat)
    requires radix > 0 && e <= 53 && w == Pow(2, 53 - e) && m == n * w
    ensures Product(n, 0, radix, 0) == Times(m as real, PowR(2, e - 53))
  {
    hide Pow, PowR, Times;
    PowRUnit(2);
    PowRUnit(radix);
    TUnit(n as real);
    TNat(n, w);
    PowRNat(2, 53 - e);
    Rescale(n as real, 53 - e, e - 53, 0);
  }

  lemma {:induction false} NearSelf(m: nat, e: int)
    ensures Near(Times(m as real, PowR(2, e - 53)), m, e)
  {
    hide Times, PowR, Pow;
  }

  /** Which digits are printed: all digits of a whole number below 2^53, unless an exponent
      is asked for; else those the search ends with. */
  ghost predicate Chosen(d: seq<char>, E: int, m: nat, e: int, radix: nat, mode: ExpMode)
    requires IsRadix(radix) && -1080 <= e <= 1024
  {
    if mode != Enabled && IsWhole(m, e) then d == IntDigits(Quo(m, Pow(2, 53 - e)), radix) && E == |d|
    else
      && SearchEnds(ReadValue(d, radix), |d|, E, m, e, radix, 1 + MulLog2(e - 1, radix))
      && d == DigitString(ReadValue(d, radix), radix, |d|) && ReadValue(d, radix) % radix != 0
  }

  /** js_dtoa with JS_DTOA_FORMAT_FREE. */
  method JsDtoa(bits: nat, radix: nat, mode: ExpMode, minusZero: bool)
    returns (text: seq<char>, ghost d: seq<char>, ghost E: int)
    requires IsRadix(radix) && bits < 2 * SIGN
    ensures FiniteNonZero(bits) ==>
              && -1080 <= Unpack(bits).e <= 1024
              && Prints(d, E, radix, Unpack(bits).m, Unpack(bits).e)
              && Chosen(d, E, Unpack(bits).m, Unpack(bits).e, radix, mode)
              && text == SignText(bits >= SIGN) + Format(d, E, radix, mode)
    ensures bits % SIGN == 0 ==> text == SignText(bits >= SIGN && minusZero) + Format("0", 1, radix, mode)
    ensures bits == INFINITY ==> text == "Infinity"
    ensures bits == SIGN + INFINITY ==> text == "-Infinity"
    ensures bits % SIGN > INFINITY ==> text == "NaN"
  {
    hide Info, Pow, PowR, IntDigits, ReadValue, Quo, Rem, Product, Rounded, LogFloor, ExpValue, Prints, Chosen, Format;
    d, E := [], 0;
    text := [];
    if (bits / TWO52) % 2048 == 0x7ff {
      if bits % TWO52 == 0 {
        if bits >= SIGN {
          text := text + ['-'];
        }
        text := text + "Infinity";
      } else {
        text := "NaN";
      }
      return;
    }
    if bits % SIGN == 0 {
      if bits >= SIGN && minusZero {
        text := text + ['-'];
      }
      ZeroDigit(radix);
      var t := OutputNumber(0, 1, 1, radix, mode);
      text := text + t;
      return;
    }
    if bits >= SIGN {
      text := text + ['-'];
    }
    ExponentRange(bits);
    var t;
    t, d, E := PrintFinite(bits, radix, mode);
    text := text + t;
  }

  lemma {:induction false} ZeroDigit(radix: nat)
    requires IsRadix(radix)
    ensures DigitString(0, radix, 1) == "0"
  {
    hide Quo, Rem;
    QuoRemUnique(0, radix, 0, 0);
    EmptyDigits(0, radix);
  }

  /** Whole numbers directly, the others by the search. */
  method PrintFinite(bits: nat, radix: nat, mode: ExpMode)
    returns (text: seq<char>, ghost d: seq<char>, ghost E: int)
    requires IsRadix(radix) && FiniteNonZero(bits) && -1080 <= Unpack(bits).e <= 1024
    ensures Prints(d, E, radix, Unpack(bits).m, Unpack(bits).e) && text == Format(d, E, radix, mode)
    ensures Chosen(d, E, Unpack(bits).m, Unpack(bits).e, radix, mode)
  {
    hide Info, Pow, PowR, IntDigits, ReadValue, Quo, Rem, Product, Rounded, LogFloor, ExpValue, Prints,
         FiniteNonZero, Format, MulLog2, SearchEnds, DigitString;
    UnpackedRange(bits);
    var u := Unpack(bits);
    if mode != Enabled && 1 <= u.e <= 53 && Rem(u.m, Pow(2, 53 - u.e)) == 0 {
      WholePrints(u.m, u.e, radix);
      var n := Quo(u.m, Pow(2, 53 - u.e));
      text := NumberToText(n, radix);
      d, E := text, |text|;
      WholeDigits(n, radix);
      WholeIsFormat(d, radix, mode);
    } else {
      var mant, P, E1 := DtoaFree(bits, radix);
      d, E := DigitString(mant, radix, P), E1;
      DigitsBound(mant, P, radix);
      SearchPrints(mant, P, E, radix, u.m, u.e);
      text := OutputNumber(mant, P, E1, radix, mode);
    }
  }

  lemma {:induction false} SearchPrints(mant: nat, P: nat, E: int, radix: nat, m: nat, e: int)
    requires IsRadix(radix) && Digits(mant, P, radix) && P <= Info(radix).maxDigits && -1080 <= e <= 1024
    requires 1 <= E - MulLog2(e - 1, radix) <= 2
    requires Rounded(Product(mant, 0, radix, E - P), m, e, ToNearestEven)
    ensures var d := DigitString(mant, radix, P);
            && |d| == P && ReadValue(d, radix) == mant && Prints(d, E, radix, m, e)
  {
    hide Info, Pow, PowR, ReadValue, Product, Rounded, LogFloor, ExpValue, Prints, MulLog2, DigitString, DigitChar;
    Printed(mant, P, radix);
    FirstDigit(mant, P, radix);
    MulLog2Exact(e - 1, radix);
    LogBound(radix, e, 1 + MulLog2(e - 1, radix));
    ExpValueBound(E, radix);
    PrintsIntro(DigitString(mant, radix, P), E, radix, m, e);
  }

  lemma {:induction false} ExponentRange(bits: nat)
    requires FiniteNonZero(bits)
    ensures -1080 <= Unpack(bits).e <= 1024
  {
    hide Unpack;
    UnpackedRange(bits);
  }

  lemma {:induction false} WholeIsFormat(d: seq<char>, radix: nat, mode: ExpMode)
    requires IsRadix(radix) && 0 < |d| <= Info(radix).maxDigits && mode != Enabled
    ensures Format(d, |d|, radix, mode) == d
  {
    hide Info;
    assert d + Zeros(0) == d;
  }

  lemma {:induction false} PrintsIntro(d: seq<char>, E: int, radix: nat, m: nat, e: int)
    requires IsRadix(radix) && Leading(d, radix) && |d| <= Info(radix).maxDigits
             && Abs(ExpValue(E, radix)) <= 2147483639
    requires (exists x: nat :: x < radix && d[0] == DigitChar(x))
    requires Rounded(Product(ReadValue(d, radix), 0, radix, E - |d|), m, e, ToNearestEven)
    ensures Prints(d, E, radix, m, e)
  {
    hide Info, ReadValue, Product, Rounded, DigitChar, ExpValue;
  }

  // ----- reading -----

  /** A literal text at p. */
  predicate TextAt(s: seq<char>, p: nat, t: seq<char>) {
    p + |t| <= |s| && s[p..p + |t|] == t
  }

  predicate HexPrefix(s: seq<char>, p: nat, radix: nat) {
    CharAt(s, p) == '0' && (CharAt(s, p + 1) == 'x' || CharAt(s, p + 1) == 'X') && radix == 16
  }

  function SignLength(s: seq<char>): nat { if CharAt(s, 0) == '+' || CharAt(s, 0) == '-' then 1 else 0 }

  /** What a text says, sign aside: a result that is known at once, or digits *
      radix^expn * 2^bexp. */
  datatype Reading = Fixed(result: Option<nat>) | Scaled(digits: seq<char>, expn: int, bexp: int)

  /** Where the digits start: after the sign and a hexadecimal prefix. */
  function DigitsStart(s: seq<char>, radix: nat): nat {
    if HexPrefix(s, SignLength(s), radix) then SignLength(s) + 2 else SignLength(s)
  }

  function Says(s: seq<char>, radix: nat, n: Number): Reading {
    var start := SignLength(s);
    if HexPrefix(s, start, radix) && ToDigit(CharAt(s, start + 2)) >= 16 then Fixed(None)
    else if CharAt(s, start) != '0' && TextAt(s, start, INFINITY_TEXT) then Fixed(Some(INFINITY))
    else NumberSays(n)
  }

  function NumberSays(n: Number): Reading {
    if n.NotANumber? then Fixed(None)
    else if n.digits == [] then Fixed(Some(0))
    else if n.huge then Fixed(Some(INFINITY))
    else if n.tiny then Fixed(Some(0))
    else Scaled(n.digits, n.expn, n.bexp)
  }

  /** What js_atod takes the text to say: an exponent too long to read is infinity or
      zero. */
  function ReadText(s: seq<char>, radix: nat): Reading
    requires IsRadix(radix)
  {
    Says(s, radix, ScanNumber(s, SignLength(s), DigitsStart(s, radix), radix))
  }

  /** What it says: all digits, and the exponent as written. */
  function Written(s: seq<char>, radix: nat): Reading
    requires IsRadix(radix)
  {
    Says(s, radix, WrittenNumber(s, SignLength(s), DigitsStart(s, radix), radix))
  }

  /** r is the double nearest to the number in the text, None for NaN. */
  ghost predicate Converts(s: seq<char>, radix: nat, r: Option<nat>)
    requires IsRadix(radix)
  {
    match Written(s, radix)
    case Fixed(result) => r == result
    case Scaled(digits, expn, bexp) => r.Some? && ReadsAs(FullValue(digits, radix, expn, bexp), r.value)
  }

  /** r is what js_atod returns: digits are dropped and the exponent is kept in 32 bits. */
  ghost predicate Computes(s: seq<char>, radix: nat, r: Option<nat>)
    requires IsRadix(radix)
  {
    match ReadText(s, radix)
    case Fixed(result) => r == result
    case Scaled(digits, expn, bexp) =>
      r.Some? && ReadsAs(ValueAt(digits, radix, ToInt32(Top(|digits|, radix, expn, bexp))), r.value)
  }

  /** The exponent as written, 0 if there is none. */
  function TextExponent(s: seq<char>, radix: nat): int
    requires IsRadix(radix)
  {
    var e := ExponentIn(s, SignLength(s), DigitsStart(s, radix), radix);
    if e.Exponent? then e.value else 0
  }

  /** The condition under which the two agree.  An exponent beyond 2147483639 is not
      read: then the number must be beyond the range.  Otherwise the 32-bit exponent
      and the digits dropped must do no harm. */
  ghost predicate Harmless(s: seq<char>, radix: nat)
    requires IsRadix(radix)
  {
    match Written(s, radix)
    case Fixed(result) => true
    case Scaled(digits, expn, bexp) =>
      var top, v := Top(|digits|, radix, expn, bexp), FullValue(digits, radix, expn, bexp);
      if TextExponent(s, radix) > MAX_READ then Overflows(v, radix, top)
      else if TextExponent(s, radix) < -MAX_READ then Underflows(v, radix, top)
      else Unharmed(digits, radix, top) && Uncut(digits, radix, expn, bexp)
  }

  /** The digits read after the leading zeros start with a nonzero digit. */
  lemma {:induction false} ScannedLeading(s: seq<char>, start: nat, radix: nat, c: Cursor, acc: seq<char>)
    requires IsRadix(radix) && AllDigits(acc, radix)
    ensures var digits := ReadAll(s, start, radix, c, acc).1;
            AllDigits(digits, radix) && acc <= digits
    decreases |s| - c.p
  {
    hide ToDigit;
    if !SecondDot(s, start, radix, c) {
      var d := PassDot(s, start, radix, c);
      if ToDigit(CharAt(s, d.p)) < radix {
        DigitsSnoc(acc, CharAt(s, d.p), radix);
        DotIsNoDigit();
        ScannedLeading(s, start, radix, Onward(d), acc + [CharAt(s, d.p)]);
      }
    }
  }

  lemma {:induction false} AfterZeros(s: seq<char>, start: nat, radix: nat, c: Cursor)
    requires IsRadix(radix) && c.p >= start
    ensures var d := SkipZeros(s, start, radix, c);
            var digits := ReadAll(s, start, radix, d, []).1;
            digits == [] || Leading(digits, radix)
    decreases |s| - c.p
  {
    if SecondDot(s, start, radix, c) {
    } else {
      var d := PassDot(s, start, radix, c);
      if CharAt(s, d.p) == '0' {
        AfterZeros(s, start, radix, Onward(d));
      } else {
        FirstKept(s, start, radix, d);
      }
    }
  }

  /** Reading from a character that is not a zero. */
  lemma {:induction false} FirstKept(s: seq<char>, start: nat, radix: nat, d: Cursor)
    requires IsRadix(radix) && CharAt(s, d.p) != '0' && (DotHere(s, start, radix, d.p) ==> d.dot >= 0)
    ensures var digits := ReadAll(s, start, radix, d, []).1;
            digits == [] || Leading(digits, radix)
  {
    DotIsNoDigit();
    if !DotHere(s, start, radix, d.p) {
      var x := CharAt(s, d.p);
      OnlyZero(x);
      hide ToDigit;
      if ToDigit(x) < radix {
        assert [] + [x] == [x] && AllDigits([x], radix);
        ScannedLeading(s, start, radix, Onward(d), [x]);
        var digits := ReadAll(s, start, radix, Onward(d), [x]).1;
        assert digits[0] == [x][0];
      }
    }
  }

  lemma {:induction false} OnlyZero(x: char)
    ensures ToDigit(x) == 0 <==> x == '0'
  {}

  method ExponentAt(s: seq<char>, start: nat, radix: nat, p: nat) returns (e: Exponent)
    requires IsRadix(radix)
    ensures e == ReadExponent(s, start, radix, p)
  {
    hide Ctz, OddOf, ToDigit;
    var radixBits := if OddOf(radix) == 1 then Ctz(radix) else 0;
    var letter := CharAt(s, p);
    var found :=
      || (radix == 10 && (letter == 'e' || letter == 'E'))
      || (radix != 10 && (letter == '@' || (radixBits >= 1 && radixBits <= 4 && (letter == 'p' || letter == 'P'))));
    if !(found && p > start) {
      return NoExponent;
    }
    var binary := letter == 'p' || letter == 'P';
    var q, negative := p + 1, false;
    if CharAt(s, q) == '+' {
      q := q + 1;
    } else if CharAt(s, q) == '-' {
      negative := true;
      q := q + 1;
    }
    var c := ToDigit(CharAt(s, q));
    if c >= 10 {
      return BadExponent;
    }
    var expn, overflow := ExpDigitsLoop(s, q + 1, c);
    var value: int := expn;
    if negative {
      value := -value;
    }
    e := Exponent(value, negative, binary, overflow);
  }

  /** The digits of a number start with a nonzero one. */
  lemma {:induction false} ReadLeading(s: seq<char>, radix: nat)
    requires IsRadix(radix)
    ensures ReadText(s, radix).Scaled? ==> Leading(ReadText(s, radix).digits, radix)
    ensures Written(s, radix).Scaled? ==> Leading(Written(s, radix).digits, radix)
  {
    hide SkipZeros, ReadAll, ReadExponent, WrittenExponent, ToDigit, Leading;
    AfterZeros(s, SignLength(s), radix, Cursor(DigitsStart(s, radix), -1, 0));
  }

  /** What js_atod reads is what is written, but for exponents it does not read. */
  lemma {:induction false} Readings(s: seq<char>, radix: nat)
    requires IsRadix(radix)
    ensures var t, w, e := ReadText(s, radix), Written(s, radix), TextExponent(s, radix);
            t == if w.Fixed? || -MAX_READ <= e <= MAX_READ then w else Fixed(Some(if e > 0 then INFINITY else 0))
  {
    hide ScanNumber, WrittenNumber, ToDigit, ExponentIn;
    ScanIsWritten(s, SignLength(s), DigitsStart(s, radix), radix);
  }

  /** Exponents of two belong to power-of-two radices. */
  lemma {:induction false} WrittenKind(s: seq<char>, radix: nat)
    requires IsRadix(radix) && Written(s, radix).Scaled? && RadixBits(radix) == 0
    ensures Written(s, radix).bexp == 0
  {
    hide ToDigit, AllExpDigits, RadixBits, SkipZeros, ReadAll;
  }

  /** A number beyond the range. */
  lemma {:induction false} BeyondExact(digits: seq<char>, radix: nat, expn: int, bexp: int)
    requires IsRadix(radix) && Leading(digits, radix) && (RadixBits(radix) == 0 ==> bexp == 0)
    ensures var top, v := Top(|digits|, radix, expn, bexp), FullValue(digits, radix, expn, bexp);
            && (ReadsAs(v, INFINITY) <==> Overflows(v, radix, top))
            && (ReadsAs(v, 0) <==> Underflows(v, radix, top))
  {
    hide PowR, ReadsAs, Overflows, Underflows, Within, Top, FullValue, Leading, RadixBits, OverflowLimit;
    var top, v := Top(|digits|, radix, expn, bexp), FullValue(digits, radix, expn, bexp);
    FullWithin(digits, radix, expn, bexp);
    RangeTests(v, radix, top);
    var lo, hi := WithinBounds(v, radix, top);
    var bits := ReadsSome(v, lo, hi);
    ReadsThresholds(v, bits);
    OneNearest(v, bits, INFINITY);
    OneNearest(v, bits, 0);
  }

  /** js_atod is right exactly when neither the limit on exponents, nor 32-bit
      exponents, nor the digits dropped did harm. */
  lemma {:induction false} ConvertsExactly(s: seq<char>, radix: nat, r: Option<nat>)
    requires IsRadix(radix) && Computes(s, radix, r)
    ensures Converts(s, radix, r) <==> Harmless(s, radix)
  {
    hide ReadText, Written, Leading, FullValue, ValueAt, ReadsAs, Top, Unharmed, ToInt32, Overflows, Underflows, Uncut,
         TextExponent, RadixBits;
    Readings(s, radix);
    var w := Written(s, radix);
    if w.Scaled? {
      ReadLeading(s, radix);
      if RadixBits(radix) == 0 {
        WrittenKind(s, radix);
      }
      if -MAX_READ <= TextExponent(s, radix) <= MAX_READ {
        AtodExact(w.digits, radix, w.expn, w.bexp, r.value);
      } else {
        BeyondExact(w.digits, radix, w.expn, w.bexp);
      }
    }
  }

  /** js_atod for an explicit radix, without digit separators. */
  method JsAtod(s: seq<char>, radix: nat) returns (r: Option<nat>, negative: bool)
    requires IsRadix(radix)
    ensures Computes(s, radix, r) && (negative <==> CharAt(s, 0) == '-')
    ensures Converts(s, radix, r) <==> Harmless(s, radix)
  {
    hide SkipZeros, ReadAll, ReadExponent, ToDigit, Leading, Meant, ReadsAs, Converts, Harmless, ValueAt, Top, ToInt32;
    negative := CharAt(s, 0) == '-';
    r := AtodUnsigned(s, radix);
    ConvertsExactly(s, radix, r);
  }

  /** The sign, the prefix of hexadecimal numbers and "Infinity". */
  method ReadPrefix(s: seq<char>, radix: nat) returns (start: nat, p: nat, known: Option<Reading>)
    ensures start == SignLength(s) <= p == DigitsStart(s, radix)
    ensures forall n: Number :: Says(s, radix, n) == if known.Some? then known.value else NumberSays(n)
    ensures known.Some? ==> known.value.Fixed?
  {
    hide ToDigit, NumberSays;
    p, known := 0, None;
    if CharAt(s, 0) == '+' {
      p := p + 1;
    } else if CharAt(s, 0) == '-' {
      p := p + 1;
    }
    start := p;
    if CharAt(s, p) == '0' {
      if (CharAt(s, p + 1) == 'x' || CharAt(s, p + 1) == 'X') && radix == 16 {
        p := p + 2;
        if ToDigit(CharAt(s, p)) >= radix {
          known := Some(Fixed(None));
        }
      }
    } else if p + 8 <= |s| && s[p..p + 8] == "Infinity" {
      known := Some(Fixed(Some(0x7ff * TWO52)));
    }
  }

  /** The number behind the sign. */
  method AtodUnsigned(s: seq<char>, radix: nat) returns (r: Option<nat>)
    requires IsRadix(radix)
    ensures Computes(s, radix, r)
  {
    hide SkipZeros, ReadAll, ReadExponent, ToDigit, Leading, Meant, ReadsAs, ValueAt, Top, ToInt32, RadixBits, Says,
         SignLength, DigitsStart;
    var start, p, known := ReadPrefix(s, radix);
    if known.Some? {
      return known.value.result;
    }
    AfterZeros(s, start, radix, Cursor(p, -1, 0));
    var c := SkipZerosLoop(s, start, radix, Cursor(p, -1, 0));
    var d, digits := ReadAllLoop(s, start, radix, c);
    var e := ExponentAt(s, start, radix, d.p);
    if e == BadExponent || d.p == start {
      return None;
    }
    if digits == [] {
      return Some(0);
    }
    var dot := if d.dot < 0 then d.pos else d.dot;
    var value, binary := 0, false;
    if e != NoExponent {
      if e.overflow {
        return Some(if e.negative then 0 else INFINITY);
      }
      value, binary := e.value, e.binary;
      ExponentKind(s, start, radix, d.p);
    }
    var bits := Atod(digits, radix, dot - c.pos, value, binary);
    r := Some(bits);
  }

  /** Exponents of two belong to power-of-two radices. */
  lemma {:induction false} ExponentKind(s: seq<char>, start: nat, radix: nat, p: nat)
    requires IsRadix(radix)
    ensures var e := ReadExponent(s, start, radix, p);
            e.Exponent? && e.binary ==> RadixBits(radix) != 0
  {
    hide ToDigit, ExpDigits, RadixBits;
  }

  // ----- both ways -----

  lemma {:induction false} DigitCharPlain(x: nat)
    requires x < 36
    ensures DigitChar(x) != '+' && DigitChar(x) != '-' && DigitChar(x) != 'I' && DigitChar(x) != '.'
  {}

  /** A printed number does not look like a sign, a prefix or "Infinity". */
  lemma {:induction false} FormatStart(d: seq<char>, E: int, radix: nat, mode: ExpMode)
    requires IsRadix(radix) && Leading(d, radix) && exists x: nat :: x < radix && d[0] == DigitChar(x)
    ensures var f := Format(d, E, radix, mode);
            && f != [] && f[0] != '+' && f[0] != '-' && f[0] != 'I' && (f[0] == '0' ==> |f| > 1 && f[1] == '.')
  {
    LeadingChar(d, radix);
    var x: nat :| x < radix && d[0] == DigitChar(x);
    DigitCharPlain(x);
    hide ToDigit, DigitChar, ExponentText, ExpChar, UsesExponent, ExpValue;
  }

  lemma {:induction false} SignedStart(s: seq<char>, negative: bool, f: seq<char>)
    requires s == SignText(negative) + f && f != [] && f[0] != '+' && f[0] != '-'
    ensures SignLength(s) == |SignText(negative)| && s[|SignText(negative)|..] == f
    ensures (CharAt(s, 0) == '-' <==> negative)
    ensures forall i :: 0 <= i < |f| ==> CharAt(s, |SignText(negative)| + i) == f[i]
  {}

  /** Reading the text of a finite nonzero double. */
  lemma {:induction false} ComputesBack(s: seq<char>, negative: bool, d: seq<char>, E: int, radix: nat, mode: ExpMode,
          m: nat, e: int, r: Option<nat>)
    requires IsRadix(radix) && Prints(d, E, radix, m, e) && 0 < m && e <= 1024 && d != []
    requires s == SignText(negative) + Format(d, E, radix, mode) && Computes(s, radix, r)
    ensures r == Some(Pack(m, e)) && (CharAt(s, 0) == '-' <==> negative)
  {
    hide Format, ScanNumber, ToDigit, ReadsAs, Meant, Info, ExpValue, Rounded, Product, ReadValue, DigitChar, Pack,
         Leading, Computes, TextAt, CharAt,
         SignLength, HexPrefix, SignText, PowR, OverflowLimit;
    var start := TextStart(s, negative, d, E, radix, mode);
    FormatScans(s, start, radix, d, E, mode);
    LeadingNonEmpty(ScanNumber(s, start, start, radix).digits, radix);
    FiniteRange(Product(ReadValue(d, radix), 0, radix, E - |d|), m, e);
    ComputesNumber(s, start, radix, r);
    ReadsAsUnique(Product(ReadValue(d, radix), 0, radix, E - |d|), m, e, r.value);
  }

  /** The number starts right after the sign. */
  lemma {:induction false} TextStart(s: seq<char>, negative: bool, d: seq<char>, E: int, radix: nat, mode: ExpMode)
    returns (start: nat)
    requires IsRadix(radix) && Leading(d, radix) && exists x: nat :: x < radix && d[0] == DigitChar(x)
    requires s == SignText(negative) + Format(d, E, radix, mode)
    ensures start <= |s| && s[start..] == Format(d, E, radix, mode) && SignLength(s) == start
    ensures !HexPrefix(s, start, radix) && !TextAt(s, start, INFINITY_TEXT) && (CharAt(s, 0) == '-' <==> negative)
  {
    FormatStart(d, E, radix, mode);
    hide Format, ToDigit, DigitChar;
    var f := Format(d, E, radix, mode);
    start := |SignText(negative)|;
    SignedStart(s, negative, f);
    assert CharAt(s, start + 0) == f[0] && (|f| > 1 ==> CharAt(s, start + 1) == f[1]);
    NotInfinity(s, start);
  }

  /** What rounds to a finite nonzero double is in range. */
  lemma {:induction false} FiniteRange(v: real, m: nat, e: int)
    requires Rounded(v, m, e, ToNearestEven) && 0 < m && e <= 1024
    ensures PowR(2, -1075) < v < OverflowLimit()
  {
    hide PowR, OverflowLimit, RoundedAt;
    var t :| RoundedAt(v, t, m, e, ToNearestEven);
    RoundedOverflow(v, t, m, e);
    RoundedUnderflow(v, t, m, e);
  }

  /** A text without prefix that scans as a number in range. */
  lemma {:induction false} ComputesNumber(s: seq<char>, start: nat, radix: nat, r: Option<nat>)
    requires IsRadix(radix) && Computes(s, radix, r) && SignLength(s) == start && !HexPrefix(s, start, radix)
    requires !TextAt(s, start, INFINITY_TEXT)
    requires var n := ScanNumber(s, start, start, radix);
             && n.Number? && n.digits != [] && !n.huge && !n.tiny
             && PowR(2, -1075) < Meant(n.digits, radix, n.expn, n.bexp) < OverflowLimit()
    ensures var n := ScanNumber(s, start, start, radix);
            r.Some? && ReadsAs(Meant(n.digits, radix, n.expn, n.bexp), r.value)
  {
    hide ScanNumber, Meant, ReadsAs, Leading, ToDigit, ValueAt, Top, ToInt32, PowR, OverflowLimit;
    ReadLeading(s, radix);
    var n := ScanNumber(s, start, start, radix);
    KeptInRange(n.digits, radix, n.expn, n.bexp, r.value);
  }

  lemma {:induction false} PrintsNonEmpty(d: seq<char>, E: int, radix: nat, m: nat, e: int)
    requires IsRadix(radix) && Prints(d, E, radix, m, e)
    ensures d != []
  {
    hide Info, Rounded, Product, ReadValue, ExpValue;
  }

  lemma {:induction false} LeadingNonEmpty(d: seq<char>, radix: nat)
    ensures Leading(d, radix) ==> d != []
  {}

  lemma {:induction false} NotInfinity(s: seq<char>, p: nat)
    ensures CharAt(s, p) != 'I' ==> !TextAt(s, p, INFINITY_TEXT)
  {
    if TextAt(s, p, INFINITY_TEXT) {
      assert s[p] == s[p..p + |INFINITY_TEXT|][0] == 'I';
    }
  }

  /** Zero. */
  lemma {:induction false} ZeroComputes(s: seq<char>, negative: bool, radix: nat, mode: ExpMode, r: Option<nat>)
    requires IsRadix(radix) && s == SignText(negative) + Format("0", 1, radix, mode) && Computes(s, radix, r)
    ensures r == Some(0) && (CharAt(s, 0) == '-' <==> negative)
  {
    var f, start := Format("0", 1, radix, mode), |SignText(negative)|;
    ZeroText(radix, mode);
    SignedStart(s, negative, f);
    assert CharAt(s, start + 0) == '0';
    ZeroScans(s, start, radix, mode);
  }

  lemma {:induction false} ZeroText(radix: nat, mode: ExpMode)
    requires IsRadix(radix)
    ensures Format("0", 1, radix, mode)
            == if mode == Enabled then ['0', ExpChar(radix)] + ExponentText(0) else ['0']
  {
    DigitsTable(radix);
    hide Info, RadixBits, ExponentText, ExpChar;
    assert ['0'] + Zeros(0) == ['0'] && ['0'] + [ExpChar(radix)] == ['0', ExpChar(radix)];
    assert (1 - 1) * RadixBits(radix) == 0;
  }

  lemma {:induction false} ZeroScans(s: seq<char>, start: nat, radix: nat, mode: ExpMode)
    requires IsRadix(radix) && start <= |s|
    requires s[start..] == if mode == Enabled then ['0', ExpChar(radix)] + ExponentText(0) else ['0']
    ensures !HexPrefix(s, start, radix)
    ensures ScanNumber(s, start, start, radix).Number? && ScanNumber(s, start, start, radix).digits == []
  {
    var t := s[start..];
    assert s[start] == t[0] == '0';
    var p := start + 1;
    if mode == Enabled {
      assert s[p] == t[1] == ExpChar(radix);
      assert s[p + 1..] == t[2..] == ExponentText(0);
      ExpCharStops(s, p, radix);
      ExponentRead(s, start, radix, p, 0);
    } else {
      assert |s| == p;
      NothingFollows(s, start, radix);
    }
    ExpCharPlain(radix);
    hide ReadExponent, ExponentText, ExpChar, ToDigit, IntDigits, RadixBits;
    ZeroSkipped(s, start, radix);
    ReadStops(s, start, radix, Cursor(p, -1, 1), []);
  }

  lemma {:induction false} ExpCharPlain(radix: nat)
    requires IsRadix(radix)
    ensures ExpChar(radix) != '0' && ExpChar(radix) != 'x' && ExpChar(radix) != 'X' && ExpChar(radix) != '.'
  {
    hide RadixBits;
  }

  lemma {:induction false} ZeroSkipped(s: seq<char>, start: nat, radix: nat)
    requires start < |s| && s[start] == '0' && CharAt(s, start + 1) != '0' && CharAt(s, start + 1) != '.'
    ensures SkipZeros(s, start, radix, Cursor(start, -1, 0)) == Cursor(start + 1, -1, 1)
  {
    assert SkipZeros(s, start, radix, Cursor(start, -1, 0)) == SkipZeros(s, start, radix, Cursor(start + 1, -1, 1));
  }

  lemma {:induction false} InfinityComputes(s: seq<char>, negative: bool, radix: nat, r: Option<nat>)
    requires IsRadix(radix) && s == SignText(negative) + INFINITY_TEXT && Computes(s, radix, r)
    ensures r == Some(INFINITY) && (CharAt(s, 0) == '-' <==> negative)
  {
    var start := |SignText(negative)|;
    SignedStart(s, negative, INFINITY_TEXT);
    hide ScanNumber, ToDigit;
    assert CharAt(s, start + 0) == INFINITY_TEXT[0] == 'I';
    assert s[start..start + |INFINITY_TEXT|] == s[start..];
  }

  /** From 24 on, the letters of "NaN" are digits. */
  lemma {:induction false} NanComputes(radix: nat, r: Option<nat>)
    requires IsRadix(radix) && Computes("NaN", radix, r)
    ensures r == None <==> radix < 24
  {
    hide ReadsAs, ValueAt, Top, ToInt32, Meant;
    var s: seq<char> := "NaN";
    assert ToDigit('N') == 23 && ToDigit('a') == 10;
    NothingFollows(s, 0, radix);
    if radix < 24 {
      ReadStops(s, 0, radix, Cursor(0, -1, 0), []);
    } else {
      assert Leading(s, radix);
      assert WithDot(s, 3) == s && s[0..3] == s;
      ScanDotted(s, 0, radix, s, 3);
      PlainResult(s, 0, radix, Cursor(0, -1, 0), Cursor(3, -1, 3), s);
    }
  }

  /** Every double, printed in free format in any radix and exponent mode and read
      again, gives the same bits, but for a negative zero printed without its sign,
      which gives zero, and for NaN, which is read as a number from radix 24 on. */
  method RoundTrip(bits: nat, radix: nat, mode: ExpMode, minusZero: bool) returns (back: Option<nat>)
    requires IsRadix(radix) && bits < 2 * SIGN
    ensures bits % SIGN <= INFINITY ==> (back == Some(bits) <==> (bits == SIGN ==> minusZero))
    ensures bits == SIGN && !minusZero ==> back == Some(0)
    ensures bits % SIGN > INFINITY ==> (back == None <==> radix < 24)
  {
    hide Pow, PowR, Prints, Computes, Converts, Harmless, Format, Pack, Chosen, Unpack, FiniteNonZero, CharAt, SignText;
    var text, d, E := JsDtoa(bits, radix, mode, minusZero);
    var r, negative := JsAtod(text, radix);
    Kinds(bits);
    if bits % SIGN == 0 {
      ZeroComputes(text, bits >= SIGN && minusZero, radix, mode, r);
    } else if bits % SIGN == INFINITY {
      InfinityText(bits >= SIGN);
      InfinityComputes(text, bits >= SIGN, radix, r);
    } else if bits % SIGN > INFINITY {
      NanComputes(radix, r);
    } else {
      FiniteBack(bits, radix, mode, text, d, E, r);
    }
    back := if r.None? then None else Some(r.value + SignBit(negative));
  }

  lemma {:induction false} Kinds(bits: nat)
    requires bits < 2 * SIGN
    ensures bits == bits % SIGN + (if bits >= SIGN then SIGN else 0)
  {}

  lemma {:induction false} InfinityText(negative: bool)
    ensures SignText(negative) + INFINITY_TEXT == if negative then "-Infinity" else "Infinity"
  {}

  /** A finite nonzero double is read back. */
  lemma {:induction false} FiniteBack(bits: nat, radix: nat, mode: ExpMode, text: seq<char>, d: seq<char>, E: int,
          r: Option<nat>)
    requires IsRadix(radix) && bits < 2 * SIGN && bits % SIGN < INFINITY && bits % SIGN != 0
    requires FiniteNonZero(bits) ==>
               && Prints(d, E, radix, Unpack(bits).m, Unpack(bits).e)
               && text == SignText(bits >= SIGN) + Format(d, E, radix, mode)
    requires Computes(text, radix, r)
    ensures r == Some(bits % SIGN) && (CharAt(text, 0) == '-' <==> bits >= SIGN)
  {
    hide Pow, PowR, Prints, Computes, Format, Pack, CharAt, SignText, Representable;
    FiniteBits(bits);
    hide Unpack, FiniteNonZero;
    UnpackedRange(bits);
    PositiveSignificand(Unpack(bits).m, Unpack(bits).e);
    PrintsNonEmpty(d, E, radix, Unpack(bits).m, Unpack(bits).e);
    ComputesBack(text, bits >= SIGN, d, E, radix, mode, Unpack(bits).m, Unpack(bits).e, r);
    PackUnpack(bits);
    Kinds(bits);
  }

  lemma {:induction false} FiniteBits(bits: nat)
    requires bits < 2 * SIGN && bits % SIGN < INFINITY && bits % SIGN != 0
    ensures FiniteNonZero(bits) && (Unpack(bits).negative <==> bits >= SIGN)
  {}

  lemma {:induction false} PositiveSignificand(m: nat, e: int)
    requires Representable(m, e)
    ensures m > 0
  {
    hide Pow;
  }
}
