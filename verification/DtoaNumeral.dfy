/** A grammar of numerals: js_atod reads every one of them as its value, and what js_dtoa
    prints is the numeral of its digits. */
module DtoaNumeral {
  import opened Basics
  import opened DtoaPow
  import opened DtoaReal
  import opened DtoaRound
  import opened DtoaTables
  import opened DtoaScale
  import opened DtoaSearch
  import opened DtoaDigits
  import opened DtoaScan
  import opened DtoaText
  import opened Dtoa
  import opened DtoaWrap
  import opened DtoaRoundTrip
  import opened DtoaInexact

  // ----- the grammar -----

  datatype Sign = NoSign | Plus | Minus

  datatype ExpPart = NoExp | Exp(letter: char, sign: Sign, digits: seq<char>)

  datatype Numeral =
    Numeral(sign: Sign, prefix: seq<char>, whole: seq<char>, dot: bool, frac: seq<char>, exp: ExpPart)

  function SignChars(sign: Sign): seq<char> {
    match sign
    case NoSign => ""
    case Plus => "+"
    case Minus => "-"
  }

  function ExpChars(e: ExpPart): seq<char> {
    if e.NoExp? then "" else [e.letter] + (SignChars(e.sign) + e.digits)
  }

  function Mantissa(whole: seq<char>, dot: bool, frac: seq<char>): seq<char> {
    if dot then whole + ['.'] + frac else whole
  }

  function Spelled(n: Numeral): seq<char> {
    SignChars(n.sign) + n.prefix + Mantissa(n.whole, n.dot, n.frac) + ExpChars(n.exp)
  }

  /** e or E in radix 10; @ in the others, and p or P in radix 2, 4, 8 and 16. */
  predicate ExpLetter(c: char, radix: nat) {
    if radix == 10 then c == 'e' || c == 'E'
    else c == '@' || ((c == 'p' || c == 'P') && (radix == 2 || radix == 4 || radix == 8 || radix == 16))
  }

  predicate MantissaOk(whole: seq<char>, dot: bool, frac: seq<char>, radix: nat) {
    && AllDigits(whole, radix) && AllDigits(frac, radix)
    && (whole != [] || frac != []) && (!dot ==> frac == [])
  }

  predicate ExpOk(e: ExpPart, radix: nat) {
    e.Exp? ==> ExpLetter(e.letter, radix) && e.digits != [] && AllDigits(e.digits, 10)
  }

  predicate IsNumeral(n: Numeral, radix: nat) {
    && MantissaOk(n.whole, n.dot, n.frac, radix) && ExpOk(n.exp, radix)
    && (n.prefix == "" || (radix == 16 && n.whole != [] && (n.prefix == "0x" || n.prefix == "0X")))
  }

  // ----- its value -----

  predicate IsBinary(e: ExpPart) { e.Exp? && (e.letter == 'p' || e.letter == 'P') }

  function ExpInt(e: ExpPart): int {
    if e.NoExp? then 0
    else if e.sign == Minus then 0 - ReadValue(e.digits, 10)
    else ReadValue(e.digits, 10)
  }

  /** whole.frac times a power of the radix, or of two behind p. */
  ghost function NumeralValue(n: Numeral, radix: nat): real
    requires radix > 0
  {
    var a, x := ReadValue(n.whole + n.frac, radix), ExpInt(n.exp);
    if IsBinary(n.exp) then Product(a, x, radix, 0 - |n.frac|) else Product(a, 0, radix, x - |n.frac|)
  }

  // ----- scanning the mantissa -----

  lemma {:induction false} ZerosEnd(s: seq<char>, start: nat, radix: nat, c: Cursor)
    requires CharAt(s, c.p) != '0' && CharAt(s, c.p) != '.'
    ensures SkipZeros(s, start, radix, c) == c
  {}

  /** The first dot, among zeros. */
  lemma {:induction false} DotPassed(s: seq<char>, start: nat, radix: nat, c: Cursor)
    requires DotHere(s, start, radix, c.p) && c.dot < 0 && CharAt(s, c.p + 1) != '.'
    ensures SkipZeros(s, start, radix, c) == SkipZeros(s, start, radix, Cursor(c.p + 1, c.pos, c.pos))
  {
    var d := Cursor(c.p + 1, c.pos, c.pos);
    assert PassDot(s, start, radix, c) == d && PassDot(s, start, radix, d) == d;
  }

  /** Where the pieces of the mantissa stand. */
  lemma {:induction false} Pieces(s: seq<char>, p: nat, whole: seq<char>, dot: bool, frac: seq<char>)
    requires var w := Mantissa(whole, dot, frac); p + |w| <= |s| && s[p..p + |w|] == w
    ensures s[p..p + |whole|] == whole
    ensures dot ==>
      && p + |whole| + 1 + |frac| <= |s| && s[p + |whole|] == '.'
      && s[p + |whole| + 1..p + |whole| + 1 + |frac|] == frac
  {
    var w, k := Mantissa(whole, dot, frac), |whole|;
    Inner(s, p, w, 0, k);
    assert w[0..k] == whole && s[p + 0..p + k] == s[p..p + k];
    if dot {
      Inner(s, p, w, k + 1, |w|);
      assert w[k + 1..|w|] == frac && s[p + k] == w[k];
      assert s[p + (k + 1)..p + |w|] == s[p + k + 1..p + k + 1 + |frac|];
    }
  }

  /** Zeros at the front. */
  function FrontZeros(t: seq<char>): (z: nat)
    ensures z <= |t| && (forall i :: 0 <= i < z ==> t[i] == '0') && (z < |t| ==> t[z] != '0')
  {
    if t == [] || t[0] != '0' then 0 else 1 + FrontZeros(t[1..])
  }

  /** What the two loops make of a mantissa: the zeros at its front are skipped, and the
      place of the dot is remembered. */
  ghost predicate Scans(s: seq<char>, start: nat, p: nat, radix: nat, whole: seq<char>, dot: bool, frac: seq<char>)
    requires radix <= 36
  {
    var all, z := whole + frac, FrontZeros(whole + frac);
    var c := SkipZeros(s, start, radix, Cursor(p, -1, 0));
    var r := ReadAll(s, start, radix, c, []);
    && c.pos == z && r.1 == all[z..]
    && r.0 == Cursor(p + |Mantissa(whole, dot, frac)|, if dot then |whole| else -1, |all|)
  }

  lemma {:induction false} FrontConcat(a: seq<char>, b: seq<char>)
    ensures FrontZeros(a + b) == if FrontZeros(a) < |a| then FrontZeros(a) else |a| + FrontZeros(b)
  {
    var z := FrontZeros(a + b);
    var y := if FrontZeros(a) < |a| then FrontZeros(a) else |a| + FrontZeros(b);
    assert forall i :: 0 <= i < y ==> (a + b)[i] == '0';
    assert y < |a + b| ==> (a + b)[y] != '0';
  }

  /** A nonzero digit in front of the dot. */
  lemma {:induction false} ScanWhole(s: seq<char>, start: nat, p: nat, radix: nat, whole: seq<char>, dot: bool,
          frac: seq<char>)
    requires IsRadix(radix) && start <= p && MantissaOk(whole, dot, frac, radix) && FrontZeros(whole) < |whole|
    requires var w := Mantissa(whole, dot, frac);
             p + |w| <= |s| && s[p..p + |w|] == w && Stops(s, p + |w|, radix)
    ensures Scans(s, start, p, radix, whole, dot, frac)
  {
    hide ToDigit, SkipZeros, ReadAll, DotHere, FrontZeros, AllDigits;
    var z, k := FrontZeros(whole), |whole|;
    Pieces(s, p, whole, dot, frac);
    FrontConcat(whole, frac);
    PieceChars(s, p, whole);
    PieceDigit(whole, radix, z);
    ZerosPassed(s, start, radix, Cursor(p, -1, 0), z);
    ZerosEnd(s, start, radix, Cursor(p + z, -1, z));
    TailPassed(s, start, radix, p, whole, z, -1, 0);
    if dot {
      var e := p + k + 1 + |frac|;
      AfterDot(s, p + k + 1, frac, radix);
      ReadPastDot(s, start, radix, Cursor(p + k, -1, k), whole[z..]);
      DigitsPassed(s, start, radix, Cursor(p + k + 1, k, k), whole[z..], |frac|);
      ReadStops(s, start, radix, Cursor(e, k, k + |frac|), whole[z..] + frac);
      assert (whole + frac)[z..] == whole[z..] + frac;
    } else {
      ReadStops(s, start, radix, Cursor(p + k, -1, k), whole[z..]);
      assert (whole + frac)[z..] == whole[z..];
    }
  }

  lemma {:induction false} PieceChars(s: seq<char>, p: nat, t: seq<char>)
    requires p + |t| <= |s| && s[p..p + |t|] == t
    ensures forall i :: 0 <= i < |t| ==> s[p + i] == t[i]
    ensures forall i :: p <= i < p + FrontZeros(t) ==> s[i] == '0'
  {
    hide FrontZeros;
    forall i | 0 <= i < |t| ensures s[p + i] == t[i] {
      assert s[p..p + |t|][i] == s[p + i];
    }
    forall i | p <= i < p + FrontZeros(t) ensures s[i] == '0' {
      assert s[p + (i - p)] == t[i - p];
    }
  }

  /** The digits from z on. */
  lemma {:induction false} TailPassed(s: seq<char>, start: nat, radix: nat, p: nat, t: seq<char>, z: nat, dot: int,
          pos: nat)
    requires IsRadix(radix) && p + |t| <= |s| && s[p..p + |t|] == t && z <= |t| && AllDigits(t, radix)
    ensures ReadAll(s, start, radix, Cursor(p + z, dot, pos + z), [])
            == ReadAll(s, start, radix, Cursor(p + |t|, dot, pos + |t|), t[z..])
  {
    hide ReadAll, AllDigits;
    SubDigits(t, radix, z, |t|);
    var n := |t| - z;
    assert s[p + z..p + z + n] == s[p..p + |t|][z..] == t[z..|t|];
    DigitsPassed(s, start, radix, Cursor(p + z, dot, pos + z), [], n);
    assert [] + t[z..|t|] == t[z..];
  }

  lemma {:induction false} PieceDigit(t: seq<char>, radix: nat, z: nat)
    requires AllDigits(t, radix) && z < |t| && radix <= 36
    ensures t[z] != '.' && t[z] != '\0'
  {
    DotIsNoDigit();
    assert ToDigit(t[z]) < radix;
  }

  /** What stands behind the dot is no dot. */
  lemma {:induction false} AfterDot(s: seq<char>, p: nat, frac: seq<char>, radix: nat)
    requires IsRadix(radix) && AllDigits(frac, radix) && p + |frac| <= |s| && s[p..p + |frac|] == frac
    requires Stops(s, p + |frac|, radix)
    ensures CharAt(s, p) != '.' && (frac != [] ==> ToDigit(CharAt(s, p)) < radix)
  {
    hide ToDigit, FrontZeros;
    DotIsNoDigit();
    if frac != [] {
      PieceChars(s, p, frac);
      assert s[p + 0] == frac[0];
    }
  }

  /** Only zeros in front of the dot, or nothing. */
  lemma {:induction false} ScanFraction(s: seq<char>, start: nat, p: nat, radix: nat, whole: seq<char>,
          frac: seq<char>)
    requires IsRadix(radix) && start <= p && MantissaOk(whole, true, frac, radix) && FrontZeros(whole) == |whole|
    requires var w := Mantissa(whole, true, frac);
             p + |w| <= |s| && s[p..p + |w|] == w && Stops(s, p + |w|, radix)
    ensures Scans(s, start, p, radix, whole, true, frac)
  {
    hide ToDigit, SkipZeros, ReadAll, FrontZeros, AllDigits;
    var y, k, n := FrontZeros(frac), |whole|, |frac|;
    var q := p + k + 1;
    Pieces(s, p, whole, true, frac);
    FrontConcat(whole, frac);
    PieceChars(s, p, whole);
    PieceChars(s, q, frac);
    AfterDot(s, q, frac, radix);
    ZerosPassed(s, start, radix, Cursor(p, -1, 0), k);
    DotPassed(s, start, radix, Cursor(p + k, -1, k));
    ZerosPassed(s, start, radix, Cursor(q, k, k), y);
    FractionEnds(s, q, frac, radix);
    ZerosEnd(s, start, radix, Cursor(q + y, k, k + y));
    TailPassed(s, start, radix, q, frac, y, k, k);
    ReadStops(s, start, radix, Cursor(q + n, k, k + n), frac[y..]);
    assert (whole + frac)[k + y..] == frac[y..];
  }

  lemma {:induction false} FractionEnds(s: seq<char>, q: nat, frac: seq<char>, radix: nat)
    requires IsRadix(radix) && AllDigits(frac, radix) && q + |frac| <= |s| && s[q..q + |frac|] == frac
    requires Stops(s, q + |frac|, radix)
    ensures CharAt(s, q + FrontZeros(frac)) != '0' && CharAt(s, q + FrontZeros(frac)) != '.'
  {
    hide FrontZeros;
    var y := FrontZeros(frac);
    if y < |frac| {
      PieceChars(s, q, frac);
      assert s[q + y] == frac[y];
      PieceDigit(frac, radix, y);
    } else {
      assert ToDigit('0') == 0;
    }
  }

  /** Zeros alone, without a dot. */
  lemma {:induction false} ScanNothing(s: seq<char>, start: nat, p: nat, radix: nat, whole: seq<char>)
    requires IsRadix(radix) && start <= p && AllDigits(whole, radix) && FrontZeros(whole) == |whole|
    requires p + |whole| <= |s| && s[p..p + |whole|] == whole && Stops(s, p + |whole|, radix)
    ensures Scans(s, start, p, radix, whole, false, [])
  {
    hide ToDigit, SkipZeros, ReadAll, FrontZeros, AllDigits;
    var k := |whole|;
    assert whole + [] == whole && whole[k..] == [];
    PieceChars(s, p, whole);
    ZerosPassed(s, start, radix, Cursor(p, -1, 0), k);
    FractionEnds(s, p, whole, radix);
    ZerosEnd(s, start, radix, Cursor(p + k, -1, k));
    ReadStops(s, start, radix, Cursor(p + k, -1, k), []);
  }

  lemma {:induction false} ScanMantissa(s: seq<char>, start: nat, p: nat, radix: nat, whole: seq<char>, dot: bool,
          frac: seq<char>)
    requires IsRadix(radix) && start <= p && MantissaOk(whole, dot, frac, radix)
    requires var w := Mantissa(whole, dot, frac);
             p + |w| <= |s| && s[p..p + |w|] == w && Stops(s, p + |w|, radix)
    ensures Scans(s, start, p, radix, whole, dot, frac)
  {
    hide Scans, FrontZeros, AllDigits, Stops;
    if FrontZeros(whole) < |whole| {
      ScanWhole(s, start, p, radix, whole, dot, frac);
    } else if dot {
      ScanFraction(s, start, p, radix, whole, frac);
    } else {
      ScanNothing(s, start, p, radix, whole);
    }
  }

  // ----- the exponent -----

  lemma {:induction false} PowerRadices(radix: nat)
    requires IsRadix(radix)
    ensures 1 <= RadixBits(radix) <= 4 <==> radix == 2 || radix == 4 || radix == 8 || radix == 16
  {
    assert RadixBits(2) == 1;
    assert RadixBits(4) == 2;
    assert RadixBits(8) == 3;
    assert RadixBits(16) == 4;
    if RadixBits(radix) != 0 {
      BinaryRadix(radix);
      assert Pow(2, 1) == 2 && Pow(2, 2) == 4 && Pow(2, 3) == 8 && Pow(2, 4) == 16;
    }
  }

  lemma {:induction false} LetterStops(c: char, radix: nat)
    requires IsRadix(radix) && ExpLetter(c, radix)
    ensures c != '.' && ToDigit(c) >= radix
  {}

  /** The letter tells whether there is an exponent. */
  lemma {:induction false} ExpFound(s: seq<char>, start: nat, radix: nat, p: nat, e: ExpPart)
    requires IsRadix(radix) && start < p <= |s| && s[p..] == ExpChars(e) && ExpOk(e, radix)
    ensures Stops(s, p, radix) && (HasExponent(s, start, radix, p) <==> e.Exp?)
    ensures IsBinary(e) <==> CharAt(s, p) == 'p' || CharAt(s, p) == 'P'
  {
    hide ToDigit, RadixBits, AllDigits;
    DotIsNoDigit();
    PowerRadices(radix);
    if e.Exp? {
      LetterStops(e.letter, radix);
      assert s[p] == s[p..][0] == e.letter;
    }
  }

  /** The exponent's digits, from q on. */
  lemma {:induction false} ExpNumber(s: seq<char>, q: nat, t: seq<char>)
    requires q <= |s| && s[q..] == t && t != [] && AllDigits(t, 10)
    ensures ToDigit(CharAt(s, q)) < 10 && AllExpDigits(s, q + 1, ToDigit(CharAt(s, q))) == ReadValue(t, 10)
  {
    hide ToDigit, ReadValue, Pow, AllExpDigits, AllDigits;
    ReadHead(t, 10);
    assert s[q] == s[q..][0] && s[q + 1..] == s[q..][1..];
    AllExpRead(s, q + 1, ToDigit(t[0]), t[1..]);
  }

  lemma {:induction false} ExpPartRead(s: seq<char>, start: nat, radix: nat, p: nat, e: ExpPart)
    requires IsRadix(radix) && start < p <= |s| && s[p..] == ExpChars(e) && ExpOk(e, radix)
    ensures Stops(s, p, radix)
    ensures WrittenExponent(s, start, radix, p)
            == if e.NoExp? then NoExponent else Exponent(ExpInt(e), e.sign == Minus, IsBinary(e), false)
  {
    hide ToDigit, ReadValue, AllExpDigits, AllDigits, HasExponent, Stops, CharAt, ExpLetter;
    ExpFound(s, start, radix, p, e);
    if e.Exp? {
      var q := p + 1 + |SignChars(e.sign)|;
      assert s[q..] == s[p..][1 + |SignChars(e.sign)|..] == e.digits;
      ExpSign(s, p, e);
      ExpNumber(s, q, e.digits);
    }
  }

  lemma {:induction false} ExpSign(s: seq<char>, p: nat, e: ExpPart)
    requires p <= |s| && e.Exp? && s[p..] == ExpChars(e) && e.digits != [] && AllDigits(e.digits, 10)
    ensures (CharAt(s, p + 1) == '-' <==> e.sign == Minus) && (CharAt(s, p + 1) == '+' <==> e.sign == Plus)
  {
    assert s[p + 1] == s[p..][1];
    assert ToDigit(e.digits[0]) < 10;
  }

  // ----- the number -----

  lemma {:induction false} NumeralNumber(s: seq<char>, start: nat, p: nat, radix: nat, n: Numeral)
    requires IsRadix(radix) && start <= p <= |s|
    requires MantissaOk(n.whole, n.dot, n.frac, radix) && ExpOk(n.exp, radix)
    requires s[p..] == Mantissa(n.whole, n.dot, n.frac) + ExpChars(n.exp)
    ensures var all := n.whole + n.frac;
            var x, b := ExpInt(n.exp), IsBinary(n.exp);
            WrittenNumber(s, start, p, radix)
            == Number(all[FrontZeros(all)..], (if b then 0 else x) - |n.frac|, if b then x else 0, false, false)
  {
    hide SkipZeros, ReadAll, WrittenExponent, MantissaOk, FrontZeros, ExpOk, ReadValue, Stops, ExpChars;
    var w := Mantissa(n.whole, n.dot, n.frac);
    var q := p + |w|;
    MantissaSize(n.whole, n.dot, n.frac, radix);
    assert s[p..q] == s[p..][..|w|] == w;
    assert s[q..] == s[p..][|w|..] == ExpChars(n.exp);
    ExpPartRead(s, start, radix, q, n.exp);
    ScanMantissa(s, start, p, radix, n.whole, n.dot, n.frac);
  }

  lemma {:induction false} MantissaSize(whole: seq<char>, dot: bool, frac: seq<char>, radix: nat)
    requires MantissaOk(whole, dot, frac, radix)
    ensures |Mantissa(whole, dot, frac)| > 0 && (!dot ==> frac == [])
  {}

  /** The digits begin with the letters of "Infinity", which radix 35 and 36 allow. */
  predicate LooksInfinite(n: Numeral) {
    n.prefix == "" && "Infinity" <= n.whole
  }

  /** What comes first behind the sign and the prefix. */
  lemma {:induction false} NumeralStart(n: Numeral, radix: nat)
    requires IsRadix(radix) && IsNumeral(n, radix)
    ensures var s, k := Spelled(n), |SignChars(n.sign)|;
            && SignLength(s) == k && k + |n.prefix| <= |s|
            && s[k + |n.prefix|..] == Mantissa(n.whole, n.dot, n.frac) + ExpChars(n.exp)
            && (CharAt(s, 0) == '-' <==> n.sign == Minus)
            && (HexPrefix(s, k, radix) <==> n.prefix != "")
            && (n.prefix != "" ==> ToDigit(CharAt(s, k + 2)) < 16 && CharAt(s, k) == '0')
  {
    hide ToDigit, ExpChars, AllDigits, Mantissa, IsNumeral, HexPrefix, CharAt, ExpOk;
    var s, k := Spelled(n), |SignChars(n.sign)|;
    var t := Mantissa(n.whole, n.dot, n.frac) + ExpChars(n.exp);
    assert s == SignChars(n.sign) + (n.prefix + t);
    MantissaStart(n, radix);
    SignStart(n.sign, n.prefix + t);
    PrefixStart(s, k, n, t, radix);
  }

  lemma {:induction false} SignStart(sign: Sign, u: seq<char>)
    requires u != [] && u[0] != '+' && u[0] != '-'
    ensures var s, k := SignChars(sign) + u, |SignChars(sign)|;
            && SignLength(s) == k && s[k..] == u && (CharAt(s, 0) == '-' <==> sign == Minus)
  {}

  lemma {:induction false} PrefixStart(s: seq<char>, k: nat, n: Numeral, t: seq<char>, radix: nat)
    requires IsRadix(radix) && IsNumeral(n, radix) && k <= |s| && s[k..] == n.prefix + t && t != []
    requires n.whole != [] ==> ToDigit(t[0]) < radix
    requires radix == 16 && |t| > 1 && t[0] == '0' ==> t[1] != 'x' && t[1] != 'X'
    ensures k + |n.prefix| <= |s| && s[k + |n.prefix|..] == t
    ensures HexPrefix(s, k, radix) <==> n.prefix != ""
    ensures n.prefix != "" ==> ToDigit(CharAt(s, k + 2)) < 16 && CharAt(s, k) == '0'
  {
    hide ToDigit, AllDigits, ExpOk;
    assert s[k + |n.prefix|..] == s[k..][|n.prefix|..] == t;
    assert s[k] == s[k..][0];
    if n.prefix != "" {
      assert s[k + 1] == s[k..][1] && s[k + 2] == s[k..][2] == t[0];
    } else {
      assert |t| > 1 ==> s[k + 1] == s[k..][1];
    }
  }

  /** The first two characters of the digits, dot and exponent. */
  lemma {:induction false} MantissaStart(n: Numeral, radix: nat)
    requires IsRadix(radix) && IsNumeral(n, radix)
    ensures var t := Mantissa(n.whole, n.dot, n.frac) + ExpChars(n.exp);
            && t != [] && (n.whole != [] ==> ToDigit(t[0]) < radix)
            && (n.prefix + t)[0] != '+' && (n.prefix + t)[0] != '-'
            && (radix == 16 && |t| > 1 && t[0] == '0' ==> t[1] != 'x' && t[1] != 'X')
  {
    assert n.whole != [] ==> ToDigit(n.whole[0]) < radix;
    assert |n.whole| > 1 ==> ToDigit(n.whole[1]) < radix;
  }

  /** Behind the sign, "Infinity" is read only where the digits spell it. */
  lemma {:induction false} NotInfinite(n: Numeral, radix: nat)
    requires IsRadix(radix) && IsNumeral(n, radix)
    ensures var s, k := Spelled(n), |SignChars(n.sign)|;
            CharAt(s, k) != '0' && TextAt(s, k, INFINITY_TEXT) <==> LooksInfinite(n)
  {
    hide ToDigit, AllDigits, IsNumeral, ExpChars;
    var s, k := Spelled(n), |SignChars(n.sign)|;
    var t := n.prefix + Mantissa(n.whole, n.dot, n.frac) + ExpChars(n.exp);
    assert s == SignChars(n.sign) + t && s[k..] == t;
    assert k + 8 <= |s| ==> s[k..k + 8] == t[..8];
    NotSpelled(n, radix);
    assert s[k] == t[0];
  }

  /** Behind the digits before the dot stands no letter of "Infinity". */
  lemma {:induction false} AfterWhole(n: Numeral, radix: nat)
    requires IsRadix(radix) && IsNumeral(n, radix)
    ensures var t, k := Mantissa(n.whole, n.dot, n.frac) + ExpChars(n.exp), |n.whole|;
            k < |t| ==> t[k] !in "Infinity"
  {
    var t, k := Mantissa(n.whole, n.dot, n.frac) + ExpChars(n.exp), |n.whole|;
    if n.dot {
      assert t[k] == '.';
    } else if n.exp.Exp? {
      assert t[k] == n.exp.letter;
    }
  }

  lemma {:induction false} PrefixChar(word: seq<char>, t: seq<char>, i: nat)
    requires word <= t && i < |word|
    ensures t[i] in word
  {
    assert t[i] == word[i];
  }

  lemma {:induction false} WordInFront(whole: seq<char>, rest: seq<char>, word: seq<char>)
    requires rest != [] ==> rest[0] !in word
    ensures word <= whole + rest <==> word <= whole
  {
    var t := whole + rest;
    if word <= t && |whole| < |word| {
      PrefixChar(word, t, |whole|);
      assert false;
    }
    if word <= whole {
      assert word <= t;
    }
  }

  lemma {:induction false} NotSpelled(n: Numeral, radix: nat)
    requires IsRadix(radix) && IsNumeral(n, radix)
    ensures var t := n.prefix + Mantissa(n.whole, n.dot, n.frac) + ExpChars(n.exp);
            t != [] && (INFINITY_TEXT <= t <==> LooksInfinite(n))
  {
    hide ExpChars, AllDigits, ToDigit, ExpOk;
    AfterWhole(n, radix);
    var t := n.prefix + Mantissa(n.whole, n.dot, n.frac) + ExpChars(n.exp);
    if n.prefix == "" {
      var rest := (if n.dot then ['.'] + n.frac else []) + ExpChars(n.exp);
      assert t == n.whole + rest;
      WordInFront(n.whole, rest, INFINITY_TEXT);
    } else {
      assert t[0] == '0' && INFINITY_TEXT[0] == 'I';
    }
  }

  lemma {:induction false} FrontValue(all: seq<char>, radix: nat)
    requires radix > 0
    ensures ReadValue(all[FrontZeros(all)..], radix) == ReadValue(all, radix)
  {
    hide ReadValue, Pow, FrontZeros;
    var z := FrontZeros(all);
    assert all[..z] == Zeros(z) && all == all[..z] + all[z..];
    ReadConcat(all[..z], all[z..], radix);
    ZerosValue(z, radix);
  }

  lemma {:induction false} FrontNonZero(all: seq<char>, radix: nat)
    requires IsRadix(radix) && AllDigits(all, radix)
    ensures all[FrontZeros(all)..] == [] <==> ReadValue(all, radix) == 0
  {
    hide ReadValue, Pow, FrontZeros, ToDigit;
    var z := FrontZeros(all);
    FrontValue(all, radix);
    if z == |all| {
      ReadNothing(radix);
    } else {
      var d := all[z..];
      SubDigits(all, radix, z, |all|);
      assert d == all[z..|all|];
      assert d[0] == all[z] != '0';
      OnlyZero(d[0]);
      LeadingRange(d, radix);
    }
  }

  /** Every numeral is read as its value: zero, or digits and exponents with that value;
      but digits that spell "Infinity" are infinity. */
  lemma {:induction false} NumeralRead(n: Numeral, radix: nat)
    requires IsRadix(radix) && IsNumeral(n, radix)
    ensures var w := Written(Spelled(n), radix);
            if LooksInfinite(n) then w == Fixed(Some(INFINITY))
            else if ReadValue(n.whole + n.frac, radix) == 0 then w == Fixed(Some(0))
            else w.Scaled? && FullValue(w.digits, radix, w.expn, w.bexp) == NumeralValue(n, radix)
  {
    hide WrittenNumber, HexPrefix, TextAt, SignLength, Spelled, ToDigit, ReadValue, FrontZeros, Product, CharAt,
         IsBinary, ExpInt, LooksInfinite, ExpChars, Mantissa, AllDigits;
    var s, k := Spelled(n), |SignChars(n.sign)|;
    NumeralStart(n, radix);
    NotInfinite(n, radix);
    NumeralNumber(s, k, k + |n.prefix|, radix, n);
    FrontValue(n.whole + n.frac, radix);
    JoinedDigits(n.whole, n.frac, radix);
    FrontNonZero(n.whole + n.frac, radix);
  }

  lemma {:induction false} JoinedDigits(a: seq<char>, b: seq<char>, radix: nat)
    requires AllDigits(a, radix) && AllDigits(b, radix)
    ensures AllDigits(a + b, radix)
  {
    hide ToDigit;
  }

  /** So the right result for a numeral is the double nearest to its value. */
  lemma {:induction false} NumeralConverts(n: Numeral, radix: nat, r: Option<nat>)
    requires IsRadix(radix) && IsNumeral(n, radix) && !LooksInfinite(n)
    ensures Converts(Spelled(n), radix, r) <==>
              && r.Some?
              && if ReadValue(n.whole + n.frac, radix) == 0 then r.value == 0
                 else ReadsAs(NumeralValue(n, radix), r.value)
    ensures CharAt(Spelled(n), 0) == '-' <==> n.sign == Minus
  {
    hide Written, Spelled, FullValue, NumeralValue, ReadsAs, ReadValue, LooksInfinite, IsNumeral;
    NumeralStart(n, radix);
    NumeralRead(n, radix);
  }

  // ----- what is printed -----

  /** log2 of the radices whose exponents are powers of two. */
  function ExpBits(radix: nat): nat {
    match radix
    case 2 => 1
    case 4 => 2
    case 8 => 3
    case 16 => 4
    case _ => 0
  }

  function PrintedLetter(radix: nat): char {
    if radix == 10 then 'e' else if ExpBits(radix) > 0 then 'p' else '@'
  }

  lemma {:induction false} PrintedExponents(radix: nat)
    requires IsRadix(radix)
    ensures ExpChar(radix) == PrintedLetter(radix) && ExpLetter(PrintedLetter(radix), radix)
    ensures BinaryExponent(radix) <==> ExpBits(radix) > 0
    ensures BinaryExponent(radix) ==> RadixBits(radix) == ExpBits(radix)
  {
    PowerRadices(radix);
    assert RadixBits(2) == 1;
    assert RadixBits(4) == 2;
    assert RadixBits(8) == 3;
    assert RadixBits(16) == 4;
    hide RadixBits;
  }

  /** One digit before the dot, and the exponent with its sign. */
  function Scientific(d: seq<char>, E: int, radix: nat): Numeral
    requires d != []
  {
    var x := if ExpBits(radix) > 0 then (E - 1) * ExpBits(radix) else E - 1;
    Numeral(NoSign, "", d[..1], |d| > 1, d[1..],
            Exp(PrintedLetter(radix), if x < 0 then Minus else Plus, IntDigits(Abs(x), 10)))
  }

  /** All digits in place. */
  function Positional(d: seq<char>, E: int): Numeral {
    if E <= 0 then Numeral(NoSign, "", "0", true, Zeros(-E) + d, NoExp)
    else if E < |d| then Numeral(NoSign, "", d[..E], true, d[E..], NoExp)
    else Numeral(NoSign, "", d + Zeros(E - |d|), false, "", NoExp)
  }

  /** The number the digits stand for: 0.d times radix^E. */
  ghost function PrintedValue(d: seq<char>, E: int, radix: nat): real
    requires radix > 0
  {
    Product(ReadValue(d, radix), 0, radix, E - |d|)
  }

  /** An exponent is printed when asked for, or when it may be and the number is below
      radix^-6 or from radix^(maxDigits + 4) on. */
  ghost predicate WantsExponent(v: real, radix: nat, mode: ExpMode)
    requires IsRadix(radix)
  {
    || mode == Enabled
    || (mode == Auto && (v < PowR(radix, -6) || v >= PowR(radix, Info(radix).maxDigits + 4)))
  }

  lemma {:induction false} WantsExact(d: seq<char>, E: int, radix: nat, mode: ExpMode)
    requires IsRadix(radix) && Leading(d, radix)
    ensures UsesExponent(E, radix, mode) <==> WantsExponent(PrintedValue(d, E, radix), radix, mode)
  {
    hide PowR, ReadValue, Product, Info, Leading;
    LeadingRange(d, radix);
    ProductRange(ReadValue(d, radix), |d|, radix, E - |d|);
    assert |d| - 1 + (E - |d|) == E - 1 && |d| + (E - |d|) == E;
    var top := Info(radix).maxDigits + 4;
    if E <= -6 {
      PowRMonotone(radix, E, -6);
    } else {
      PowRMonotone(radix, -6, E - 1);
    }
    if E > top {
      PowRMonotone(radix, top, E - 1);
    } else {
      PowRMonotone(radix, E, top);
    }
  }

  /** The text is the numeral of its digits: scientific or positional as the number wants it,
      and of exactly the printed value. */
  lemma {:induction false} FormatExact(d: seq<char>, E: int, radix: nat, mode: ExpMode)
    requires IsRadix(radix) && Leading(d, radix)
    ensures var v := PrintedValue(d, E, radix);
            var n := if WantsExponent(v, radix, mode) then Scientific(d, E, radix) else Positional(d, E);
            && Format(d, E, radix, mode) == Spelled(n) && IsNumeral(n, radix) && NumeralValue(n, radix) == v
            && (n.dot <==> n.frac != []) && (n.exp.Exp? ==> |n.whole| == 1)
            && (n.exp.NoExp? ==> n.whole == "0" || Leading(n.whole, radix))
  {
    hide PrintedValue, WantsExponent, NumeralValue, IsNumeral, UsesExponent, Spelled, Leading;
    WantsExact(d, E, radix, mode);
    if UsesExponent(E, radix, mode) {
      ScientificExact(d, E, radix, mode);
    } else {
      PositionalExact(d, E, radix, mode);
    }
  }

  lemma {:induction false} ScientificExact(d: seq<char>, E: int, radix: nat, mode: ExpMode)
    requires IsRadix(radix) && Leading(d, radix) && UsesExponent(E, radix, mode)
    ensures var n := Scientific(d, E, radix);
            && Format(d, E, radix, mode) == Spelled(n) && IsNumeral(n, radix)
            && NumeralValue(n, radix) == PrintedValue(d, E, radix)
            && (n.dot <==> n.frac != []) && n.exp.Exp? && |n.whole| == 1
  {
    hide ToDigit, AllDigits, Format, Spelled, IsNumeral, NumeralValue, PrintedValue, IntDigits;
    ScientificText(d, E, radix, mode);
    ScientificOk(d, E, radix);
    ScientificValue(d, E, radix);
  }

  lemma {:induction false} ScientificText(d: seq<char>, E: int, radix: nat, mode: ExpMode)
    requires IsRadix(radix) && d != [] && UsesExponent(E, radix, mode)
    ensures Format(d, E, radix, mode) == Spelled(Scientific(d, E, radix))
  {
    hide IntDigits, RadixBits, UsesExponent, BinaryExponent;
    PrintedExponents(radix);
    var n, x := Scientific(d, E, radix), ExpValue(E, radix);
    assert ExpChars(n.exp) == [ExpChar(radix)] + ExponentText(x);
    assert Mantissa(n.whole, n.dot, n.frac) == WithDot(d, 1);
    EmptyFront(WithDot(d, 1));
    assert WithDot(d, 1) + [ExpChar(radix)] + ExponentText(x) == WithDot(d, 1) + ([ExpChar(radix)] + ExponentText(x));
  }

  lemma {:induction false} EmptyFront(t: seq<char>)
    ensures SignChars(NoSign) + "" + t == t
  {}

  lemma {:induction false} ScientificOk(d: seq<char>, E: int, radix: nat)
    requires IsRadix(radix) && Leading(d, radix)
    ensures IsNumeral(Scientific(d, E, radix), radix)
  {
    hide IntDigits, ToDigit, AllDigits, ExpLetter, PrintedLetter, RadixBits;
    PrintedExponents(radix);
    LeadingDigits(d, radix);
    SubDigits(d, radix, 0, 1);
    SubDigits(d, radix, 1, |d|);
    assert d[0..1] == d[..1] && d[1..|d|] == d[1..];
    var x := if ExpBits(radix) > 0 then (E - 1) * ExpBits(radix) else E - 1;
    IntDigitsRead(Abs(x), 10);
  }

  lemma {:induction false} LeadingDigits(d: seq<char>, radix: nat)
    requires Leading(d, radix)
    ensures AllDigits(d, radix) && d != []
  {}

  lemma {:induction false} ScientificValue(d: seq<char>, E: int, radix: nat)
    requires IsRadix(radix) && d != []
    ensures NumeralValue(Scientific(d, E, radix), radix) == PrintedValue(d, E, radix)
  {
    hide IntDigits, ReadValue, Product, RadixBits, AllDigits;
    PrintedExponents(radix);
    var n := Scientific(d, E, radix);
    assert d[..1] + d[1..] == d;
    var x := if ExpBits(radix) > 0 then (E - 1) * ExpBits(radix) else E - 1;
    IntDigitsRead(Abs(x), 10);
    assert ExpInt(n.exp) == x && |n.frac| == |d| - 1;
    if BinaryExponent(radix) {
      MeantBinary(d, radix, E);
      assert 0 - |n.frac| == 1 - |d|;
    } else {
      assert x - |n.frac| == E - |d|;
    }
  }

  lemma {:induction false} PositionalExact(d: seq<char>, E: int, radix: nat, mode: ExpMode)
    requires IsRadix(radix) && Leading(d, radix) && !UsesExponent(E, radix, mode)
    ensures var n := Positional(d, E);
            && Format(d, E, radix, mode) == Spelled(n) && IsNumeral(n, radix)
            && NumeralValue(n, radix) == PrintedValue(d, E, radix)
            && (n.dot <==> n.frac != []) && n.exp.NoExp? && (n.whole == "0" || Leading(n.whole, radix))
  {
    hide ToDigit, AllDigits, UsesExponent, Spelled, IsNumeral, NumeralValue, Leading;
    LeadingDigits(d, radix);
    PositionalText(d, E);
    if E <= 0 {
      SmallPlaces(d, E, radix);
    } else if E < |d| {
      MiddlePlaces(d, E, radix);
    } else {
      LargePlaces(d, E, radix);
    }
  }

  lemma {:induction false} PositionalText(d: seq<char>, E: int)
    requires d != []
    ensures Spelled(Positional(d, E))
            == if E <= 0 then ['0', '.'] + Zeros(-E) + d else if E < |d| then WithDot(d, E) else d + Zeros(E - |d|)
  {
    hide Zeros;
    var n := Positional(d, E);
    var t := Mantissa(n.whole, n.dot, n.frac);
    EmptyFront(t);
    assert t + ExpChars(NoExp) == t;
    if E <= 0 {
      assert "0" + ['.'] + (Zeros(-E) + d) == ['0', '.'] + Zeros(-E) + d;
    }
  }

  lemma {:induction false} SmallPlaces(d: seq<char>, E: int, radix: nat)
    requires IsRadix(radix) && AllDigits(d, radix) && d != [] && E <= 0
    ensures var n := Positional(d, E); IsNumeral(n, radix) && NumeralValue(n, radix) == PrintedValue(d, E, radix)
  {
    hide ReadValue, Product, ToDigit, AllDigits, Zeros;
    ZerosInFront(d, -E, radix);
    assert 0 - |Zeros(-E) + d| == E - |d|;
  }

  lemma {:induction false} MiddlePlaces(d: seq<char>, E: int, radix: nat)
    requires IsRadix(radix) && Leading(d, radix) && 0 < E < |d|
    ensures var n := Positional(d, E);
            && IsNumeral(n, radix) && Leading(n.whole, radix)
            && NumeralValue(n, radix) == PrintedValue(d, E, radix)
  {
    hide ReadValue, Product, ToDigit, AllDigits;
    SubDigits(d, radix, 0, E);
    SubDigits(d, radix, E, |d|);
    assert d[0..E] == d[..E] && d[E..|d|] == d[E..] && d[..E] + d[E..] == d;
    assert d[..E][0] == d[0];
  }

  lemma {:induction false} LargePlaces(d: seq<char>, E: int, radix: nat)
    requires IsRadix(radix) && Leading(d, radix) && |d| <= E
    ensures var n := Positional(d, E);
            && IsNumeral(n, radix) && Leading(n.whole, radix)
            && NumeralValue(n, radix) == PrintedValue(d, E, radix)
  {
    hide ReadValue, Product, ToDigit, AllDigits, Zeros, Pow, Leading;
    var w := d + Zeros(E - |d|);
    LeadingZeros(d, E - |d|, radix);
    LeadingDigits(d, radix);
    LeadingDigits(w, radix);
    AppendZeros(d, E - |d|, radix);
    ZerosMoved(ReadValue(d, radix), E - |d|, radix, 0);
    assert w + "" == w;
    NoDigits(radix);
  }

  lemma {:induction false} NoDigits(radix: nat)
    ensures AllDigits("", radix)
  {}

  lemma {:induction false} ZerosInFront(d: seq<char>, z: nat, radix: nat)
    requires IsRadix(radix) && AllDigits(d, radix)
    ensures AllDigits("0", radix) && AllDigits(Zeros(z) + d, radix)
    ensures ReadValue("0" + (Zeros(z) + d), radix) == ReadValue(d, radix)
  {
    assert ToDigit('0') == 0;
    hide ReadValue, Pow, ToDigit;
    assert "0" + (Zeros(z) + d) == Zeros(z + 1) + d;
    ReadConcat(Zeros(z + 1), d, radix);
    ZerosValue(z + 1, radix);
  }

  lemma {:induction false} ZeroPrinted(radix: nat, mode: ExpMode)
    requires IsRadix(radix)
    ensures Format("0", 1, radix, mode) == if mode == Enabled then ['0', PrintedLetter(radix)] + "+0" else "0"
  {
    hide PrintedLetter, RadixBits;
    ZeroText(radix, mode);
    PrintedExponents(radix);
    assert IntDigits(0, 10) == "0";
    assert ExponentText(0) == "+0";
  }
}
