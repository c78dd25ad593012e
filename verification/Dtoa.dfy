/** From the bits of a double to its digits, and from digits to the nearest double. */
module Dtoa {
  import opened Basics
  import opened DtoaPow
  import opened DtoaLimbs
  import opened DtoaBits
  import opened DtoaBig
  import opened DtoaReal
  import opened DtoaRound
  import opened DtoaTables
  import opened DtoaPowers
  import opened DtoaScale
  import opened DtoaSearch
  import opened DtoaDigits
  import opened DtoaLog

  const SIGN: nat := 0x8000_0000_0000_0000
  const INFINITY: nat := 0x7ff0_0000_0000_0000

  // ----- the bits of a double -----

  /** Finite and not zero. */
  predicate FiniteNonZero(bits: nat) {
    bits < 2 * SIGN && (bits / TWO52) % 2048 != 0x7ff && bits % SIGN != 0
  }

  /** The shift that gives a subnormal fraction 53 bits: clz64(m) - 11. */
  function Normalizing(frac: nat): nat
    requires 0 < frac
    decreases TWO52 - frac
  {
    if frac >= TWO52 then 0 else 1 + Normalizing(2 * frac)
  }

  lemma {:induction false} NormalizingExact(frac: nat)
    requires 0 < frac < 2 * TWO52
    ensures TWO52 <= frac * Pow(2, Normalizing(frac)) < 2 * TWO52
    ensures Normalizing(frac) <= 52
    decreases TWO52 - frac
  {
    Pow52();
    hide Pow;
    MulAtLeast(frac, Pow(2, 52));
    PowNext(2, 0);
    NormalizingBound(frac, 52);
    if frac < TWO52 {
      NormalizingExact(2 * frac);
      PowNext(2, Normalizing(2 * frac));
      Assoc(frac, 2, Pow(2, Normalizing(2 * frac)));
    }
  }

  lemma {:induction false} NormalizingBound(frac: nat, k: nat)
    requires 0 < frac && frac * Pow(2, k) >= TWO52
    ensures Normalizing(frac) <= k
    decreases k
  {
    if frac < TWO52 && k > 0 {
      PowNext(2, k - 1);
      hide Pow;
      Assoc(frac, 2, Pow(2, k - 1));
      NormalizingBound(2 * frac, k - 1);
    }
  }

  /** A double as (-1)^negative * m * 2^(e-53). */
  datatype Unpacked = Unpacked(negative: bool, m: nat, e: int)

  function Unpack(bits: nat): Unpacked
    requires FiniteNonZero(bits)
  {
    var ex, frac := (bits / TWO52) % 2048, bits % TWO52;
    if ex == 0 then
      Unpacked(bits >= SIGN, frac * Pow(2, Normalizing(frac)), 1 - Normalizing(frac) - 1022)
    else
      Unpacked(bits >= SIGN, frac + TWO52, ex - 1022)
  }

  /** The magnitude bits of m * 2^(e-53): infinity above the range, zero below. */
  function Pack(m: nat, e: int): nat {
    if m == 0 then 0
    else if e > 1024 then INFINITY
    else if e < -1073 then 0
    else if e < -1021 then Quo(m, Pow(2, -e - 1021))
    else (e + 1022) * TWO52 + m % TWO52
  }

  lemma {:induction false} UnpackedRange(bits: nat)
    requires FiniteNonZero(bits)
    ensures var u := Unpack(bits); Representable(u.m, u.e) && u.e <= 1024
  {
    Pow52();
    hide Pow, Normalizing;
    var frac := bits % TWO52;
    if (bits / TWO52) % 2048 == 0 {
      assert frac > 0;
      NormalizingExact(frac);
      var l := Normalizing(frac);
      DivModUnique(frac * Pow(2, l), Pow(2, l), frac, 0);
    }
  }

  /** Packing inverts unpacking. */
  lemma {:induction false} PackUnpack(bits: nat)
    requires FiniteNonZero(bits)
    ensures var u := Unpack(bits); Pack(u.m, u.e) + (if u.negative then SIGN else 0) == bits
  {
    BitFields(bits);
    if (bits / TWO52) % 2048 == 0 {
      PackSubnormal(bits % TWO52);
    } else {
      PackNormal((bits / TWO52) % 2048, bits % TWO52);
    }
    hide Pack, Pow, Normalizing;
  }

  /** Sign, exponent and fraction make up the bits. */
  lemma {:induction false} BitFields(bits: nat)
    requires FiniteNonZero(bits)
    ensures bits == (bits / TWO52) % 2048 * TWO52 + bits % TWO52 + (if bits >= SIGN then SIGN else 0)
    ensures (bits / TWO52) % 2048 < 0x7ff && ((bits / TWO52) % 2048 == 0 ==> bits % TWO52 > 0)
  {}

  lemma {:induction false} PackNormal(ex: nat, frac: nat)
    requires 0 < ex < 0x7ff && frac < TWO52
    ensures Pack(frac + TWO52, ex - 1022) == ex * TWO52 + frac
  {
    assert (frac + TWO52) % TWO52 == frac;
  }

  lemma {:induction false} PackSubnormal(frac: nat)
    requires 0 < frac < TWO52
    ensures var l := Normalizing(frac); Pack(frac * Pow(2, l), 1 - l - 1022) == frac
  {
    hide Pow, Normalizing, Quo;
    NormalizingExact(frac);
    SubnormalShift(frac);
    var l := Normalizing(frac);
    QuoRemUnique(frac * Pow(2, l), Pow(2, l), frac, 0);
  }

  lemma {:induction false} SubnormalShift(frac: nat)
    requires 0 < frac < TWO52
    ensures Normalizing(frac) >= 1
  {}

  // ----- the meaning of a result -----

  /** bits is the double nearest to v, infinity from 2^1024 on and zero below 2^-1075. */
  ghost predicate ReadsAs(v: real, bits: nat) {
    || (v >= PowR(2, 1024) && bits == INFINITY)
    || (v < PowR(2, -1075) && bits == 0)
    || exists m: nat, e: int :: Rounded(v, m, e, ToNearestEven) && bits == Pack(m, e)
  }

  /** From 2^1024 on, the exponent is out of range. */
  lemma {:induction false} RoundedLarge(v: real, m: nat, e: int)
    requires Rounded(v, m, e, ToNearestEven) && v >= PowR(2, 1024)
    ensures e > 1024
  {
    hide Pow, PowR, Times, Nearest;
    Pow52();
    var t :| RoundedAt(v, t, m, e, ToNearestEven);
    if t < 1025 {
      PowRMonotone(2, t, 1024);
      assert false;
    }
    var q := LastPlace(t);
    RoundedAbove(v, t, q);
    PowRMonotone(2, 1024, t - 1);
    if e <= 1024 {
      if m == 0 {
        ZeroProduct(m, PowR(2, e - 53));
      } else {
        SignificandRange(m, e);
        PowRMonotone(2, e, 1024);
      }
    }
  }

  /** Rounding does not fall below the binade. */
  lemma {:induction false} RoundedAbove(v: real, t: int, q: int)
    requires Bracket(v, t) && q == t - 53
    ensures Times(Nearest(Times(v, PowR(2, -q)), ToNearestEven) as real, PowR(2, q)) >= PowR(2, t - 1)
  {
    hide Pow, PowR, Times, Nearest;
    PowRSum(t - 1, -q, 52);
    PowRNat(2, 52);
    TMonotone(PowR(2, t - 1), v, PowR(2, -q));
    NearestMonotone(Pow(2, 52) as real, Times(v, PowR(2, -q)), ToNearestEven);
    NearestInt(Pow(2, 52), ToNearestEven);
    var n := Nearest(Times(v, PowR(2, -q)), ToNearestEven);
    TMonotone(Pow(2, 52) as real, n as real, PowR(2, q));
    PowRSum(52, q, t - 1);
  }

  /** Below 2^-1075 everything rounds to zero. */
  lemma {:induction false} RoundedTiny(v: real, m: nat, e: int)
    requires Rounded(v, m, e, ToNearestEven) && v < PowR(2, -1075)
    ensures m == 0
  {
    hide Pow, PowR, Times;
    var t :| RoundedAt(v, t, m, e, ToNearestEven);
    if t > -1075 {
      PowRMonotone(2, -1075, t - 1);
      assert false;
    }
    var q := LastPlace(t);
    assert q == -1074;
    TMonotone(v, PowR(2, -1075), PowR(2, 1074));
    PowRSum(-1075, 1074, -1);
    PowRUnit(2);
    Doubled(0);
    TPositive(v, PowR(2, 1074));
    TUnit(PowR(2, q));
    ZeroProduct(m, PowR(2, e - 53));
  }

  /** What reads back as a finite nonzero double determines its bits. */
  lemma {:induction false} ReadsAsUnique(v: real, m: nat, e: int, bits: nat)
    requires Rounded(v, m, e, ToNearestEven) && m > 0 && e <= 1024 && ReadsAs(v, bits)
    ensures bits == Pack(m, e)
  {
    hide PowR, Rounded, Pack;
    if v >= PowR(2, 1024) {
      RoundedLarge(v, m, e);
    }
    if v < PowR(2, -1075) {
      RoundedTiny(v, m, e);
    }
    var m1: nat, e1: int :| Rounded(v, m1, e1, ToNearestEven) && bits == Pack(m1, e1);
    RoundedUnique(v, m, e, m1, e1);
  }

  // ----- the digits that were read -----

  lemma {:induction false} ReadConcat(a: seq<char>, b: seq<char>, radix: nat)
    ensures ReadValue(a + b, radix) == ReadValue(a, radix) * Pow(radix, |b|) + ReadValue(b, radix)
    decreases |b|
  {
    hide Pow, ToDigit;
    if b == [] {
      assert a + b == a;
      PowNext(radix, 0);
    } else {
      var n := |b| - 1;
      ReadConcat(a, b[..n], radix);
      assert a + b == (a + b[..n]) + [b[n]] && b == b[..n] + [b[n]];
      ReadSnoc(a + b[..n], b[n], radix);
      ReadSnoc(b[..n], b[n], radix);
      PowNext(radix, n);
      hide ReadValue;
      Distribute(radix, ReadValue(a, radix) * Pow(radix, n), ReadValue(b[..n], radix));
      Assoc(ReadValue(a, radix), Pow(radix, n), radix);
    }
  }

  lemma {:induction false} ReadBelow(s: seq<char>, radix: nat)
    requires radix > 0 && AllDigits(s, radix)
    ensures ReadValue(s, radix) < Pow(radix, |s|)
  {
    hide Pow, ToDigit;
    if s == [] {
      PowNext(radix, 0);
    } else {
      var n := |s| - 1;
      ReadBelow(s[..n], radix);
      PowNext(radix, n);
      MulMonotone(ReadValue(s[..n], radix) + 1, Pow(radix, n), radix);
      Distribute(radix, ReadValue(s[..n], radix), 1);
    }
  }

  lemma {:induction false} ReadZero(s: seq<char>, radix: nat)
    requires radix > 0
    ensures ReadValue(s, radix) == 0 <==> !NonZero(s, 0)
  {
    hide ToDigit;
    if s != [] {
      var n := |s| - 1;
      ReadZero(s[..n], radix);
      MulAtLeast(radix, ReadValue(s[..n], radix));
      NonZeroSnoc(s, 0, n);
      assert s[..n + 1] == s;
    }
  }

  /** A number that starts with a nonzero digit. */
  ghost predicate Leading(s: seq<char>, radix: nat) {
    |s| > 0 && AllDigits(s, radix) && ToDigit(s[0]) != 0
  }

  lemma {:induction false} LeadingRange(s: seq<char>, radix: nat)
    requires radix > 0 && Leading(s, radix)
    ensures Digits(ReadValue(s, radix), |s|, radix)
  {
    hide Pow, ToDigit;
    ReadBelow(s, radix);
    assert s == [s[0]] + s[1..];
    ReadConcat([s[0]], s[1..], radix);
    ReadSnoc([], s[0], radix);
    assert [] + [s[0]] == [s[0]];
    ReadNothing(radix);
    hide ReadValue;
    MulAtLeast(ToDigit(s[0]), Pow(radix, |s| - 1));
  }

  // ----- long numbers in a power-of-two radix -----

  /** atodDigits digits, without a leading zero, have at least 56 bits. */
  lemma {:induction false} LongEnough(radix: nat)
    requires IsRadix(radix) && RadixBits(radix) != 0
    ensures RadixBits(radix) * (Info(radix).atodDigits - 1) >= 55 && Info(radix).atodDigits >= 1
  {
    BinaryRadix(radix);
    RadixSplit(radix);
    hide Ctz, OddOf;
    var bits := RadixBits(radix);
    assert Pow(2, 1) == 2 && Pow(2, 2) == 4 && Pow(2, 3) == 8 && Pow(2, 4) == 16 && Pow(2, 5) == 32;
    assert 1 <= bits <= 5;
  }

  lemma {:induction false} LongValue(v: nat, radix: nat)
    requires IsRadix(radix) && RadixBits(radix) != 0 && Digits(v, Info(radix).atodDigits, radix)
    ensures v >= Pow(2, 55)
  {
    hide Pow, Info, RadixBits;
    LongEnough(radix);
    BinaryRadix(radix);
    var bits, n := RadixBits(radix), Info(radix).atodDigits - 1;
    PowPow(2, bits, n);
    PowMonotone(2, 55, bits * n);
  }

  /** v with its lowest bit set if `sticky`. */
  function WithBit(v: nat, sticky: bool): nat {
    if sticky && v % 2 == 0 then v + 1 else v
  }

  /** The digits cut off count as a sticky bit. */
  lemma {:induction false} CutIsSticky(s: seq<char>, radix: nat, n: nat)
    requires radix > 0 && AllDigits(s, radix) && n <= |s|
    ensures Sticky(ReadValue(s, radix), Pow(radix, |s| - n)) == WithBit(ReadValue(s[..n], radix), NonZero(s, n))
  {
    hide Pow, ToDigit;
    assert s == s[..n] + s[n..];
    ReadConcat(s[..n], s[n..], radix);
    ReadBelow(s[n..], radix);
    ReadZero(s[n..], radix);
    NonZeroSuffix(s, n);
    hide ReadValue;
    DivModUnique(ReadValue(s, radix), Pow(radix, |s| - n), ReadValue(s[..n], radix), ReadValue(s[n..], radix));
  }

  lemma {:induction false} NonZeroSuffix(s: seq<char>, n: nat)
    requires n <= |s|
    ensures NonZero(s[n..], 0) <==> NonZero(s, n)
  {
    hide ToDigit;
    if NonZero(s, n) {
      var k :| n <= k < |s| && ToDigit(s[k]) != 0;
      assert s[n..][k - n] == s[k];
    }
  }

  /** What the bits read so far stand for, in a power-of-two radix. */
  lemma {:induction false} BinaryStands(s: seq<char>, radix: nat, n: nat)
    requires IsRadix(radix) && RadixBits(radix) != 0 && Leading(s, radix) && n == Min(|s|, Info(radix).atodDigits)
    ensures 0 < n <= |s| && WithBit(ReadValue(s[..n], radix), NonZero(s, n)) > 0
    ensures Stands(WithBit(ReadValue(s[..n], radix), NonZero(s, n)), Product(ReadValue(s, radix), 0, radix, n - |s|))
  {
    hide Pow, Info, RadixBits, ReadValue, ToDigit, NonZero, Times, PowR, Sticky;
    LongEnough(radix);
    PrefixLeading(s, radix, n);
    LeadingRange(s[..n], radix);
    CutIsSticky(s, radix, n);
    var a, d := ReadValue(s, radix), Pow(radix, |s| - n);
    var x := Product(a, 0, radix, n - |s|);
    PowRNat(radix, |s| - n);
    PowRInverse(radix, n - |s|);
    PowRUnit(2);
    TUnit(a as real);
    TAssoc(a as real, PowR(radix, n - |s|), PowR(radix, |s| - n));
    assert IsSticky(WithBit(ReadValue(s[..n], radix), NonZero(s, n)), x, a, d);
    if n < |s| {
      LongValue(ReadValue(s[..n], radix), radix);
    } else {
      assert s[..n] == s;
      NothingAfter(s, s);
      PowRUnit(radix);
    }
  }

  lemma {:induction false} PrefixLeading(s: seq<char>, radix: nat, n: nat)
    requires Leading(s, radix) && 0 < n <= |s|
    ensures Leading(s[..n], radix)
  {
    hide ToDigit;
    forall i | 0 <= i < n ensures ToDigit(s[..n][i]) < radix {
      assert s[..n][i] == s[i];
    }
  }

  // ----- the range checks -----

  lemma {:induction false} ProductRange(v: nat, n: nat, radix: nat, f: int)
    requires radix > 0 && Digits(v, n, radix)
    ensures PowR(radix, n - 1 + f) <= Product(v, 0, radix, f) < PowR(radix, n + f)
  {
    hide Pow, PowR, Times;
    PowRUnit(2);
    TUnit(v as real);
    PowRNat(radix, n - 1);
    PowRNat(radix, n);
    RadixSum(radix, n - 1, f, n - 1 + f);
    RadixSum(radix, n, f, n + f);
    TMonotone(PowR(radix, n - 1), v as real, PowR(radix, f));
    TMonotone(v as real, PowR(radix, n), PowR(radix, f));
  }

  // ----- js_atod, from the digits on -----

  /** How many digits js_atod keeps. */
  function Kept(s: seq<char>, radix: nat): nat
    requires IsRadix(radix)
  {
    if |s| < Info(radix).atodDigits then |s| else Info(radix).atodDigits
  }

  /** The value js_atod converts: all digits in a power-of-two radix, the kept
      digits otherwise. */
  ghost function Meant(s: seq<char>, radix: nat, expn: int, bexp: int): real
    requires IsRadix(radix)
  {
    if RadixBits(radix) != 0 then Product(ReadValue(s, radix), bexp, radix, expn)
    else Product(ReadValue(s[..Kept(s, radix)], radix), 0, radix, expn + |s| - Kept(s, radix))
  }

  lemma {:induction false} ZerosMoved(v: nat, z: nat, radix: nat, f: int)
    requires radix > 0
    ensures Product(v * Pow(radix, z), 0, radix, f) == Product(v, 0, radix, f + z)
  {
    hide Pow, PowR, Times;
    PowRUnit(2);
    TNat(v, Pow(radix, z));
    PowRNat(radix, z);
    TUnit(v as real);
    TUnit((v * Pow(radix, z)) as real);
    RadixSum(radix, z, f, f + z);
    TAssoc(v as real, PowR(radix, z), PowR(radix, f));
  }

  lemma {:induction false} RoundedReads(v: real, m: nat, e: int)
    requires Rounded(v, m, e, ToNearestEven)
    ensures ReadsAs(v, Pack(m, e))
  {
    hide Rounded, Pack, PowR;
  }

  /** A binary exponent on top of the radix exponent. */
  lemma {:induction false} BinaryFactor(a: nat, b: int, radix: nat, f: int)
    requires radix > 0
    ensures Product(a, b, radix, f) == Times(Product(a, 0, radix, f), PowR(2, b))
  {
    hide Times, PowR;
    PowRUnit(2);
    TUnit(a as real);
    TAssoc(a as real, PowR(2, b), PowR(radix, f));
    TComm(PowR(2, b), PowR(radix, f));
    TAssoc(a as real, PowR(radix, f), PowR(2, b));
  }

  /** The binary range of a number with n digits in a power-of-two radix. */
  lemma {:induction false} BinaryRange(a: nat, n: nat, radix: nat, f: int, b: int)
    requires IsRadix(radix) && RadixBits(radix) != 0 && Digits(a, n, radix)
    ensures var hi := RadixBits(radix) * (n + f) + b;
            PowR(2, hi - RadixBits(radix)) <= Product(a, b, radix, f) < PowR(2, hi)
  {
    hide Times, PowR, Pow, RadixBits, Digits, Product;
    var k := RadixBits(radix);
    ProductRange(a, n, radix, f);
    BinaryFactor(a, b, radix, f);
    BinaryPower(radix, n - 1 + f);
    BinaryPower(radix, n + f);
    Distribute(k, n - 1 + f, 1);
    var lo := k * (n - 1 + f);
    PowRSum(lo, b, lo + b);
    PowRSum(lo + k, b, lo + k + b);
    var x := Product(a, 0, radix, f);
    TMonotone(PowR(2, lo), x, PowR(2, b));
    TMonotone(x, PowR(2, lo + k), PowR(2, b));
  }

  /** Multiplying by a power of the radix shifts the binary exponent. */
  lemma {:induction false} BinaryScale(a: nat, radix: nat, f: int, expn: int, b: int)
    requires IsRadix(radix) && RadixBits(radix) != 0
    ensures Times(Product(a, 0, radix, f), PowR(2, expn * RadixBits(radix) + b)) == Product(a, b, radix, f + expn)
  {
    hide Times, PowR, RadixBits;
    var k := expn * RadixBits(radix);
    BinaryPower(radix, expn);
    assert k == RadixBits(radix) * expn;
    RadixSum(radix, f, expn, f + expn);
    TAssoc(Times(a as real, PowR(2, 0)), PowR(radix, f), PowR(radix, expn));
    assert Times(Product(a, 0, radix, f), PowR(2, k)) == Product(a, 0, radix, f + expn);
    Rescale(Product(a, 0, radix, f), k, b, k + b);
    BinaryFactor(a, b, radix, f + expn);
  }

  // ----- the exponents are 32-bit integers -----

  lemma {:induction false} WrapOf(x: int) returns (j: int)
    ensures x == ToInt32(x) + 0x1_0000_0000 * j
  {
    j := (x + 0x8000_0000) / 0x1_0000_0000;
  }

  lemma {:induction false} WrapIs(x: int, r: int, j: int)
    requires InInt32(r) && x == r + 0x1_0000_0000 * j
    ensures ToInt32(x) == r
  {}

  /** Wrapping may wait until the end of a sum or difference. */
  lemma {:induction false} WrapLast(x: int, y: int)
    ensures ToInt32(ToInt32(x) + y) == ToInt32(x + y) && ToInt32(x - ToInt32(y)) == ToInt32(x - y)
  {
    hide ToInt32;
    var i := WrapOf(x);
    var j := WrapOf(y);
    var k := WrapOf(ToInt32(x) + y);
    var l := WrapOf(x - ToInt32(y));
    WrapIs(x + y, ToInt32(ToInt32(x) + y), i + k);
    WrapIs(x - y, ToInt32(x - ToInt32(y)), l - j);
  }

  /** A sum that wrapped twice. */
  lemma {:induction false} WrapBack(x: int, y: int)
    requires InInt32(ToInt32(x + y) - y)
    ensures ToInt32(x) == ToInt32(x + y) - y
  {
    hide ToInt32;
    var j := WrapOf(x + y);
    WrapIs(x, ToInt32(x + y) - y, j);
  }

  /** Multiplying a wrapped number. */
  lemma {:induction false} WrapTimes(x: int, k: nat)
    ensures ToInt32(ToInt32(x) * k) == ToInt32(x * k)
  {
    hide ToInt32;
    var j := WrapOf(x);
    var i := WrapOf(ToInt32(x) * k);
    Distribute(k, ToInt32(x), 0x1_0000_0000 * j);
    assert (0x1_0000_0000 * j) * k == 0x1_0000_0000 * (j * k);
    WrapIs(x * k, ToInt32(ToInt32(x) * k), i + j * k);
  }

  /** The exponent that bounds the number from above: of two in a power-of-two
      radix, of the radix otherwise. */
  function Top(n: nat, radix: nat, expn: int, bexp: int): int
    requires IsRadix(radix)
  {
    if RadixBits(radix) != 0 then RadixBits(radix) * (n + expn) + bexp else n + expn
  }

  /** The value of the digits converted, scaled to end just below `top`. */
  ghost function ValueAt(s: seq<char>, radix: nat, top: int): real
    requires IsRadix(radix)
  {
    if RadixBits(radix) != 0 then Product(ReadValue(s, radix), top - RadixBits(radix) * |s|, radix, 0)
    else Product(ReadValue(s[..Kept(s, radix)], radix), 0, radix, top - Kept(s, radix))
  }

  lemma {:induction false} MeantAtTop(s: seq<char>, radix: nat, expn: int, bexp: int)
    requires IsRadix(radix)
    ensures Meant(s, radix, expn, bexp) == ValueAt(s, radix, Top(|s|, radix, expn, bexp))
  {
    hide Times, PowR, RadixBits, ReadValue, Product, Kept;
    var k := RadixBits(radix);
    if k != 0 {
      Distribute(k, |s|, expn);
      var a := ReadValue(s, radix);
      BinaryScale(a, radix, 0, expn, bexp);
      BinaryFactor(a, k * expn + bexp, radix, 0);
      assert expn * k == k * expn && 0 + expn == expn;
    }
  }

  /** Up to 64 bits of digits are kept. */
  lemma {:induction false} KeptBits(s: seq<char>, radix: nat)
    requires IsRadix(radix) && RadixBits(radix) != 0
    ensures 1 <= RadixBits(radix) <= 5 && 0 <= RadixBits(radix) * Kept(s, radix) <= 64
  {
    hide RadixBits;
    BinaryBits(radix);
    MulMonotone(Kept(s, radix), Info(radix).atodDigits, RadixBits(radix));
  }

  /** A difference and a sum, wrapped at every step. */
  lemma {:induction false} WrapChain(e: int, x: int, f: int, o: int, d: int)
    requires (x == e || x == ToInt32(e)) && ToInt32(o) == ToInt32(f)
    ensures ToInt32(x - ToInt32(o)) == ToInt32(e - f) && ToInt32(ToInt32(e - f) + d) == ToInt32(e - f + d)
  {
    hide ToInt32;
    WrapLast(x, f);
    WrapLast(x, o);
    WrapLast(e, 0 - f);
    WrapLast(e - f, d);
  }

  /** The binary exponents of js_atod: of the last digit kept, and of the top. */
  method BinaryExponents(value: int, binary: bool, offset: int, digitCount: nat, k: nat, ghost point: int)
    returns (expn: int, expn1: int)
    requires offset == ToInt32(digitCount - point)
    ensures var top := (if binary then value else value * k) + point * k;
            expn == ToInt32(top - k * digitCount) && expn1 == ToInt32(top)
  {
    hide ToInt32;
    WrapTimes(digitCount - point, k);
    Distribute(k, digitCount - point, point);
    ghost var e, f := if binary then value else value * k, (digitCount - point) * k;
    expn := value;
    if !binary {
      expn := ToInt32(expn * k);
    }
    WrapChain(e, expn, f, offset * k, digitCount * k);
    expn := ToInt32(expn - ToInt32(offset * k));
    expn1 := ToInt32(expn + digitCount * k);
  }

  /** Power-of-two radix: only the binary exponent changes. */
  method AtodBinary(tmp: Mpb, radix: nat, value: int, binary: bool, offset: int, digitCount: nat,
                    ghost s: seq<char>, ghost point: int) returns (bits: nat)
    requires IsRadix(radix) && RadixBits(radix) != 0 && Leading(s, radix) && digitCount == Kept(s, radix)
    requires offset == ToInt32(digitCount - point)
    requires tmp.Normal() && tmp.Value() == WithBit(ReadValue(s[..digitCount], radix), NonZero(s, digitCount))
    requires tmp.len + 3 <= tmp.tab.Length
    modifies tmp, tmp.tab
    ensures var k := RadixBits(radix);
            ReadsAs(ValueAt(s, radix, ToInt32((if binary then value else value * k) + point * k)), bits)
  {
    hide Val, Pow, Info, NormalLimbs, RadixBits, ReadValue, ToDigit, NonZero, Times, PowR, Rounded, Pack, Stands,
         Product, Digits, Leading, ToInt32;
    ghost var a := ReadValue(s, radix);
    var k := RadixBits(radix);
    KeptBits(s, radix);
    var expn, expn1 := BinaryExponents(value, binary, offset, digitCount, k, point);
    ghost var b := expn1 - k * |s|;
    ghost var v := Product(a, b, radix, 0);
    LeadingRange(s, radix);
    BinaryRange(a, |s|, radix, 0, b);
    if expn1 >= 1024 + k {
      PowRMonotone(2, 1024, expn1 - k);
      return INFINITY;
    } else if expn1 <= -1075 {
      PowRMonotone(2, expn1, -1075);
      return 0;
    }
    WrapBack((if binary then value else value * k) + point * k - k * digitCount, k * digitCount);
    BinaryStands(s, radix, digitCount);
    Distribute(k, |s| - digitCount, digitCount);
    BinaryScale(a, radix, digitCount - |s|, |s| - digitCount, b);
    var m, e := RoundToD(tmp, -expn, ToNearestEven, Product(a, 0, radix, digitCount - |s|));
    bits := Pack(m, e);
    RoundedReads(v, m, e);
  }

  /** The other radices. */
  method AtodOther(tmp: Mpb, radix: nat, value: int, offset: int, digitCount: nat, ghost point: int) returns (bits: nat)
    requires IsRadix(radix) && digitCount <= 80
    requires offset == ToInt32(digitCount - point)
    requires tmp.Normal() && Digits(tmp.Value(), digitCount, radix)
    requires tmp.len + 1300 <= tmp.tab.Length
    modifies tmp, tmp.tab
    ensures ReadsAs(Product(old(tmp.Value()), 0, radix, ToInt32(value + point) - digitCount), bits)
  {
    hide Val, Pow, NormalLimbs, Times, PowR, Rounded, Pack, Product, Logs, Ctz, OddOf, ToInt32;
    ghost var a := tmp.Value();
    var expn := ToInt32(value - offset);
    var expn1 := ToInt32(expn + digitCount);
    WrapLast(value, digitCount - point);
    WrapLast(value - (digitCount - point), digitCount);
    ghost var v := Product(a, 0, radix, expn1 - digitCount);
    ProductRange(a, digitCount, radix, expn1 - digitCount);
    LimitsHold(radix, expn1 - 1);
    LimitsHold(radix, expn1);
    LimitsSmall(radix);
    if expn1 >= Logs(radix).maxExponent + 1 {
      return INFINITY;
    } else if expn1 <= Logs(radix).minExponent {
      return 0;
    }
    WrapBack(value - (digitCount - point), digitCount);
    RadixSplit(radix);
    var shift := Ctz(radix);
    var m, e := MulPowRoundToD(tmp, OddOf(radix), shift, expn, ToNearestEven);
    bits := Pack(m, e);
    RoundedReads(v, m, e);
  }

  lemma {:induction false} LimitsSmall(radix: nat)
    requires IsRadix(radix)
    ensures Logs(radix).maxExponent <= 1024 && Logs(radix).minExponent >= -1075
  {}

  lemma {:induction false} KeptSmall(s: seq<char>, radix: nat)
    requires IsRadix(radix)
    ensures Kept(s, radix) <= 80
  {}

  /** The double nearest to the digits s with the dot behind `point` of them, times
      radix^value or 2^value, as far as 32-bit exponents go. */
  method Atod(s: seq<char>, radix: nat, point: int, value: int, binary: bool) returns (bits: nat)
    requires IsRadix(radix) && Leading(s, radix)
    requires binary ==> RadixBits(radix) != 0
    ensures var expn, bexp := (if binary then 0 else value) + point - |s|, if binary then value else 0;
            ReadsAs(ValueAt(s, radix, ToInt32(Top(|s|, radix, expn, bexp))), bits)
  {
    hide Val, Pow, Info, NormalLimbs, RadixBits, ReadValue, ToDigit, NonZero, ReadsAs, Product, ToInt32;
    var tmp := new Mpb(2 * |s| + 1400);
    var digitCount, extra := ReadDigits(s, radix, tmp);
    DigitsTable(radix);
    assert digitCount == Kept(s, radix);
    var offset := ToInt32(digitCount - point);
    var k := RadixBits(radix);
    if k != 0 {
      if extra {
        tmp.SetLowBit();
      }
      bits := AtodBinary(tmp, radix, value, binary, offset, digitCount, s, point);
      Distribute(k, value, point);
    } else {
      KeptSmall(s, radix);
      PrefixLeading(s, radix, digitCount);
      LeadingRange(s[..digitCount], radix);
      bits := AtodOther(tmp, radix, value, offset, digitCount, point);
    }
  }

  // ----- both ways -----

  /** js_dtoa in free format: the digits and the exponent of a finite nonzero double. */
  method DtoaFree(bits: nat, radix: nat) returns (mant: nat, P: nat, E: int)
    requires IsRadix(radix) && FiniteNonZero(bits)
    ensures Digits(mant, P, radix) && P <= Info(radix).maxDigits && mant % radix != 0
    ensures 1 <= E - MulLog2(Unpack(bits).e - 1, radix) <= 2
    ensures var u := Unpack(bits);
            && Rounded(Product(mant, 0, radix, E - P), u.m, u.e, ToNearestEven)
            && SearchEnds(mant, P, E, u.m, u.e, radix, 1 + MulLog2(u.e - 1, radix))
  {
    hide Val, Pow, PowR, Info, NormalLimbs, Product, Rounded, Unpack, LogFloor, FiniteNonZero, MulLog2, SearchEnds;
    UnpackedRange(bits);
    var u := Unpack(bits);
    var E0 := 1 + MulLog2(u.e - 1, radix);
    MulLog2Exact(u.e - 1, radix);
    var tmp := new Mpb(Room(u.e, E0) + 64);
    mant, P, E := FreeFormat(tmp, u.m, u.e, radix, E0);
  }

  lemma {:induction false} FirstDigit(v: nat, n: nat, radix: nat)
    requires IsRadix(radix) && n > 0
    ensures exists x: nat :: x < radix && DigitString(v, radix, n)[0] == DigitChar(x)
  {
    hide DigitString, DigitChar, Quo, Rem, Pow;
    LeadingDigit(v, radix, n - 1);
    var x := Rem(Quo(v, Pow(radix, n - 1)), radix);
    assert DigitString(v, radix, n)[0] == DigitChar(x);
  }

  /** The printed digits read as the number, without a leading zero. */
  lemma {:induction false} Printed(mant: nat, P: nat, radix: nat)
    requires IsRadix(radix) && Digits(mant, P, radix)
    ensures Leading(DigitString(mant, radix, P), radix)
    ensures ReadValue(DigitString(mant, radix, P), radix) == mant
  {
    hide Pow, DigitString, Rem, ToDigit, Quo;
    var s := DigitString(mant, radix, P);
    ReadsWritten(mant, radix, P);
    QuoRemUnique(mant, Pow(radix, P), 0, mant);
    assert s == [s[0]] + s[1..];
    ReadConcat([s[0]], s[1..], radix);
    ReadSnoc([], s[0], radix);
    assert [] + [s[0]] == [s[0]];
    ReadNothing(radix);
    if ToDigit(s[0]) == 0 {
      TailDigits(s, radix);
      ReadBelow(s[1..], radix);
    }
  }

  lemma {:induction false} TailDigits(s: seq<char>, radix: nat)
    requires AllDigits(s, radix) && s != []
    ensures AllDigits(s[1..], radix)
  {
    hide ToDigit;
    forall i | 0 <= i < |s| - 1 ensures ToDigit(s[1..][i]) < radix {
      assert s[1..][i] == s[i + 1];
    }
  }
}
