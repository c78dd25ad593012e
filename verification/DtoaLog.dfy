/** The logarithms in the tables: mul_log2_radix is the exact floor for every
    argument it is documented for, and max_exponent and min_exponent bound the
    range of doubles. */
module DtoaLog {
  import opened DtoaPow
  import opened DtoaBits
  import opened DtoaReal
  import opened DtoaTables
  import opened DtoaScale
  import opened DtoaSearch
  import opened DtoaDigits
  import opened DtoaPowerBounds

  // ----- the tables -----

  /** One row of mul_log2_radix_table, max_exponent and min_exponent, with two
      fractions low/lowDen and high/highDen around log_radix(2). */
  datatype LogInfo = LogInfo(mult: nat, maxExponent: nat, minExponent: int, low: nat, lowDen: nat, high: nat,
          highDen: nat)

  function Logs(radix: nat): LogInfo
    requires IsRadix(radix)
  {
    match radix
    case 2 => LogInfo(0x000000, 1024, -1075, 0, 0, 0, 0)
    case 3 => LogInfo(0xa1849d, 647, -679, 971, 1539, 665, 1054)
    case 4 => LogInfo(0x000000, 512, -538, 0, 0, 0, 0)
    case 5 => LogInfo(0x6e40d2, 442, -463, 643, 1493, 789, 1832)
    case 6 => LogInfo(0x6308c9, 397, -416, 306, 791, 665, 1719)
    case 7 => LogInfo(0x5b3065, 365, -383, 571, 1603, 680, 1909)
    case 8 => LogInfo(0x000000, 342, -359, 0, 0, 0, 0)
    case 9 => LogInfo(0x50c24e, 324, -340, 153, 485, 512, 1623)
    case 10 => LogInfo(0x4d104d, 309, -324, 497, 1651, 146, 485)
    case 11 => LogInfo(0x4a0027, 297, -311, 37, 128, 579, 2003)
    case 12 => LogInfo(0x4768ce, 286, -300, 306, 1097, 359, 1287)
    case 13 => LogInfo(0x452e54, 277, -291, 227, 840, 464, 1717)
    case 14 => LogInfo(0x433d00, 269, -283, 462, 1759, 109, 415)
    case 15 => LogInfo(0x418677, 263, -276, 290, 1133, 247, 965)
    case 16 => LogInfo(0x000000, 256, -269, 0, 0, 0, 0)
    case 17 => LogInfo(0x3ea16b, 251, -263, 343, 1402, 263, 1075)
    case 18 => LogInfo(0x3d645a, 246, -258, 153, 638, 359, 1497)
    case 19 => LogInfo(0x3c43c2, 242, -254, 121, 514, 480, 2039)
    case 20 => LogInfo(0x3b3b9a, 237, -249, 351, 1517, 146, 631)
    case 21 => LogInfo(0x3a4899, 234, -245, 339, 1489, 130, 571)
    case 22 => LogInfo(0x39680b, 230, -242, 37, 165, 431, 1922)
    case 23 => LogInfo(0x3897b3, 227, -238, 403, 1823, 191, 864)
    case 24 => LogInfo(0x37d5af, 224, -235, 306, 1403, 359, 1646)
    case 25 => LogInfo(0x372069, 221, -232, 424, 1969, 73, 339)
    case 26 => LogInfo(0x367686, 218, -229, 227, 1067, 237, 1114)
    case 27 => LogInfo(0x35d6df, 216, -227, 102, 485, 359, 1707)
    case 28 => LogInfo(0x354072, 214, -224, 353, 1697, 109, 524)
    case 29 => LogInfo(0x34b261, 211, -222, 169, 821, 345, 1676)
    case 30 => LogInfo(0x342bea, 209, -220, 290, 1423, 247, 1212)
    case 31 => LogInfo(0x33ac62, 207, -217, 131, 649, 371, 1838)
    case 32 => LogInfo(0x000000, 205, -215, 0, 0, 0, 0)
    case 33 => LogInfo(0x32bfd9, 203, -214, 45, 227, 383, 1932)
    case 34 => LogInfo(0x3251dd, 202, -212, 343, 1745, 263, 1338)
    case 35 => LogInfo(0x31e8d6, 200, -210, 379, 1944, 263, 1349)
    case _ => LogInfo(0x318465, 199, -208, 153, 791, 359, 1856)
  }

  const MULT_BASE: nat := 0x100_0000

  /** The fractions are neighbours among those with denominators up to 2048, the
      multiplier lies between them, and the exponent limits beyond. */
  predicate Neighbours(t: LogInfo) {
    && t.high * t.lowDen == t.low * t.highDen + 1 && t.lowDen + t.highDen > 2048 && t.lowDen > 0 && t.highDen > 0
    && t.low * MULT_BASE < t.mult * t.lowDen && t.mult * t.highDen < t.high * MULT_BASE
    && t.maxExponent * t.highDen >= 1024 * t.high
    && t.minExponent < 0 && (0 - t.minExponent) * t.highDen >= 1075 * t.high
  }

  /** And so does the logarithm itself. */
  predicate Certified(radix: nat, t: LogInfo) {
    Neighbours(t) && Pow(radix, t.low) < Pow(2, t.lowDen) && Pow(radix, t.high) > Pow(2, t.highDen)
  }

  lemma {:induction false} Rows3()
    ensures Certified(3, Logs(3))
    ensures Certified(5, Logs(5))
    ensures Certified(6, Logs(6))
    ensures Certified(7, Logs(7))
  {
    hide Pow;
    Below3();
    Above3();
    Below5();
    Above5();
    Below6();
    Above6();
    Below7();
    Above7();
  }

  lemma {:induction false} Rows9()
    ensures Certified(9, Logs(9))
    ensures Certified(10, Logs(10))
    ensures Certified(11, Logs(11))
    ensures Certified(12, Logs(12))
  {
    hide Pow;
    Below9();
    Above9();
    Below10();
    Above10();
    Below11();
    Above11();
    Below12();
    Above12();
  }

  lemma {:induction false} Rows13()
    ensures Certified(13, Logs(13))
    ensures Certified(14, Logs(14))
    ensures Certified(15, Logs(15))
    ensures Certified(17, Logs(17))
  {
    hide Pow;
    Below13();
    Above13();
    Below14();
    Above14();
    Below15();
    Above15();
    Below17();
    Above17();
  }

  lemma {:induction false} Rows18()
    ensures Certified(18, Logs(18))
    ensures Certified(19, Logs(19))
    ensures Certified(20, Logs(20))
    ensures Certified(21, Logs(21))
  {
    hide Pow;
    Below18();
    Above18();
    Below19();
    Above19();
    Below20();
    Above20();
    Below21();
    Above21();
  }

  lemma {:induction false} Rows22()
    ensures Certified(22, Logs(22))
    ensures Certified(23, Logs(23))
    ensures Certified(24, Logs(24))
    ensures Certified(25, Logs(25))
  {
    hide Pow;
    Below22();
    Above22();
    Below23();
    Above23();
    Below24();
    Above24();
    Below25();
    Above25();
  }

  lemma {:induction false} Rows26()
    ensures Certified(26, Logs(26))
    ensures Certified(27, Logs(27))
    ensures Certified(28, Logs(28))
    ensures Certified(29, Logs(29))
  {
    hide Pow;
    Below26();
    Above26();
    Below27();
    Above27();
    Below28();
    Above28();
    Below29();
    Above29();
  }

  lemma {:induction false} Rows30()
    ensures Certified(30, Logs(30))
    ensures Certified(31, Logs(31))
    ensures Certified(33, Logs(33))
    ensures Certified(34, Logs(34))
  {
    hide Pow;
    Below30();
    Above30();
    Below31();
    Above31();
    Below33();
    Above33();
    Below34();
    Above34();
  }

  lemma {:induction false} Rows35()
    ensures Certified(35, Logs(35))
    ensures Certified(36, Logs(36))
  {
    hide Pow;
    Below35();
    Above35();
    Below36();
    Above36();
  }

  lemma {:induction false} CertifiedRow(radix: nat)
    requires IsRadix(radix) && RadixBits(radix) == 0
    ensures Certified(radix, Logs(radix))
  {
    hide RadixBits, Certified, Logs;
    OnlyPowersOfTwo(radix);
    if radix <= 7 {
      Rows3();
    } else if radix <= 12 {
      Rows9();
    } else if radix <= 17 {
      Rows13();
    } else if radix <= 21 {
      Rows18();
    } else if radix <= 25 {
      Rows22();
    } else if radix <= 29 {
      Rows26();
    } else if radix <= 34 {
      Rows30();
    } else {
      Rows35();
    }
  }

  lemma {:induction false} OnlyPowersOfTwo(radix: nat)
    requires IsRadix(radix)
    ensures radix == 2 || radix == 4 || radix == 8 || radix == 16 || radix == 32 ==> RadixBits(radix) != 0
  {
    assert OddOf(2) == 1 && OddOf(4) == 1 && OddOf(8) == 1 && OddOf(16) == 1 && OddOf(32) == 1;
    hide OddOf;
  }

  // ----- fractions and powers -----

  lemma {:induction false} PowBaseStrict(a: nat, b: nat, k: nat)
    requires a < b && k > 0
    ensures Pow(a, k) < Pow(b, k)
  {
    PowBase(a, b, k - 1);
    hide Pow;
    PowNext(a, k - 1);
    PowNext(b, k - 1);
    PowMonotone(b, 0, k - 1);
    PowNext(b, 0);
    MulMonotone(Pow(a, k - 1), Pow(b, k - 1), a);
    MulStrict(a, b, Pow(b, k - 1));
  }

  /** b^p < 2^q carries over to every smaller fraction x/a. */
  lemma {:induction false} BelowFraction(b: nat, x: nat, a: nat, p: nat, q: nat)
    requires b > 0 && q > 0 && a > 0 && Pow(b, p) < Pow(2, q) && x * q <= a * p
    ensures Pow(b, x) < Pow(2, a)
  {
    hide Pow;
    PowBaseStrict(Pow(b, p), Pow(2, q), a);
    PowPow(b, p, a);
    PowPow(2, q, a);
    PowPow(b, x, q);
    PowPow(2, a, q);
    assert p * a == a * p && q * a == a * q;
    PowMonotone(b, x * q, a * p);
    if Pow(b, x) >= Pow(2, a) {
      PowBase(Pow(2, a), Pow(b, x), q);
    }
  }

  /** b^p > 2^q carries over to every larger fraction. */
  lemma {:induction false} AboveFraction(b: nat, x: nat, a: nat, p: nat, q: nat)
    requires b > 0 && q > 0 && a > 0 && Pow(b, p) > Pow(2, q) && x * q >= a * p
    ensures Pow(b, x) > Pow(2, a)
  {
    hide Pow;
    PowBaseStrict(Pow(2, q), Pow(b, p), a);
    PowPow(b, p, a);
    PowPow(2, q, a);
    PowPow(b, x, q);
    PowPow(2, a, q);
    assert p * a == a * p && q * a == a * q;
    PowMonotone(b, a * p, x * q);
    if Pow(b, x) <= Pow(2, a) {
      PowBase(Pow(b, x), Pow(2, a), q);
    }
  }

  /** No fraction with a small denominator lies between two neighbours. */
  lemma {:induction false} NothingBetween(t: LogInfo, k: int, a: nat)
    requires Neighbours(t) && 0 < a <= 2048
    ensures k * t.lowDen <= a * t.low || k * t.highDen >= a * t.high
  {
    var u, w := k * t.lowDen - a * t.low, a * t.high - k * t.highDen;
    if u > 0 && w > 0 {
      Determinant(t.low, t.lowDen, t.high, t.highDen, k, a);
      LargeMultiple(u, t.highDen);
      LargeMultiple(w, t.lowDen);
    }
  }

  lemma {:induction false} Determinant(p: int, q: int, p1: int, q1: int, k: int, a: int)
    requires p1 * q == p * q1 + 1
    ensures (k * q - a * p) * q1 + (a * p1 - k * q1) * q == a
  {
    calc {
      (k * q - a * p) * q1 + (a * p1 - k * q1) * q;
      a * (p1 * q) - a * (p * q1);
      a * (p1 * q - p * q1);
      a;
    }
  }

  lemma {:induction false} CancelLess(x: int, y: int, w: nat)
    requires x * w < y * w
    ensures x < y
  {}

  lemma {:induction false} TimesOrder(x: int, y: int, w: nat)
    ensures x <= y ==> x * w <= y * w
    ensures x < y && w > 0 ==> w * x < w * y
  {}

  /** Cross-multiplying with a strict step. */
  lemma {:induction false} CrossBelow(k: int, w: nat, a: nat, m: nat, p: nat, q: nat)
    requires k * w <= a * m && m * q < p * w && a > 0
    ensures k * q < a * p
  {
    TimesOrder(k * w, a * m, q);
    TimesOrder(m * q, p * w, a);
    assert (a * m) * q == a * (m * q) && (a * p) * w == a * (p * w) && (k * q) * w == (k * w) * q;
    CancelLess(k * q, a * p, w);
  }

  lemma {:induction false} CrossAbove(k: int, w: nat, a: nat, m: nat, p: nat, q: nat)
    requires k * w >= a * m && m * q > p * w && a > 0
    ensures k * q > a * p
  {
    TimesOrder(a * m, k * w, q);
    TimesOrder(p * w, m * q, a);
    assert (a * m) * q == a * (m * q) && (a * p) * w == a * (p * w) && (k * q) * w == (k * w) * q;
    CancelLess(a * p, k * q, w);
  }

  /** The multiplier decides as the logarithm does. */
  lemma {:induction false} MultiplierDecides(radix: nat, t: LogInfo, k: nat, a: nat)
    requires radix > 0 && Certified(radix, t) && 0 < a <= 2048
    ensures k * MULT_BASE <= a * t.mult ==> Pow(radix, k) < Pow(2, a)
    ensures k * MULT_BASE >= a * t.mult ==> Pow(radix, k) > Pow(2, a)
  {
    hide Pow;
    NothingBetween(t, k, a);
    if k * MULT_BASE <= a * t.mult {
      CrossBelow(k, MULT_BASE, a, t.mult, t.high, t.highDen);
      BelowFraction(radix, k, a, t.low, t.lowDen);
    }
    if k * MULT_BASE >= a * t.mult {
      CrossAbove(k, MULT_BASE, a, t.mult, t.low, t.lowDen);
      AboveFraction(radix, k, a, t.high, t.highDen);
    }
  }

  // ----- mul_log2_radix -----

  /** C division, truncating toward zero. */
  function TruncDiv(a: int, b: nat): int
    requires b > 0
  {
    if a >= 0 then a / b else -((-a) / b)
  }

  function MulLog2Binary(a: int, bits: nat): int
    requires bits > 0
  {
    TruncDiv(if a < 0 then a - (bits - 1) else a, bits)
  }

  /** mul_log2_radix; the arithmetic shift by 24 is a floor. */
  function MulLog2(a: int, radix: nat): int
    requires IsRadix(radix)
  {
    if RadixBits(radix) != 0 then MulLog2Binary(a, RadixBits(radix)) else a * Logs(radix).mult / MULT_BASE
  }

  lemma {:induction false} MulLog2Floor(a: int, bits: nat)
    requires bits > 0
    ensures var k := MulLog2Binary(a, bits); bits * k <= a < bits * (k + 1)
  {
    if a >= 0 {
      Euclid(a, bits);
    } else {
      Euclid(-a + (bits - 1), bits);
    }
    Distribute(bits, MulLog2Binary(a, bits), 1);
  }

  /** A power-of-two radix turns its exponent into a binary one. */
  lemma {:induction false} BinaryPower(radix: nat, k: int)
    requires IsRadix(radix) && RadixBits(radix) != 0
    ensures PowR(radix, k) == PowR(2, RadixBits(radix) * k)
  {
    hide Pow, PowR, RadixBits;
    BinaryRadix(radix);
    PowRPow(2, RadixBits(radix), k);
  }

  /** Power-of-two radices. */
  lemma {:induction false} BinaryLogFloor(radix: nat, a: int)
    requires IsRadix(radix) && RadixBits(radix) != 0
    ensures LogFloor(radix, a + 1, 1 + MulLog2(a, radix))
  {
    hide Pow, PowR, RadixBits, MulLog2Binary;
    var bits := RadixBits(radix);
    var k := MulLog2Binary(a, bits);
    MulLog2Floor(a, bits);
    BinaryPower(radix, k);
    BinaryPower(radix, k + 1);
    PowRMonotone(2, bits * k, a);
    PowRStrict(2, a, bits * (k + 1));
    assert 1 + k - 1 == k && 1 + k == k + 1 && a + 1 - 1 == a;
  }

  lemma {:induction false} Inverted(a: real, a1: real, b: real, b1: real)
    requires a > 0.0 && a1 > 0.0 && b > 0.0 && b1 > 0.0
    requires Times(a, a1) == 1.0 && Times(b, b1) == 1.0
    ensures a <= b ==> b1 <= a1
    ensures a < b ==> b1 < a1
  {
    hide Times;
    TMonotone(a, b, b1);
    TComm(a, b1);
    TComm(a, a1);
    TMonotone(b1, a1, a);
  }

  /** Powers with the signs of both exponents changed compare the other way. */
  lemma {:induction false} Reciprocals(b: nat, k: nat, a: nat)
    requires b > 0
    ensures Pow(b, k) < Pow(2, a) ==> PowR(b, 0 - k) > PowR(2, 0 - a)
    ensures Pow(b, k) >= Pow(2, a) ==> PowR(b, 0 - k) <= PowR(2, 0 - a)
  {
    hide Pow, PowR, Times;
    PowRNat(b, k);
    PowRNat(2, a);
    PowRInverse(b, k);
    PowRInverse(2, a);
    Inverted(PowR(b, k), PowR(b, 0 - k), PowR(2, a), PowR(2, 0 - a));
    Inverted(PowR(2, a), PowR(2, 0 - a), PowR(b, k), PowR(b, 0 - k));
  }

  lemma {:induction false} FloorOf(a: int, mult: nat)
    requires mult > 0
    ensures var k := a * mult / MULT_BASE;
            && k * MULT_BASE <= a * mult < (k + 1) * MULT_BASE
            && (a > 0 ==> k >= 0) && (a < 0 ==> k < 0)
  {
    if a > 0 {
      LargeMultiple(a, mult);
    } else if a < 0 {
      LargeMultiple(-a, mult);
      assert a * mult == -((-a) * mult);
    }
  }

  /** The other radices. */
  lemma {:induction false} OtherLogFloor(radix: nat, t: LogInfo, a: int)
    requires radix > 1 && Certified(radix, t) && t.mult > 0 && -2048 <= a <= 2047
    ensures LogFloor(radix, a + 1, 1 + a * t.mult / MULT_BASE)
  {
    hide Pow, PowR, Certified;
    var m := t.mult;
    var k := a * m / MULT_BASE;
    FloorOf(a, m);
    assert 1 + k - 1 == k && a + 1 - 1 == a;
    if a > 0 {
      MultiplierDecides(radix, t, k, a);
      MultiplierDecides(radix, t, k + 1, a);
      PowRNat(radix, k);
      PowRNat(radix, k + 1);
      PowRNat(2, a);
    } else if a == 0 {
      PowRUnit(radix);
      PowRUnit(2);
    } else {
      var b: nat, y: nat := -a, -k;
      assert b * m == -(a * m);
      MultiplierDecides(radix, t, y, b);
      MultiplierDecides(radix, t, y - 1, b);
      Reciprocals(radix, y, b);
      Reciprocals(radix, y - 1, b);
      assert 0 - y == k && 0 - (y - 1) == k + 1 && 0 - b == a;
    }
  }

  lemma {:induction false} MultPositive(radix: nat)
    requires IsRadix(radix) && RadixBits(radix) == 0
    ensures Logs(radix).mult > 0
  {
    hide Logs, RadixBits, Pow, Certified;
    CertifiedRow(radix);
    CertifiedMult(radix, Logs(radix));
  }

  lemma {:induction false} CertifiedMult(radix: nat, t: LogInfo)
    requires Certified(radix, t)
    ensures t.mult > 0
  {
    hide Pow;
    CancelLess(0, t.mult, t.lowDen);
  }

  /** mul_log2_radix(a, radix) is the floor of a / log2(radix). */
  lemma {:induction false} MulLog2Exact(a: int, radix: nat)
    requires IsRadix(radix) && -2048 <= a <= 2047
    ensures LogFloor(radix, a + 1, 1 + MulLog2(a, radix))
  {
    hide LogFloor, Certified, RadixBits, Logs, MulLog2Binary;
    if RadixBits(radix) != 0 {
      BinaryLogFloor(radix, a);
    } else {
      CertifiedRow(radix);
      MultPositive(radix);
      OtherLogFloor(radix, Logs(radix), a);
    }
  }

  // ----- max_exponent and min_exponent -----

  /** The limits are powers beyond the range. */
  lemma {:induction false} LimitPowers(radix: nat)
    requires IsRadix(radix)
    ensures Logs(radix).minExponent < 0 && Pow(radix, Logs(radix).maxExponent) >= Pow(2, 1024)
    ensures Pow(radix, 0 - Logs(radix).minExponent) >= Pow(2, 1075)
  {
    hide Pow, RadixBits, Certified, Logs;
    if RadixBits(radix) == 0 {
      CertifiedRow(radix);
      CertifiedLimits(radix, Logs(radix));
    } else {
      BinaryLimits(radix);
    }
  }

  lemma {:induction false} CertifiedLimits(radix: nat, t: LogInfo)
    requires radix > 0 && Certified(radix, t)
    ensures t.minExponent < 0
    ensures Pow(radix, t.maxExponent) >= Pow(2, 1024) && Pow(radix, 0 - t.minExponent) >= Pow(2, 1075)
  {
    hide Pow;
    AboveFraction(radix, t.maxExponent, 1024, t.high, t.highDen);
    AboveFraction(radix, 0 - t.minExponent, 1075, t.high, t.highDen);
  }

  lemma {:induction false} BinaryLimits(radix: nat)
    requires IsRadix(radix) && RadixBits(radix) != 0
    ensures Logs(radix).minExponent < 0 && Pow(radix, Logs(radix).maxExponent) >= Pow(2, 1024)
    ensures Pow(radix, 0 - Logs(radix).minExponent) >= Pow(2, 1075)
  {
    hide Pow, RadixBits;
    BinaryRadix(radix);
    BinaryBits(radix);
    var bits, t := RadixBits(radix), Logs(radix);
    PowPow(2, bits, t.maxExponent);
    PowPow(2, bits, 0 - t.minExponent);
    PowMonotone(2, 1024, bits * t.maxExponent);
    PowMonotone(2, 1075, bits * (0 - t.minExponent));
  }

  lemma {:induction false} BinaryBits(radix: nat)
    requires IsRadix(radix) && RadixBits(radix) != 0
    ensures (radix, RadixBits(radix)) in {(2, 1), (4, 2), (8, 3), (16, 4), (32, 5)}
  {
    BinaryRadix(radix);
    RadixSplit(radix);
    hide Ctz, OddOf;
    assert Pow(2, 1) == 2 && Pow(2, 2) == 4 && Pow(2, 3) == 8 && Pow(2, 4) == 16 && Pow(2, 5) == 32;
  }

  /** From max_exponent on every power overflows, up to min_exponent every one
      underflows. */
  lemma {:induction false} LimitsHold(radix: nat, k: int)
    requires IsRadix(radix)
    ensures k >= Logs(radix).maxExponent ==> PowR(radix, k) >= PowR(2, 1024)
    ensures k <= Logs(radix).minExponent ==> PowR(radix, k) <= PowR(2, -1075)
  {
    hide Pow, PowR, Times, Logs;
    LimitPowers(radix);
    var t := Logs(radix);
    if k >= t.maxExponent {
      PowRNat(radix, t.maxExponent);
      PowRNat(2, 1024);
      PowRMonotone(radix, t.maxExponent, k);
    }
    if k <= t.minExponent {
      Reciprocals(radix, 0 - t.minExponent, 1075);
      PowRMonotone(radix, k, t.minExponent);
      assert 0 - (0 - t.minExponent) == t.minExponent && 0 - 1075 == -1075;
    }
  }
}
