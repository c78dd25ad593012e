/** Comparing large powers with powers of two by 24-bit arithmetic. */
module DtoaPowerBounds {
  import opened DtoaPow
  import opened DtoaScale

  // ----- comparing a large power of b with a power of two -----

  /** (m * 2^x)^4 * b^d, written with one power of two. */
  function Raised(m: nat, x: nat, b: nat, d: nat): nat { Pow(m, 4) * Pow(b, d) * Pow(2, 4 * x) }

  lemma {:induction false} RaisedIs(m: nat, x: nat, b: nat, d: nat)
    ensures Raised(m, x, b, d) == Pow(m * Pow(2, x), 4) * Pow(b, d)
  {
    hide Pow;
    PowMul(m, Pow(2, x), 4);
    PowPow(2, x, 4);
    assert x * 4 == 4 * x;
    Assoc(Pow(m, 4), Pow(b, d), Pow(2, 4 * x));
    Assoc(Pow(m, 4), Pow(2, 4 * x), Pow(b, d));
  }

  lemma {:induction false} FourthPower(b: nat, j: nat, d: nat)
    ensures Pow(b, 4 * j + d) == Pow(Pow(b, j), 4) * Pow(b, d)
  {
    hide Pow;
    PowPow(b, j, 4);
    PowAdd(b, 4 * j, d);
    assert j * 4 == 4 * j;
  }

  /** Raising a bound to the fourth power. */
  lemma {:induction false} RaiseBounds(m: nat, x: nat, b: nat, j: nat, d: nat)
    ensures Pow(b, j) <= m * Pow(2, x) ==> Pow(b, 4 * j + d) <= Raised(m, x, b, d)
    ensures Pow(b, j) >= m * Pow(2, x) ==> Pow(b, 4 * j + d) >= Raised(m, x, b, d)
  {
    hide Pow, Raised;
    RaisedIs(m, x, b, d);
    FourthPower(b, j, d);
    var u, w := Pow(b, j), m * Pow(2, x);
    if u <= w {
      PowBase(u, w, 4);
      MulMonotone(Pow(u, 4), Pow(w, 4), Pow(b, d));
    }
    if u >= w {
      PowBase(w, u, 4);
      MulMonotone(Pow(w, 4), Pow(u, 4), Pow(b, d));
    }
  }

  /** A bound with a smaller factor. */
  lemma {:induction false} Narrowed(v: nat, x: nat, m: nat, y: nat)
    ensures v <= m * Pow(2, y) ==> v * Pow(2, 4 * x) <= m * Pow(2, y + 4 * x)
    ensures v >= m * Pow(2, y) ==> v * Pow(2, 4 * x) >= m * Pow(2, y + 4 * x)
  {
    hide Pow;
    PowAdd(2, y, 4 * x);
    var w := m * Pow(2, y);
    Assoc(m, Pow(2, y), Pow(2, 4 * x));
    if v <= w {
      MulMonotone(v, w, Pow(2, 4 * x));
    }
    if v >= w {
      MulMonotone(w, v, Pow(2, 4 * x));
    }
  }

  /** m^4 * b^d against n * 2^x. */
  predicate AtMost(m: nat, b: nat, d: nat, n: nat, x: nat) { m * m * (m * m) * FastPow(b, d) <= n * FastPow(2, x) }
  predicate AtLeast(m: nat, b: nat, d: nat, n: nat, x: nat) { m * m * (m * m) * FastPow(b, d) >= n * FastPow(2, x) }

  lemma {:induction false} Fourth(m: nat)
    ensures Pow(m, 4) == m * m * (m * m)
  {
    PowAdd(m, 2, 2);
    assert Pow(m, 1) == m && Pow(m, 2) == m * m;
    hide Pow;
  }

  /** One step up: from a bound on b^j to one on b^(4*j + d). */
  lemma {:induction false} StepUp(b: nat, j: nat, d: nat, m: nat, x: nat, n: nat, y: nat)
    ensures AtMost(m, b, d, n, y) && Pow(b, j) <= m * Pow(2, x) ==> Pow(b, 4 * j + d) <= n * Pow(2, y + 4 * x)
    ensures AtLeast(m, b, d, n, y) && Pow(b, j) >= m * Pow(2, x) ==> Pow(b, 4 * j + d) >= n * Pow(2, y + 4 * x)
  {
    hide FastPow, Pow;
    Fourth(m);
    FastPowIsPow(b, d);
    FastPowIsPow(2, y);
    RaiseBounds(m, x, b, j, d);
    Narrowed(Pow(m, 4) * Pow(b, d), x, n, y);
  }

  /** The first step. */
  lemma {:induction false} StepStart(b: nat, d: nat, n: nat, y: nat)
    ensures AtMost(1, b, d, n, y) ==> Pow(b, d) <= n * Pow(2, y)
    ensures AtLeast(1, b, d, n, y) ==> Pow(b, d) >= n * Pow(2, y)
  {
    hide AtMost, AtLeast;
    StepUp(b, 0, d, 1, 0, n, y);
  }

  lemma {:induction false} TopBit(n: nat, x: nat, q: nat)
    ensures n < 0x100_0000 && q == x + 24 ==> n * Pow(2, x) < Pow(2, q)
    ensures n > 0x80_0000 && q == x + 23 ==> n * Pow(2, x) > Pow(2, q)
  {
    assert FastPow(2, 24) == 0x100_0000 && FastPow(2, 23) == 0x80_0000;
    hide FastPow, Pow;
    FastPowIsPow(2, 24);
    FastPowIsPow(2, 23);
    PowAdd(2, 24, x);
    PowAdd(2, 23, x);
    PowMonotone(2, 0, x);
    PowNext(2, 0);
    MulStrict(n, 0x100_0000, Pow(2, x));
    MulStrict(0x80_0000, n, Pow(2, x));
  }

  lemma {:induction false} MulStrict(a: nat, b: nat, c: nat)
    requires c > 0
    ensures a < b ==> a * c < b * c
  {}

  /** Three steps of 24-bit numbers compare b^k with 2^q. */
  datatype Chain = Chain(m1: nat, x1: nat, m2: nat, x2: nat, m3: nat, x3: nat)

  lemma {:induction false} PowerBelow(b: nat, j: nat, d1: nat, d2: nat, c: Chain, k: nat, q: nat)
    requires AtMost(1, b, j, c.m1, c.x1) && AtMost(c.m1, b, d1, c.m2, c.x2) && AtMost(c.m2, b, d2, c.m3, c.x3)
    requires c.m3 < 0x100_0000 && k == 16 * j + 4 * d1 + d2 && q == 16 * c.x1 + 4 * c.x2 + c.x3 + 24
    ensures Pow(b, k) < Pow(2, q)
  {
    hide AtMost, AtLeast, Pow;
    StepStart(b, j, c.m1, c.x1);
    StepUp(b, j, d1, c.m1, c.x1, c.m2, c.x2);
    StepUp(b, 4 * j + d1, d2, c.m2, c.x2 + 4 * c.x1, c.m3, c.x3);
    assert 4 * (4 * j + d1) + d2 == k;
    TopBit(c.m3, c.x3 + 4 * (c.x2 + 4 * c.x1), q);
  }

  lemma {:induction false} PowerAbove(b: nat, j: nat, d1: nat, d2: nat, c: Chain, k: nat, q: nat)
    requires AtLeast(1, b, j, c.m1, c.x1) && AtLeast(c.m1, b, d1, c.m2, c.x2) && AtLeast(c.m2, b, d2, c.m3, c.x3)
    requires c.m3 > 0x80_0000 && k == 16 * j + 4 * d1 + d2 && q == 16 * c.x1 + 4 * c.x2 + c.x3 + 23
    ensures Pow(b, k) > Pow(2, q)
  {
    hide AtMost, AtLeast, Pow;
    StepStart(b, j, c.m1, c.x1);
    StepUp(b, j, d1, c.m1, c.x1, c.m2, c.x2);
    StepUp(b, 4 * j + d1, d2, c.m2, c.x2 + 4 * c.x1, c.m3, c.x3);
    assert 4 * (4 * j + d1) + d2 == k;
    TopBit(c.m3, c.x3 + 4 * (c.x2 + 4 * c.x1), q);
  }

  // ----- the powers next to log_radix(2), for every radix that is not a power of two -----

  lemma {:induction false} Below3()
    ensures Pow(3, 971) < Pow(2, 1539)
  {
    assert AtMost(1, 3, 60, 8976677, 72) && AtMost(8976677, 3, 2, 12375001, 72) && AtMost(12375001, 3, 3, 16760813, 75);
    hide AtMost, AtLeast, Pow;
    PowerBelow(3, 60, 2, 3, Chain(8976677, 72, 12375001, 72, 16760813, 75), 971, 1539);
  }

  lemma {:induction false} Above3()
    ensures Pow(3, 665) > Pow(2, 1054)
  {
    assert AtLeast(1, 3, 41, 16585998, 41) && AtLeast(16585998, 3, 2, 9014243, 76)
      && AtLeast(9014243, 3, 1, 8388969, 71);
    hide AtMost, AtLeast, Pow;
    PowerAbove(3, 41, 2, 1, Chain(16585998, 41, 9014243, 76, 8388969, 71), 665, 1054);
  }

  lemma {:induction false} Below5()
    ensures Pow(5, 643) < Pow(2, 1493)
  {
    assert AtMost(1, 5, 40, 15407440, 69) && AtMost(15407440, 5, 0, 11933347, 72)
      && AtMost(11933347, 5, 3, 16774494, 77);
    hide AtMost, AtLeast, Pow;
    PowerBelow(5, 40, 0, 3, Chain(15407440, 69, 11933347, 72, 16774494, 77), 643, 1493);
  }

  lemma {:induction false} Above5()
    ensures Pow(5, 789) > Pow(2, 1832)
  {
    assert AtLeast(1, 5, 49, 14349296, 90) && AtLeast(14349296, 5, 1, 11222063, 74)
      && AtLeast(11222063, 5, 1, 8395974, 73);
    hide AtMost, AtLeast, Pow;
    PowerAbove(5, 49, 1, 1, Chain(14349296, 90, 11222063, 74, 8395974, 73), 789, 1832);
  }

  lemma {:induction false} Below6()
    ensures Pow(6, 306) < Pow(2, 791)
  {
    assert AtMost(1, 6, 19, 9080168, 26) && AtMost(9080168, 6, 0, 11516111, 69) && AtMost(11516111, 6, 2, 16760085, 75);
    hide AtMost, AtLeast, Pow;
    PowerBelow(6, 19, 0, 2, Chain(9080168, 26, 11516111, 69, 16760085, 75), 306, 791);
  }

  lemma {:induction false} Above6()
    ensures Pow(6, 665) > Pow(2, 1719)
  {
    assert AtLeast(1, 6, 41, 16585998, 82) && AtLeast(16585998, 6, 2, 9014243, 78)
      && AtLeast(9014243, 6, 1, 8388969, 72);
    hide AtMost, AtLeast, Pow;
    PowerAbove(6, 41, 2, 1, Chain(16585998, 82, 9014243, 78, 8388969, 72), 665, 1719);
  }

  lemma {:induction false} Below7()
    ensures Pow(7, 571) < Pow(2, 1603)
  {
    assert AtMost(1, 7, 35, 10027248, 75) && AtMost(10027248, 7, 2, 13112136, 75)
      && AtMost(13112136, 7, 3, 16773290, 79);
    hide AtMost, AtLeast, Pow;
    PowerBelow(7, 35, 2, 3, Chain(10027248, 75, 13112136, 75, 16773290, 79), 571, 1603);
  }

  lemma {:induction false} Above7()
    ensures Pow(7, 680) > Pow(2, 1909)
  {
    assert AtLeast(1, 7, 42, 15750635, 94) && AtLeast(15750635, 7, 2, 9978119, 78)
      && AtLeast(9978119, 7, 0, 8396436, 70);
    hide AtMost, AtLeast, Pow;
    PowerAbove(7, 42, 2, 0, Chain(15750635, 94, 9978119, 78, 8396436, 70), 680, 1909);
  }

  lemma {:induction false} Below9()
    ensures Pow(9, 153) < Pow(2, 485)
  {
    assert AtMost(1, 9, 9, 12106891, 5) && AtMost(12106891, 9, 2, 11516113, 77) && AtMost(11516113, 9, 1, 16760096, 73);
    hide AtMost, AtLeast, Pow;
    PowerBelow(9, 9, 2, 1, Chain(12106891, 5, 11516113, 77, 16760096, 73), 153, 485);
  }

  lemma {:induction false} Above9()
    ensures Pow(9, 512) > Pow(2, 1623)
  {
    assert AtLeast(1, 9, 32, 11361106, 78) && AtLeast(11361106, 9, 0, 14111810, 70)
      && AtLeast(14111810, 9, 0, 8397909, 72);
    hide AtMost, AtLeast, Pow;
    PowerAbove(9, 32, 0, 0, Chain(11361106, 78, 14111810, 70, 8397909, 72), 512, 1623);
  }

  lemma {:induction false} Below10()
    ensures Pow(10, 497) < Pow(2, 1651)
  {
    assert AtMost(1, 10, 31, 16543613, 79) && AtMost(16543613, 10, 0, 15862140, 72)
      && AtMost(15862140, 10, 1, 16757046, 75);
    hide AtMost, AtLeast, Pow;
    PowerBelow(10, 31, 0, 1, Chain(16543613, 79, 15862140, 72, 16757046, 75), 497, 1651);
  }

  lemma {:induction false} Above10()
    ensures Pow(10, 146) > Pow(2, 485)
  {
    assert AtLeast(1, 10, 9, 15625000, 6) && AtLeast(15625000, 10, 0, 12621774, 72)
      && AtLeast(12621774, 10, 2, 8397343, 78);
    hide AtMost, AtLeast, Pow;
    PowerAbove(10, 9, 0, 2, Chain(15625000, 6, 12621774, 72, 8397343, 78), 146, 485);
  }

  lemma {:induction false} Below11()
    ensures Pow(11, 37) < Pow(2, 128)
  {
    assert AtMost(1, 11, 2, 121, 0) && AtMost(121, 11, 1, 9210734, 8) && AtMost(9210734, 11, 1, 16765248, 72);
    hide AtMost, AtLeast, Pow;
    PowerBelow(11, 2, 1, 1, Chain(121, 0, 9210734, 8, 16765248, 72), 37, 128);
  }

  lemma {:induction false} Above11()
    ensures Pow(11, 579) > Pow(2, 2003)
  {
    assert AtLeast(1, 11, 36, 12192902, 101) && AtLeast(12192902, 11, 0, 9360491, 71)
      && AtLeast(9360491, 11, 3, 8452261, 80);
    hide AtMost, AtLeast, Pow;
    PowerAbove(11, 36, 0, 3, Chain(12192902, 101, 9360491, 71, 8452261, 80), 579, 2003);
  }

  lemma {:induction false} Below12()
    ensures Pow(12, 306) < Pow(2, 1097)
  {
    assert AtMost(1, 12, 19, 9080168, 45) && AtMost(9080168, 12, 0, 11516111, 69)
      && AtMost(11516111, 12, 2, 16760085, 77);
    hide AtMost, AtLeast, Pow;
    PowerBelow(12, 19, 0, 2, Chain(9080168, 45, 11516111, 69, 16760085, 77), 306, 1097);
  }

  lemma {:induction false} Above12()
    ensures Pow(12, 359) > Pow(2, 1287)
  {
    assert AtLeast(1, 12, 22, 15322783, 55) && AtLeast(15322783, 12, 1, 8754919, 76)
      && AtLeast(8754919, 12, 3, 8397550, 80);
    hide AtMost, AtLeast, Pow;
    PowerAbove(12, 22, 1, 3, Chain(15322783, 55, 8754919, 76, 8397550, 80), 359, 1287);
  }

  lemma {:induction false} Below13()
    ensures Pow(13, 227) < Pow(2, 840)
  {
    assert AtMost(1, 13, 14, 14667871, 28) && AtMost(14667871, 13, 0, 9801864, 72)
      && AtMost(9801864, 13, 3, 16775100, 80);
    hide AtMost, AtLeast, Pow;
    PowerBelow(13, 14, 0, 3, Chain(14667871, 28, 9801864, 72, 16775100, 80), 227, 840);
  }

  lemma {:induction false} Above13()
    ensures Pow(13, 464) > Pow(2, 1717)
  {
    assert AtLeast(1, 13, 29, 10419276, 84) && AtLeast(10419276, 13, 0, 9982756, 70)
      && AtLeast(9982756, 13, 0, 8412055, 70);
    hide AtMost, AtLeast, Pow;
    PowerAbove(13, 29, 0, 0, Chain(10419276, 84, 9982756, 70, 8412055, 70), 464, 1717);
  }

  lemma {:induction false} Below14()
    ensures Pow(14, 462) < Pow(2, 1759)
  {
    assert AtMost(1, 14, 28, 12767192, 83) && AtMost(12767192, 14, 3, 15076691, 82)
      && AtMost(15076691, 14, 2, 16753693, 79);
    hide AtMost, AtLeast, Pow;
    PowerBelow(14, 28, 3, 2, Chain(12767192, 83, 15076691, 82, 16753693, 79), 462, 1759);
  }

  lemma {:induction false} Above14()
    ensures Pow(14, 109) > Pow(2, 415)
  {
    assert AtLeast(1, 14, 6, 7529536, 0) && AtLeast(7529536, 14, 3, 14591075, 79)
      && AtLeast(14591075, 14, 1, 8398418, 76);
    hide AtMost, AtLeast, Pow;
    PowerAbove(14, 6, 3, 1, Chain(7529536, 0, 14591075, 79, 8398418, 76), 109, 415);
  }

  lemma {:induction false} Below15()
    ensures Pow(15, 290) < Pow(2, 1133)
  {
    assert AtMost(1, 15, 18, 10501054, 47) && AtMost(10501054, 15, 0, 10299874, 70)
      && AtMost(10299874, 15, 2, 16757164, 77);
    hide AtMost, AtLeast, Pow;
    PowerBelow(15, 18, 0, 2, Chain(10501054, 47, 10299874, 70, 16757164, 77), 290, 1133);
  }

  lemma {:induction false} Above15()
    ensures Pow(15, 247) > Pow(2, 965)
  {
    assert AtLeast(1, 15, 15, 12744389, 35) && AtLeast(12744389, 15, 1, 10474122, 75)
      && AtLeast(10474122, 15, 3, 8400103, 82);
    hide AtMost, AtLeast, Pow;
    PowerAbove(15, 15, 1, 3, Chain(12744389, 35, 10474122, 75, 8400103, 82), 247, 965);
  }

  lemma {:induction false} Below17()
    ensures Pow(17, 343) < Pow(2, 1402)
  {
    assert AtMost(1, 17, 21, 14981925, 62) && AtMost(14981925, 17, 1, 11335476, 76)
      && AtMost(11335476, 17, 3, 16774369, 82);
    hide AtMost, AtLeast, Pow;
    PowerBelow(17, 21, 1, 3, Chain(14981925, 62, 11335476, 76, 16774369, 82), 343, 1402);
  }

  lemma {:induction false} Above17()
    ensures Pow(17, 263) > Pow(2, 1075)
  {
    assert AtLeast(1, 17, 16, 11064274, 42) && AtLeast(11064274, 17, 1, 13487173, 74)
      && AtLeast(13487173, 17, 3, 8404479, 84);
    hide AtMost, AtLeast, Pow;
    PowerAbove(17, 16, 1, 3, Chain(11064274, 42, 13487173, 74, 8404479, 84), 263, 1075);
  }

  lemma {:induction false} Below18()
    ensures Pow(18, 153) < Pow(2, 638)
  {
    assert AtMost(1, 18, 9, 12106891, 14) && AtMost(12106891, 18, 2, 11516113, 79)
      && AtMost(11516113, 18, 1, 16760096, 74);
    hide AtMost, AtLeast, Pow;
    PowerBelow(18, 9, 2, 1, Chain(12106891, 14, 11516113, 79, 16760096, 74), 153, 638);
  }

  lemma {:induction false} Above18()
    ensures Pow(18, 359) > Pow(2, 1497)
  {
    assert AtLeast(1, 18, 22, 13994436, 68) && AtLeast(13994436, 18, 1, 9137227, 76)
      && AtLeast(9137227, 18, 3, 8406506, 82);
    hide AtMost, AtLeast, Pow;
    PowerAbove(18, 22, 1, 3, Chain(13994436, 68, 9137227, 76, 8406506, 82), 359, 1497);
  }

  lemma {:induction false} Below19()
    ensures Pow(19, 121) < Pow(2, 514)
  {
    assert AtMost(1, 19, 7, 13966746, 6) && AtMost(13966746, 19, 2, 11362882, 80)
      && AtMost(11362882, 19, 1, 16768257, 74);
    hide AtMost, AtLeast, Pow;
    PowerBelow(19, 7, 2, 1, Chain(13966746, 6, 11362882, 80, 16768257, 74), 121, 514);
  }

  lemma {:induction false} Above19()
    ensures Pow(19, 480) > Pow(2, 2039)
  {
    assert AtLeast(1, 19, 30, 11362881, 104) && AtLeast(11362881, 19, 0, 14120632, 70)
      && AtLeast(14120632, 19, 0, 8418929, 72);
    hide AtMost, AtLeast, Pow;
    PowerAbove(19, 30, 0, 0, Chain(11362881, 104, 14120632, 70, 8418929, 72), 480, 2039);
  }

  lemma {:induction false} Below20()
    ensures Pow(20, 351) < Pow(2, 1517)
  {
    assert AtMost(1, 20, 21, 14210855, 67) && AtMost(14210855, 20, 3, 8433760, 85)
      && AtMost(8433760, 20, 3, 16739609, 81);
    hide AtMost, AtLeast, Pow;
    PowerBelow(20, 21, 3, 3, Chain(14210855, 67, 8433760, 85, 16739609, 81), 351, 1517);
  }

  lemma {:induction false} Above20()
    ensures Pow(20, 146) > Pow(2, 631)
  {
    assert AtLeast(1, 20, 9, 15625000, 15) && AtLeast(15625000, 20, 0, 12621774, 72)
      && AtLeast(12621774, 20, 2, 8397343, 80);
    hide AtMost, AtLeast, Pow;
    PowerAbove(20, 9, 0, 2, Chain(15625000, 15, 12621774, 72, 8397343, 80), 146, 631);
  }

  lemma {:induction false} Below21()
    ensures Pow(21, 339) < Pow(2, 1489)
  {
    assert AtMost(1, 21, 21, 9897728, 69) && AtMost(9897728, 21, 0, 16258197, 69)
      && AtMost(16258197, 21, 3, 16726220, 85);
    hide AtMost, AtLeast, Pow;
    PowerBelow(21, 21, 0, 3, Chain(9897728, 69, 16258197, 69, 16726220, 85), 339, 1489);
  }

  lemma {:induction false} Above21()
    ensures Pow(21, 130) > Pow(2, 571)
  {
    assert AtLeast(1, 21, 8, 9234096, 12) && AtLeast(9234096, 21, 0, 12317082, 69)
      && AtLeast(12317082, 21, 2, 8395958, 80);
    hide AtMost, AtLeast, Pow;
    PowerAbove(21, 8, 0, 2, Chain(9234096, 12, 12317082, 69, 8395958, 80), 130, 571);
  }

  lemma {:induction false} Below22()
    ensures Pow(22, 37) < Pow(2, 165)
  {
    assert AtMost(1, 22, 2, 484, 0) && AtMost(484, 22, 1, 9210734, 17) && AtMost(9210734, 22, 1, 16765248, 73);
    hide AtMost, AtLeast, Pow;
    PowerBelow(22, 2, 1, 1, Chain(484, 0, 9210734, 17, 16765248, 73), 37, 165);
  }

  lemma {:induction false} Above22()
    ensures Pow(22, 431) > Pow(2, 1922)
  {
    assert AtLeast(1, 22, 26, 16152141, 92) && AtLeast(16152141, 22, 3, 9367178, 86)
      && AtLeast(9367178, 22, 3, 8476440, 83);
    hide AtMost, AtLeast, Pow;
    PowerAbove(22, 26, 3, 3, Chain(16152141, 92, 9367178, 86, 8476440, 83), 431, 1922);
  }

  lemma {:induction false} Below23()
    ensures Pow(23, 403) < Pow(2, 1823)
  {
    assert AtMost(1, 23, 25, 8922700, 90) && AtMost(8922700, 23, 0, 10737804, 69)
      && AtMost(10737804, 23, 3, 16724601, 83);
    hide AtMost, AtLeast, Pow;
    PowerBelow(23, 25, 0, 3, Chain(8922700, 90, 10737804, 69, 16724601, 83), 403, 1823);
  }

  lemma {:induction false} Above23()
    ensures Pow(23, 191) > Pow(2, 864)
  {
    assert AtLeast(1, 23, 11, 14197971, 26) && AtLeast(14197971, 23, 3, 12780240, 85)
      && AtLeast(12780240, 23, 3, 8390540, 85);
    hide AtMost, AtLeast, Pow;
    PowerAbove(23, 11, 3, 3, Chain(14197971, 26, 12780240, 85, 8390540, 85), 191, 864);
  }

  lemma {:induction false} Below24()
    ensures Pow(24, 306) < Pow(2, 1403)
  {
    assert AtMost(1, 24, 19, 9080168, 64) && AtMost(9080168, 24, 0, 11516111, 69)
      && AtMost(11516111, 24, 2, 16760085, 79);
    hide AtMost, AtLeast, Pow;
    PowerBelow(24, 19, 0, 2, Chain(9080168, 64, 11516111, 69, 16760085, 79), 306, 1403);
  }

  lemma {:induction false} Above24()
    ensures Pow(24, 359) > Pow(2, 1646)
  {
    assert AtLeast(1, 24, 22, 15322783, 77) && AtLeast(15322783, 24, 1, 8754919, 77)
      && AtLeast(8754919, 24, 3, 8397550, 83);
    hide AtMost, AtLeast, Pow;
    PowerAbove(24, 22, 1, 3, Chain(15322783, 77, 8754919, 77, 8397550, 83), 359, 1646);
  }

  lemma {:induction false} Below25()
    ensures Pow(25, 424) < Pow(2, 1969)
  {
    assert AtMost(1, 25, 26, 14012985, 97) && AtMost(14012985, 25, 2, 9967196, 81)
      && AtMost(9967196, 25, 0, 16719462, 69);
    hide AtMost, AtLeast, Pow;
    PowerBelow(25, 26, 2, 0, Chain(14012985, 97, 9967196, 81, 16719462, 69), 424, 1969);
  }

  lemma {:induction false} Above25()
    ensures Pow(25, 73) > Pow(2, 339)
  {
    assert AtLeast(1, 25, 4, 390625, 0) && AtLeast(390625, 25, 2, 12621774, 60)
      && AtLeast(12621774, 25, 1, 8397343, 76);
    hide AtMost, AtLeast, Pow;
    PowerAbove(25, 4, 2, 1, Chain(390625, 0, 12621774, 60, 8397343, 76), 73, 339);
  }

  lemma {:induction false} Below26()
    ensures Pow(26, 227) < Pow(2, 1067)
  {
    assert AtMost(1, 26, 14, 14667871, 42) && AtMost(14667871, 26, 0, 9801864, 72)
      && AtMost(9801864, 26, 3, 16775100, 83);
    hide AtMost, AtLeast, Pow;
    PowerBelow(26, 14, 0, 3, Chain(14667871, 42, 9801864, 72, 16775100, 83), 227, 1067);
  }

  lemma {:induction false} Above26()
    ensures Pow(26, 237) > Pow(2, 1114)
  {
    assert AtLeast(1, 26, 14, 14667870, 42) && AtLeast(14667870, 26, 3, 10514984, 86)
      && AtLeast(10514984, 26, 1, 8413140, 75);
    hide AtMost, AtLeast, Pow;
    PowerAbove(26, 14, 3, 1, Chain(14667870, 42, 10514984, 86, 8413140, 75), 237, 1114);
  }

  lemma {:induction false} Below27()
    ensures Pow(27, 102) < Pow(2, 485)
  {
    assert AtMost(1, 27, 6, 12106891, 5) && AtMost(12106891, 27, 1, 15354817, 75)
      && AtMost(15354817, 27, 2, 16760095, 81);
    hide AtMost, AtLeast, Pow;
    PowerBelow(27, 6, 1, 2, Chain(12106891, 5, 15354817, 75, 16760095, 81), 102, 485);
  }

  lemma {:induction false} Above27()
    ensures Pow(27, 359) > Pow(2, 1707)
  {
    assert AtLeast(1, 27, 22, 12781245, 81) && AtLeast(12781245, 27, 1, 9536230, 76)
      && AtLeast(9536230, 27, 3, 8415472, 84);
    hide AtMost, AtLeast, Pow;
    PowerAbove(27, 22, 1, 3, Chain(12781245, 81, 9536230, 76, 8415472, 84), 359, 1707);
  }

  lemma {:induction false} Below28()
    ensures Pow(28, 353) < Pow(2, 1697)
  {
    assert AtMost(1, 28, 22, 14223847, 82) && AtMost(14223847, 28, 0, 8667795, 72)
      && AtMost(8667795, 28, 1, 16734120, 73);
    hide AtMost, AtLeast, Pow;
    PowerBelow(28, 22, 0, 1, Chain(14223847, 82, 8667795, 72, 16734120, 73), 353, 1697);
  }

  lemma {:induction false} Above28()
    ensures Pow(28, 109) > Pow(2, 524)
  {
    assert AtLeast(1, 28, 6, 15059072, 5) && AtLeast(15059072, 28, 3, 14591075, 86)
      && AtLeast(14591075, 28, 1, 8398418, 77);
    hide AtMost, AtLeast, Pow;
    PowerAbove(28, 6, 3, 1, Chain(15059072, 5, 14591075, 86, 8398418, 77), 109, 524);
  }

  lemma {:induction false} Below29()
    ensures Pow(29, 169) < Pow(2, 821)
  {
    assert AtMost(1, 29, 10, 12538053, 25) && AtMost(12538053, 29, 2, 8595809, 81)
      && AtMost(8595809, 29, 1, 16763139, 73);
    hide AtMost, AtLeast, Pow;
    PowerBelow(29, 10, 2, 1, Chain(12538053, 25, 8595809, 81, 16763139, 73), 169, 821);
  }

  lemma {:induction false} Above29()
    ensures Pow(29, 345) > Pow(2, 1676)
  {
    assert AtLeast(1, 29, 21, 8491575, 79) && AtLeast(8491575, 29, 2, 14468027, 78)
      && AtLeast(14468027, 29, 1, 8408636, 77);
    hide AtMost, AtLeast, Pow;
    PowerAbove(29, 21, 2, 1, Chain(8491575, 79, 14468027, 78, 8408636, 77), 345, 1676);
  }

  lemma {:induction false} Below30()
    ensures Pow(30, 290) < Pow(2, 1423)
  {
    assert AtMost(1, 30, 18, 10501054, 65) && AtMost(10501054, 30, 0, 10299874, 70)
      && AtMost(10299874, 30, 2, 16757164, 79);
    hide AtMost, AtLeast, Pow;
    PowerBelow(30, 18, 0, 2, Chain(10501054, 65, 10299874, 70, 16757164, 79), 290, 1423);
  }

  lemma {:induction false} Above30()
    ensures Pow(30, 247) > Pow(2, 1212)
  {
    assert AtLeast(1, 30, 15, 12744389, 50) && AtLeast(12744389, 30, 1, 10474122, 76)
      && AtLeast(10474122, 30, 3, 8400103, 85);
    hide AtMost, AtLeast, Pow;
    PowerAbove(30, 15, 1, 3, Chain(12744389, 50, 10474122, 76, 8400103, 85), 247, 1212);
  }

  lemma {:induction false} Below31()
    ensures Pow(31, 131) < Pow(2, 649)
  {
    assert AtMost(1, 31, 8, 13014085, 16) && AtMost(13014085, 31, 0, 12148562, 71)
      && AtMost(12148562, 31, 3, 16773935, 85);
    hide AtMost, AtLeast, Pow;
    PowerBelow(31, 8, 0, 3, Chain(13014085, 16, 12148562, 71, 16773935, 85), 131, 649);
  }

  lemma {:induction false} Above31()
    ensures Pow(31, 371) > Pow(2, 1838)
  {
    assert AtLeast(1, 31, 23, 16166624, 90) && AtLeast(16166624, 31, 0, 14464974, 72)
      && AtLeast(14464974, 31, 3, 8428418, 87);
    hide AtMost, AtLeast, Pow;
    PowerAbove(31, 23, 0, 3, Chain(16166624, 90, 14464974, 72, 8428418, 87), 371, 1838);
  }

  lemma {:induction false} Below33()
    ensures Pow(33, 45) < Pow(2, 227)
  {
    assert AtMost(1, 33, 2, 1089, 0) && AtMost(1089, 33, 3, 11767752, 32) && AtMost(11767752, 33, 1, 16750906, 75);
    hide AtMost, AtLeast, Pow;
    PowerBelow(33, 2, 3, 1, Chain(1089, 0, 11767752, 32, 16750906, 75), 45, 227);
  }

  lemma {:induction false} Above33()
    ensures Pow(33, 383) > Pow(2, 1932)
  {
    assert AtLeast(1, 33, 23, 8511988, 93) && AtLeast(8511988, 33, 3, 9753178, 84)
      && AtLeast(9753178, 33, 3, 8405756, 85);
    hide AtMost, AtLeast, Pow;
    PowerAbove(33, 23, 3, 3, Chain(8511988, 93, 9753178, 84, 8405756, 85), 383, 1932);
  }

  lemma {:induction false} Below34()
    ensures Pow(34, 343) < Pow(2, 1745)
  {
    assert AtMost(1, 34, 21, 14981925, 83) && AtMost(14981925, 34, 1, 11335476, 77)
      && AtMost(11335476, 34, 3, 16774369, 85);
    hide AtMost, AtLeast, Pow;
    PowerBelow(34, 21, 1, 3, Chain(14981925, 83, 11335476, 77, 16774369, 85), 343, 1745);
  }

  lemma {:induction false} Above34()
    ensures Pow(34, 263) > Pow(2, 1338)
  {
    assert AtLeast(1, 34, 16, 11064274, 58) && AtLeast(11064274, 34, 1, 13487173, 75)
      && AtLeast(13487173, 34, 3, 8404479, 87);
    hide AtMost, AtLeast, Pow;
    PowerAbove(34, 16, 1, 3, Chain(11064274, 58, 13487173, 75, 8404479, 87), 263, 1338);
  }

  lemma {:induction false} Below35()
    ensures Pow(35, 379) < Pow(2, 1944)
  {
    assert AtMost(1, 35, 23, 16471966, 94) && AtMost(16471966, 35, 2, 9324557, 83)
      && AtMost(9324557, 35, 3, 16757041, 84);
    hide AtMost, AtLeast, Pow;
    PowerBelow(35, 23, 2, 3, Chain(16471966, 94, 9324557, 83, 16757041, 84), 379, 1944);
  }

  lemma {:induction false} Above35()
    ensures Pow(35, 263) > Pow(2, 1349)
  {
    assert AtLeast(1, 35, 16, 8796683, 59) && AtLeast(8796683, 35, 1, 11094918, 74)
      && AtLeast(11094918, 35, 3, 8396936, 86);
    hide AtMost, AtLeast, Pow;
    PowerAbove(35, 16, 1, 3, Chain(8796683, 59, 11094918, 74, 8396936, 86), 263, 1349);
  }

  lemma {:induction false} Below36()
    ensures Pow(36, 153) < Pow(2, 791)
  {
    assert AtMost(1, 36, 9, 12106891, 23) && AtMost(12106891, 36, 2, 11516113, 81)
      && AtMost(11516113, 36, 1, 16760096, 75);
    hide AtMost, AtLeast, Pow;
    PowerBelow(36, 9, 2, 1, Chain(12106891, 23, 11516113, 81, 16760096, 75), 153, 791);
  }

  lemma {:induction false} Above36()
    ensures Pow(36, 359) > Pow(2, 1856)
  {
    assert AtLeast(1, 36, 22, 13994436, 90) && AtLeast(13994436, 36, 1, 9137227, 77)
      && AtLeast(9137227, 36, 3, 8406506, 85);
    hide AtMost, AtLeast, Pow;
    PowerAbove(36, 22, 1, 3, Chain(13994436, 90, 9137227, 77, 8406506, 85), 359, 1856);
  }
}
