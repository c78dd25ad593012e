/** The digit tables are as tight as they can be. */
module DtoaTight {
  import opened DtoaPow
  import opened DtoaTables

  /** Digits are kept up to 128 bits, or to 64 in a power-of-two radix. */
  function KeptLimit(radix: nat): nat {
    if radix == 2 || radix == 4 || radix == 8 || radix == 16 || radix == 32 then 0x1_0000_0000_0000_0000
    else 0x1_0000_0000_0000_0000_0000_0000_0000_0000
  }

  ghost predicate Tight(radix: nat, digits: nat, max: nat, atod: nat) {
    && max >= 2 && FastPow(radix, max - 2) < 0x20_0000_0000_0000
    && FastPow(radix, digits + 1) > 0x1_0000_0000
    && FastPow(radix, atod) <= KeptLimit(radix) < radix * FastPow(radix, atod)
  }

  lemma {:induction false} Tight2()
    ensures Tight(2, 32, 54, 64)
  {}

  lemma {:induction false} Tight3()
    ensures Tight(3, 20, 35, 80)
  {}

  lemma {:induction false} Tight4()
    ensures Tight(4, 16, 28, 32)
  {}

  lemma {:induction false} Tight5()
    ensures Tight(5, 13, 24, 55)
  {}

  lemma {:induction false} Tight6()
    ensures Tight(6, 12, 22, 49)
  {}

  lemma {:induction false} Tight7()
    ensures Tight(7, 11, 20, 45)
  {}

  lemma {:induction false} Tight8()
    ensures Tight(8, 10, 19, 21)
  {}

  lemma {:induction false} Tight9()
    ensures Tight(9, 10, 18, 40)
  {}

  lemma {:induction false} Tight10()
    ensures Tight(10, 9, 17, 38)
  {}

  lemma {:induction false} Tight11()
    ensures Tight(11, 9, 17, 37)
  {}

  lemma {:induction false} Tight12()
    ensures Tight(12, 8, 16, 35)
  {}

  lemma {:induction false} Tight13()
    ensures Tight(13, 8, 16, 34)
  {}

  lemma {:induction false} Tight14()
    ensures Tight(14, 8, 15, 33)
  {}

  lemma {:induction false} Tight15()
    ensures Tight(15, 8, 15, 32)
  {}

  lemma {:induction false} Tight16()
    ensures Tight(16, 8, 15, 16)
  {}

  lemma {:induction false} Tight17()
    ensures Tight(17, 7, 14, 31)
  {}

  lemma {:induction false} Tight18()
    ensures Tight(18, 7, 14, 30)
  {}

  lemma {:induction false} Tight19()
    ensures Tight(19, 7, 14, 30)
  {}

  lemma {:induction false} Tight20()
    ensures Tight(20, 7, 14, 29)
  {}

  lemma {:induction false} Tight21()
    ensures Tight(21, 7, 14, 29)
  {}

  lemma {:induction false} Tight22()
    ensures Tight(22, 7, 13, 28)
  {}

  lemma {:induction false} Tight23()
    ensures Tight(23, 7, 13, 28)
  {}

  lemma {:induction false} Tight24()
    ensures Tight(24, 6, 13, 27)
  {}

  lemma {:induction false} Tight25()
    ensures Tight(25, 6, 13, 27)
  {}

  lemma {:induction false} Tight26()
    ensures Tight(26, 6, 13, 27)
  {}

  lemma {:induction false} Tight27()
    ensures Tight(27, 6, 13, 26)
  {}

  lemma {:induction false} Tight28()
    ensures Tight(28, 6, 13, 26)
  {}

  lemma {:induction false} Tight29()
    ensures Tight(29, 6, 12, 26)
  {}

  lemma {:induction false} Tight30()
    ensures Tight(30, 6, 12, 26)
  {}

  lemma {:induction false} Tight31()
    ensures Tight(31, 6, 12, 25)
  {}

  lemma {:induction false} Tight32()
    ensures Tight(32, 6, 12, 12)
  {}

  lemma {:induction false} Tight33()
    ensures Tight(33, 6, 12, 25)
  {}

  lemma {:induction false} Tight34()
    ensures Tight(34, 6, 12, 25)
  {}

  lemma {:induction false} Tight35()
    ensures Tight(35, 6, 12, 24)
  {}

  lemma {:induction false} Tight36()
    ensures Tight(36, 6, 12, 24)
  {}

  lemma {:induction false} TightRow(radix: nat)
    requires IsRadix(radix)
    ensures Tight(radix, Info(radix).limbDigits, Info(radix).maxDigits, Info(radix).atodDigits)
  {
    hide Tight;
    match radix
    case 2 => Tight2();
    case 3 => Tight3();
    case 4 => Tight4();
    case 5 => Tight5();
    case 6 => Tight6();
    case 7 => Tight7();
    case 8 => Tight8();
    case 9 => Tight9();
    case 10 => Tight10();
    case 11 => Tight11();
    case 12 => Tight12();
    case 13 => Tight13();
    case 14 => Tight14();
    case 15 => Tight15();
    case 16 => Tight16();
    case 17 => Tight17();
    case 18 => Tight18();
    case 19 => Tight19();
    case 20 => Tight20();
    case 21 => Tight21();
    case 22 => Tight22();
    case 23 => Tight23();
    case 24 => Tight24();
    case 25 => Tight25();
    case 26 => Tight26();
    case 27 => Tight27();
    case 28 => Tight28();
    case 29 => Tight29();
    case 30 => Tight30();
    case 31 => Tight31();
    case 32 => Tight32();
    case 33 => Tight33();
    case 34 => Tight34();
    case 35 => Tight35();
    case 36 => Tight36();
  }

  /** maxDigits is the least number of digits that tell all doubles apart; limbDigits the most
      that fit a limb; atodDigits the most that fit 128 bits, or 64 in a power-of-two radix. */
  lemma {:induction false} TablesTight(radix: nat)
    requires IsRadix(radix)
    ensures var i := Info(radix);
            && i.maxDigits >= 2 && Pow(radix, i.maxDigits - 2) < 0x20_0000_0000_0000 <= Pow(radix, i.maxDigits - 1)
            && Pow(radix, i.limbDigits) <= 0x1_0000_0000 < Pow(radix, i.limbDigits + 1)
            && Pow(radix, i.atodDigits) <= KeptLimit(radix) < Pow(radix, i.atodDigits + 1)
  {
    hide Pow, FastPow, KeptLimit, Info;
    TightRow(radix);
    DigitsTable(radix);
    LimbTable(radix);
    var i := Info(radix);
    FastPowIsPow(radix, i.maxDigits - 2);
    FastPowIsPow(radix, i.limbDigits + 1);
    FastPowIsPow(radix, i.atodDigits);
    PowNext(radix, i.atodDigits);
  }
}
