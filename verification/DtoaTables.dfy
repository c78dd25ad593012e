/** The per-radix tables, and the finite facts about them that the conversions
    rely on, established by evaluating the powers. */
module DtoaTables {
  import opened DtoaPow
  import opened DtoaLimbs

  /** One row of digits_per_limb_table, radix_base_table (0 stands for 2^32),
      dtoa_max_digits_table and atod_max_digits_table. */
  datatype RadixInfo = RadixInfo(limbDigits: nat, limbBase: limb, maxDigits: nat, atodDigits: nat)

  predicate IsRadix(radix: int) { 2 <= radix <= 36 }

  function Info(radix: nat): RadixInfo
    requires IsRadix(radix)
  {
    match radix
    case 2 => RadixInfo(32, 0x00000000, 54, 64)
    case 3 => RadixInfo(20, 0xcfd41b91, 35, 80)
    case 4 => RadixInfo(16, 0x00000000, 28, 32)
    case 5 => RadixInfo(13, 0x48c27395, 24, 55)
    case 6 => RadixInfo(12, 0x81bf1000, 22, 49)
    case 7 => RadixInfo(11, 0x75db9c97, 20, 45)
    case 8 => RadixInfo(10, 0x40000000, 19, 21)
    case 9 => RadixInfo(10, 0xcfd41b91, 18, 40)
    case 10 => RadixInfo(9, 0x3b9aca00, 17, 38)
    case 11 => RadixInfo(9, 0x8c8b6d2b, 17, 37)
    case 12 => RadixInfo(8, 0x19a10000, 16, 35)
    case 13 => RadixInfo(8, 0x309f1021, 16, 34)
    case 14 => RadixInfo(8, 0x57f6c100, 15, 33)
    case 15 => RadixInfo(8, 0x98c29b81, 15, 32)
    case 16 => RadixInfo(8, 0x00000000, 15, 16)
    case 17 => RadixInfo(7, 0x18754571, 14, 31)
    case 18 => RadixInfo(7, 0x247dbc80, 14, 30)
    case 19 => RadixInfo(7, 0x3547667b, 14, 30)
    case 20 => RadixInfo(7, 0x4c4b4000, 14, 29)
    case 21 => RadixInfo(7, 0x6b5a6e1d, 14, 29)
    case 22 => RadixInfo(7, 0x94ace180, 13, 28)
    case 23 => RadixInfo(7, 0xcaf18367, 13, 28)
    case 24 => RadixInfo(6, 0x0b640000, 13, 27)
    case 25 => RadixInfo(6, 0x0e8d4a51, 13, 27)
    case 26 => RadixInfo(6, 0x1269ae40, 13, 27)
    case 27 => RadixInfo(6, 0x17179149, 13, 26)
    case 28 => RadixInfo(6, 0x1cb91000, 13, 26)
    case 29 => RadixInfo(6, 0x23744899, 12, 26)
    case 30 => RadixInfo(6, 0x2b73a840, 12, 26)
    case 31 => RadixInfo(6, 0x34e63b41, 12, 25)
    case 32 => RadixInfo(6, 0x40000000, 12, 12)
    case 33 => RadixInfo(6, 0x4cfa3cc1, 12, 25)
    case 34 => RadixInfo(6, 0x5c13d840, 12, 25)
    case 35 => RadixInfo(6, 0x6d91b519, 12, 24)
    case _ => RadixInfo(6, 0x81bf1000, 12, 24)
  }

  /** What one limb holds: 2^32 is written 0. */
  function BaseOf(radix: nat): nat
    requires IsRadix(radix)
  {
    if Info(radix).limbBase == 0 then BASE else Info(radix).limbBase
  }

  ghost predicate Row(radix: nat, digits: nat, base: nat, max: nat) {
    && 1 <= digits <= 32 && 2 <= max <= 54
    && FastPow(radix, digits) == base
    && FastPow(radix, max - 1) >= 0x20_0000_0000_0000
    && FastPow(radix, max) < 0x7fff_ffff_ffff_ffff
  }

  lemma {:induction false} Rows2()
    ensures Row(2, 32, 0x100000000, 54)
    ensures Row(3, 20, 0xcfd41b91, 35)
  {}

  lemma {:induction false} Rows4()
    ensures Row(4, 16, 0x100000000, 28)
    ensures Row(5, 13, 0x48c27395, 24)
    ensures Row(6, 12, 0x81bf1000, 22)
  {}

  lemma {:induction false} Rows7()
    ensures Row(7, 11, 0x75db9c97, 20)
    ensures Row(8, 10, 0x40000000, 19)
  {}

  lemma {:induction false} Rows9()
    ensures Row(9, 10, 0xcfd41b91, 18)
    ensures Row(10, 9, 0x3b9aca00, 17)
  {}

  lemma {:induction false} Rows11()
    ensures Row(11, 9, 0x8c8b6d2b, 17)
    ensures Row(12, 8, 0x19a10000, 16)
    ensures Row(13, 8, 0x309f1021, 16)
    ensures Row(14, 8, 0x57f6c100, 15)
    ensures Row(15, 8, 0x98c29b81, 15)
  {}

  lemma {:induction false} Rows16()
    ensures Row(16, 8, 0x100000000, 15)
    ensures Row(17, 7, 0x18754571, 14)
    ensures Row(18, 7, 0x247dbc80, 14)
    ensures Row(19, 7, 0x3547667b, 14)
    ensures Row(20, 7, 0x4c4b4000, 14)
  {}

  lemma {:induction false} Rows21()
    ensures Row(21, 7, 0x6b5a6e1d, 14)
    ensures Row(22, 7, 0x94ace180, 13)
    ensures Row(23, 7, 0xcaf18367, 13)
    ensures Row(24, 6, 0xb640000, 13)
    ensures Row(25, 6, 0xe8d4a51, 13)
  {}

  lemma {:induction false} Rows26()
    ensures Row(26, 6, 0x1269ae40, 13)
    ensures Row(27, 6, 0x17179149, 13)
    ensures Row(28, 6, 0x1cb91000, 13)
    ensures Row(29, 6, 0x23744899, 12)
    ensures Row(30, 6, 0x2b73a840, 12)
  {}

  lemma {:induction false} Rows31()
    ensures Row(31, 6, 0x34e63b41, 12)
    ensures Row(32, 6, 0x40000000, 12)
    ensures Row(33, 6, 0x4cfa3cc1, 12)
    ensures Row(34, 6, 0x5c13d840, 12)
    ensures Row(35, 6, 0x6d91b519, 12)
    ensures Row(36, 6, 0x81bf1000, 12)
  {}

  lemma {:induction false} TableRow(radix: nat)
    requires IsRadix(radix)
    ensures Row(radix, Info(radix).limbDigits, BaseOf(radix), Info(radix).maxDigits)
    ensures Info(radix).maxDigits <= Info(radix).atodDigits
  {
    hide Row;
    Rows2();
    Rows4();
    Rows7();
    Rows9();
    Rows11();
    Rows16();
    Rows21();
    Rows26();
    Rows31();
  }

  /** A limb holds limbDigits digits, and limbBase is the power they make. */
  lemma {:induction false} LimbTable(radix: nat)
    requires IsRadix(radix)
    ensures 1 <= Info(radix).limbDigits <= 32 && Pow(radix, Info(radix).limbDigits) == BaseOf(radix)
  {
    TableRow(radix);
    hide Info, BaseOf, Pow, FastPow;
    FastPowIsPow(radix, Info(radix).limbDigits);
  }

  /** maxDigits digits distinguish all 53-bit significands and fit 63 bits. */
  lemma {:induction false} DigitsTable(radix: nat)
    requires IsRadix(radix)
    ensures 2 <= Info(radix).maxDigits <= 54 && Info(radix).maxDigits <= Info(radix).atodDigits
    ensures Pow(radix, Info(radix).maxDigits - 1) >= 0x20_0000_0000_0000
    ensures Pow(radix, Info(radix).maxDigits) < 0x7fff_ffff_ffff_ffff
  {
    TableRow(radix);
    hide Info, BaseOf, Pow, FastPow;
    FastPowIsPow(radix, Info(radix).maxDigits - 1);
    FastPowIsPow(radix, Info(radix).maxDigits);
  }
}
