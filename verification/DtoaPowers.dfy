/** Powers of the radix as machine words, and normalized divisors. */
module DtoaPowers {
  import opened DtoaPow
  import opened DtoaLimbs
  import opened DtoaDivide
  import opened DtoaBits
  import opened DtoaBig

  /** 5^b for b <= 17: pow5_table, with pow5h_table above bit 32. */
  function Pow5(b: nat): nat
    requires 1 <= b <= 17
  {
    match b
    case 1 => 0x00000005
    case 2 => 0x00000019
    case 3 => 0x0000007d
    case 4 => 0x00000271
    case 5 => 0x00000c35
    case 6 => 0x00003d09
    case 7 => 0x0001312d
    case 8 => 0x0005f5e1
    case 9 => 0x001dcd65
    case 10 => 0x009502f9
    case 11 => 0x02e90edd
    case 12 => 0x0e8d4a51
    case 13 => 0x48c27395
    case 14 => Joined(0x01 * BASE, 0x6bcc41e9, BASE)
    case 15 => Joined(0x07 * BASE, 0x1afd498d, BASE)
    case 16 => Joined(0x23 * BASE, 0x86f26fc1, BASE)
    case _ => Joined(0xb1 * BASE, 0xa2bc2ec5, BASE)
  }

  /** The reciprocal of 5^b shifted to 32 bits: pow5_inv_table. */
  function Pow5Inverse(b: nat): limb
    requires 1 <= b <= 13
  {
    match b
    case 1 => 0x99999999
    case 2 => 0x47ae147a
    case 3 => 0x0624dd2f
    case 4 => 0xa36e2eb1
    case 5 => 0x4f8b588e
    case 6 => 0x0c6f7a0b
    case 7 => 0xad7f29ab
    case 8 => 0x5798ee23
    case 9 => 0x12e0be82
    case 10 => 0xb7cdfd9d
    case 11 => 0x5fd7fe17
    case 12 => 0x19799812
    case _ => 0xc25c2684
  }

  /** power << shift is d, normalized, and `inverse` is its reciprocal. */
  ghost predicate InverseRow(power: nat, shift: nat, d: nat, inverse: nat) {
    && power * FastPow(2, shift) == d && 0x8000_0000 <= d < BASE
    && (BASE + inverse) * d < BASE * BASE <= (BASE + inverse) * d + d
  }

  lemma {:induction false} FivesLow()
    ensures FastPow(5, 1) == 0x5
    ensures FastPow(5, 2) == 0x19
    ensures FastPow(5, 3) == 0x7d
    ensures FastPow(5, 4) == 0x271
    ensures FastPow(5, 5) == 0xc35
    ensures FastPow(5, 6) == 0x3d09
    ensures FastPow(5, 7) == 0x1312d
    ensures FastPow(5, 8) == 0x5f5e1
    ensures FastPow(5, 9) == 0x1dcd65
  {}

  lemma {:induction false} FivesHigh()
    ensures FastPow(5, 10) == 0x9502f9
    ensures FastPow(5, 11) == 0x2e90edd
    ensures FastPow(5, 12) == 0xe8d4a51
    ensures FastPow(5, 13) == 0x48c27395
    ensures FastPow(5, 14) == 0x16bcc41e9
    ensures FastPow(5, 15) == 0x71afd498d
    ensures FastPow(5, 16) == 0x2386f26fc1
    ensures FastPow(5, 17) == 0xb1a2bc2ec5
  {}

  lemma {:induction false} InversesLow()
    ensures InverseRow(0x00000005, 29, 0xa0000000, 0x99999999)
    ensures InverseRow(0x00000019, 27, 0xc8000000, 0x47ae147a)
    ensures InverseRow(0x0000007d, 25, 0xfa000000, 0x0624dd2f)
    ensures InverseRow(0x00000271, 22, 0x9c400000, 0xa36e2eb1)
    ensures InverseRow(0x00000c35, 20, 0xc3500000, 0x4f8b588e)
    ensures InverseRow(0x00003d09, 18, 0xf4240000, 0x0c6f7a0b)
  {}

  lemma {:induction false} InversesHigh()
    ensures InverseRow(0x0001312d, 15, 0x98968000, 0xad7f29ab)
    ensures InverseRow(0x0005f5e1, 13, 0xbebc2000, 0x5798ee23)
    ensures InverseRow(0x001dcd65, 11, 0xee6b2800, 0x12e0be82)
    ensures InverseRow(0x009502f9, 8, 0x9502f900, 0xb7cdfd9d)
    ensures InverseRow(0x02e90edd, 6, 0xba43b740, 0x5fd7fe17)
    ensures InverseRow(0x0e8d4a51, 4, 0xe8d4a510, 0x19799812)
    ensures InverseRow(0x48c27395, 1, 0x9184e72a, 0xc25c2684)
  {}

  lemma {:induction false} Pow5Exact(b: nat)
    requires 1 <= b <= 17
    ensures Pow5(b) == Pow(5, b)
  {
    hide Pow, FastPow;
    FivesLow();
    FivesHigh();
    FastPowIsPow(5, b);
  }

  /** The shift that normalizes a word is unique. */
  lemma {:induction false} ClzUnique(x: limb, s: nat)
    requires x > 0 && 0x8000_0000 <= x * Pow(2, s) < BASE
    ensures Clz32(x) == s
  {
    ClzBounds(x);
    hide Pow, Clz32;
    ClzOrder(x, s, Clz32(x));
    ClzOrder(x, Clz32(x), s);
  }

  lemma {:induction false} ClzOrder(x: nat, s: nat, c: nat)
    requires 0x8000_0000 <= x * Pow(2, s) && x * Pow(2, c) < BASE
    ensures c <= s
  {
    hide Pow;
    if s < c {
      PowStrict(2, s, c);
      MulMonotone(2 * Pow(2, s), Pow(2, c), x);
      Assoc(x, 2, Pow(2, s));
      Assoc(2, x, Pow(2, s));
    }
  }

  /** The reciprocal is unique. */
  lemma {:induction false} ReciprocalUnique(d: limb, v: limb)
    requires d >= HALF && (BASE + v) * d < BASE * BASE <= (BASE + v) * d + d
    ensures ReciprocalOf(d) == v
  {
    ReciprocalExact(d);
    hide ReciprocalOf;
    var u := ReciprocalOf(d);
    EuclidOrder(d, BASE + v, BASE * BASE - 1 - (BASE + v) * d, BASE + u, BASE * BASE - 1 - (BASE + u) * d);
    EuclidOrder(d, BASE + u, BASE * BASE - 1 - (BASE + u) * d, BASE + v, BASE * BASE - 1 - (BASE + v) * d);
  }

  lemma {:induction false} Pow5InverseExact(b: nat)
    requires 1 <= b <= 13
    ensures 0 < Pow5(b) < BASE && HALF <= Pow5(b) * Pow(2, Clz32(Pow5(b))) < BASE
    ensures ReciprocalOf(Pow5(b) * Pow(2, Clz32(Pow5(b)))) == Pow5Inverse(b)
  {
    InversesLow();
    InversesHigh();
    hide InverseRow, Pow, FastPow, Clz32, ReciprocalOf;
    var shift: nat, d: nat :| InverseRow(Pow5(b), shift, d, Pow5Inverse(b));
    InverseRowMeans(Pow5(b), shift, d, Pow5Inverse(b));
  }

  lemma {:induction false} InverseRowMeans(x: limb, shift: nat, d: nat, v: limb)
    requires x > 0 && InverseRow(x, shift, d, v)
    ensures HALF <= x * Pow(2, Clz32(x)) < BASE && ReciprocalOf(x * Pow(2, Clz32(x))) == v
  {
    hide Pow, FastPow, Clz32, ReciprocalOf;
    FastPowIsPow(2, shift);
    ClzUnique(x, shift);
    ReciprocalUnique(d, v);
  }

  // ----- pow_ui and pow_ui_inv -----

  lemma {:induction false} Square(a: nat, k: nat, bit: nat)
    requires bit <= 1
    ensures Pow(a, 2 * k + bit) == if bit == 1 then (Pow(a, k) * Pow(a, k)) * a else Pow(a, k) * Pow(a, k)
  {
    hide Pow;
    PowAdd(a, k, k);
    PowNext(a, 2 * k);
    assert 2 * k == k + k;
  }

  /** b >> i */
  function HighBits(b: nat, i: nat): nat { b / Pow(2, i) }

  /** The next bit of b enters the exponent. */
  lemma {:induction false} NextBit(b: nat, i: nat)
    ensures HighBits(b, i) == 2 * HighBits(b, i + 1) + HighBits(b, i) % 2
    ensures HighBits(b, i) <= b && HighBits(b, 0) == b
  {
    hide Pow;
    PowNext(2, i);
    PowNext(2, 0);
    DivDiv(b, Pow(2, i), 2);
    QuotientAtMost(b, Pow(2, i));
  }

  lemma {:induction false} TopExponent(b: limb)
    requires b > 0
    ensures Clz32(b) < 32
    ensures HighBits(b, 31 - Clz32(b)) == 1
  {
    ClzBounds(b);
    hide Clz32;
    EvenPower(32 - Clz32(b));
    hide Pow;
    DivModUnique(b, Pow(2, 31 - Clz32(b)), 1, b - Pow(2, 31 - Clz32(b)));
  }

  lemma {:induction false} QuotientAtMost(b: nat, d: nat)
    requires d > 0
    ensures b / d <= b
  {
    Euclid(b, d);
    MulAtLeast(d, b / d);
  }

  /** a^b by binary powering, or from the table of powers of five. */
  method PowUi(a: nat, b: limb) returns (r: nat)
    requires 1 <= a < BASE && Pow(a, b) < 0x1_0000_0000_0000_0000
    ensures r == Pow(a, b)
  {
    hide HighBits, Clz32, Pow;
    PowNext(a, 0);
    if b == 0 {
      return 1;
    }
    if b == 1 {
      return a;
    }
    if (a == 5 || a == 10) && b <= 17 {
      Pow5Exact(b);
      PowMul(5, 2, b);
      r := Pow5(b);
      if a == 10 {
        r := r * Pow(2, b);
      }
      return;
    }
    r := a;
    TopExponent(b);
    var i := 31 - Clz32(b);
    while i > 0
      invariant 0 <= i <= 31
      invariant r == Pow(a, HighBits(b, i))
    {
      i := i - 1;
      NextBit(b, i);
      PowMonotone(a, HighBits(b, i), b);
      r := PowStep(a, HighBits(b, i + 1), r, HighBits(b, i) % 2);
    }
    NextBit(b, 0);
  }

  /** r := r * r, times a for a set bit, in 64-bit words. */
  method PowStep(a: nat, ghost k: nat, r0: nat, bit: nat) returns (r: nat)
    requires 1 <= a < BASE && bit <= 1 && r0 == Pow(a, k) && Pow(a, 2 * k + bit) < 0x1_0000_0000_0000_0000
    ensures r == Pow(a, 2 * k + bit)
  {
    hide Pow;
    Square(a, k, bit);
    Square(a, k, 0);
    PowMonotone(a, 2 * k, 2 * k + bit);
    var square := r0 * r0;
    assert square == Pow(a, 2 * k);
    r := Word64(square);
    assert r == square;
    if bit == 1 {
      var cube := r * a;
      r := Word64(cube);
    }
  }

  /** a^b normalized: shifted so that bit 31 is set, with its reciprocal. */
  method PowUiInv(a: nat, b: limb) returns (r: limb, inv: limb, shift: nat)
    requires 1 <= a < BASE && Pow(a, b) < BASE
    ensures shift < LIMB_BITS && r >= HALF && r == Pow(a, b) * Pow(2, shift) && inv == ReciprocalOf(r)
  {
    hide Pow, Clz32, ReciprocalOf;
    var p;
    if a == 5 && 1 <= b <= 13 {
      Pow5Exact(b);
      Pow5InverseExact(b);
      p := Pow5(b);
      ClzBounds(p);
      shift := Clz32(p);
      r := p * Pow(2, shift);
      inv := Pow5Inverse(b);
    } else {
      p := PowUi(a, b);
      ClzBounds(p);
      shift := Clz32(p);
      r := p * Pow(2, shift);
      inv := ReciprocalOf(r);
    }
  }
}
