/** What single bits and low bit fields of a limb sequence say about its value,
    and rounding of a natural number divided by a power of two. */
module DtoaBits {
  import opened DtoaPow
  import opened DtoaLimbs

  /** JS_RNDN (ties to even), JS_RNDNA (ties away from zero), JS_RNDZ. */
  datatype RoundMode = ToNearestEven | ToNearestAway | TowardZero

  /** Whether n / d, truncated, must be incremented. */
  function RoundsUp(n: nat, d: nat, mode: RoundMode): bool
    requires d > 0
  {
    match mode
    case TowardZero => false
    case ToNearestAway => 2 * (n % d) >= d
    case ToNearestEven => 2 * (n % d) > d || (2 * (n % d) == d && (n / d) % 2 == 1)
  }

  /** n / d rounded to an integer. */
  function RoundQuot(n: nat, d: nat, mode: RoundMode): nat
    requires d > 0
  {
    n / d + if RoundsUp(n, d, mode) then 1 else 0
  }

  /** n / 2^shift rounded; a negative shift multiplies. */
  function RoundShift(n: nat, shift: int, mode: RoundMode): nat {
    if shift <= 0 then n * Pow(2, -shift) else RoundQuot(n, Pow(2, shift), mode)
  }

  // ----- splitting a limb sequence at a bit position -----

  lemma {:induction false} ValSplit(s: seq<limb>, l: nat)
    requires l <= |s|
    ensures Val(s) / Pow(BASE, l) == Val(s[l..]) && Val(s) % Pow(BASE, l) == Val(s[..l])
  {
    hide Val, Pow;
    assert s[..l] + s[l..] == s;
    ValConcat(s[..l], s[l..]);
    ValBound(s[..l]);
    DivModUnique(Val(s), Pow(BASE, l), Val(s[l..]), Val(s[..l]));
  }

  /** Bits 32 l + j and up, and below. */
  lemma {:induction false} BitPower(k: nat)
    ensures Pow(2, k) == Pow(BASE, k / 32) * Pow(2, k % 32)
    ensures Pow(BASE, k / 32) == Pow(2, 32 * (k / 32))
  {
    hide Pow;
    BaseIsPow();
    PowPow(2, 32, k / 32);
    PowAdd(2, 32 * (k / 32), k % 32);
  }

  lemma {:induction false} BelowAll(s: seq<limb>, k: nat)
    requires k / 32 >= |s|
    ensures Val(s) < Pow(2, k)
  {
    hide Val, Pow;
    ValBound(s);
    BitPower(k);
    PowMonotone(BASE, |s|, k / 32);
    MulAtLeast(Pow(2, k % 32), Pow(BASE, k / 32));
  }

  /** A limb's field below bit j, and what lies above it. */
  lemma {:induction false} LimbField(s: seq<limb>, j: nat)
    requires s != [] && j < 32
    ensures Val(s) % Pow(2, j) == s[0] % Pow(2, j)
    ensures (Val(s) / Pow(2, j)) % 2 == (s[0] / Pow(2, j)) % 2
  {
    ValFirst(s);
    Split(j);
    EvenPower(32 - j);
    hide Val, Pow;
    FieldParts(s[0], Val(s[1..]), Pow(2, j), Pow(2, 32 - j));
  }

  lemma {:induction false} FieldParts(x: nat, r: nat, p: nat, c: nat)
    requires p > 0 && c * p == BASE && c % 2 == 0
    ensures (x + BASE * r) % p == x % p
    ensures ((x + BASE * r) / p) % 2 == (x / p) % 2
  {
    Congruent(r, BASE, c * p);
    Assoc(r, c, p);
    DivOffset(x, p, r * c);
    Congruent(r, c, (c / 2) * 2);
    Assoc(r, c / 2, 2);
    DivOffset(x / p, 2, r * (c / 2));
  }

  lemma {:induction false} EvenPower(k: nat)
    requires k > 0
    ensures Pow(2, k) % 2 == 0 && Pow(2, k) == 2 * Pow(2, k - 1)
  {}

  lemma {:induction false} BitAt(s: seq<limb>, k: nat)
    ensures k / 32 >= |s| ==> (Val(s) / Pow(2, k)) == 0
    ensures k / 32 < |s| ==> (Val(s) / Pow(2, k)) % 2 == (s[k / 32] / Pow(2, k % 32)) % 2
  {
    hide Val, Pow;
    var l, j := k / 32, k % 32;
    if l >= |s| {
      BelowAll(s, k);
      DivModUnique(Val(s), Pow(2, k), 0, Val(s));
    } else {
      ValSplit(s, l);
      BitPower(k);
      DivDiv(Val(s), Pow(BASE, l), Pow(2, j));
      LimbField(s[l..], j);
    }
  }

  lemma {:induction false} ValZero(s: seq<limb>)
    ensures Val(s) == 0 <==> forall i :: 0 <= i < |s| ==> s[i] == 0
  {
    if s != [] {
      ValZero(s[1..]);
      if Val(s) == 0 {
        forall i | 0 <= i < |s| ensures s[i] == 0 {
          if i > 0 { assert s[i] == s[1..][i - 1]; }
        }
      }
      if forall i :: 0 <= i < |s| ==> s[i] == 0 {
        forall i | 0 <= i < |s[1..]| ensures s[1..][i] == 0 {
          assert s[1..][i] == s[i + 1];
        }
      }
    }
  }

  /** Some bit below position k is set. */
  lemma {:induction false} LowBits(s: seq<limb>, k: nat)
    ensures k / 32 >= |s| ==> Val(s) % Pow(2, k) == Val(s)
    ensures k / 32 < |s| ==>
              (Val(s) % Pow(2, k) == 0 <==> Val(s[..k / 32]) == 0 && s[k / 32] % Pow(2, k % 32) == 0)
  {
    hide Val, Pow;
    var l, j := k / 32, k % 32;
    if l >= |s| {
      BelowAll(s, k);
      DivModUnique(Val(s), Pow(2, k), 0, Val(s));
    } else {
      ValSplit(s, l);
      BitPower(k);
      DivDiv(Val(s), Pow(BASE, l), Pow(2, j));
      LimbField(s[l..], j);
    }
  }

  /** The round bit, the sticky bits and the last kept bit decide. */
  lemma {:induction false} RoundBits(n: nat, s: nat)
    requires s > 0
    ensures var bit1 := (n / Pow(2, s - 1)) % 2;
            && RoundsUp(n, Pow(2, s), ToNearestAway) == (bit1 == 1)
            && RoundsUp(n, Pow(2, s), ToNearestEven)
               == (bit1 == 1 && (n % Pow(2, s - 1) != 0 || (n / Pow(2, s)) % 2 == 1))
  {
    EvenPower(s);
    hide Pow;
    var h := Pow(2, s - 1);
    DivDiv(n, h, 2);
    assert n % Pow(2, s) == n % h + h * ((n / h) % 2);
    Euclid(n, h);
    if (n / h) % 2 == 1 {
      assert n % Pow(2, s) == n % h + h;
    } else {
      assert n % Pow(2, s) == n % h;
    }
  }
}
