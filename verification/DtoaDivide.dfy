/** Division by an invariant divisor through its reciprocal. */
module DtoaDivide {
  import opened DtoaPow
  import opened DtoaLimbs

  const HALF: nat := 0x8000_0000

  /** The reciprocal: floor((2^64 - 1) / d) - 2^32, in unsigned 32-bit words. */
  function ReciprocalOf(d: limb): (v: limb)
    requires d >= HALF
  {
    var a1 := (2 * BASE - d - 1) % BASE;
    var a0 := BASE - 1;
    ReciprocalFits(a1 * BASE + a0, d);
    (a1 * BASE + a0) / d
  }

  lemma {:induction false} ReciprocalFits(n: nat, d: limb)
    requires d >= HALF && n == (BASE - d) * BASE - 1
    ensures n / d < BASE
  {
    Euclid(n, d);
    if n / d >= BASE {
      MulMonotone(BASE, n / d, d);
    }
  }

  lemma {:induction false} ReciprocalExact(d: limb)
    requires d >= HALF
    ensures var v := ReciprocalOf(d);
            (BASE + v) * d < BASE * BASE <= (BASE + v) * d + d
  {
    var n := (BASE - d) * BASE - 1;
    Euclid(n, d);
    Distribute(d, BASE, n / d);
    assert (2 * BASE - d - 1) % BASE == BASE - d - 1;
  }

  /** The estimate a1 + high word of (v * (a1 + s) + adjusted a0), as one sum:
      s tells whether a0 has its top bit set. */
  ghost function Estimate(a1: nat, a0: nat, d: nat, v: nat, s: nat): int {
    (BASE + v) * (a1 + s) + a0 + s * d - 2 * s * BASE
  }

  /** The scaled error of the estimate, before it is truncated. */
  lemma {:induction false} EstimateError(a1: nat, a0: nat, d: nat, v: nat, c: nat)
    requires (BASE + v) * d == BASE * BASE - c
    ensures (a1 * BASE + a0) * BASE - Estimate(a1, a0, d, v, 0) * d == c * a1 + a0 * (BASE - d)
    ensures (a1 * BASE + a0) * BASE - Estimate(a1, a0, d, v, 1) * d == c * (a1 + 1) + (BASE - d) * (a0 - (BASE - d))
  {
    var w := BASE + v;
    Scaled(w, d, a1, BASE * BASE - c);
    Scaled(w, d, a1 + 1, BASE * BASE - c);
  }

  lemma {:induction false} Scaled(w: int, d: int, k: int, p: int)
    requires w * d == p
    ensures (w * k) * d == p * k
  {}

  /** Truncating the estimate leaves it at most one below the quotient. */
  lemma {:induction false} Truncated(x: nat, d: nat, n: nat, err: int)
    requires d > 0 && n * BASE - x * d == err && 0 <= err
    requires err + (BASE - 1) * d < 2 * d * BASE
    ensures var q := x / BASE; 0 <= n - q * d < 2 * d
  {
    var q := x / BASE;
    Euclid(x, BASE);
    Congruent(d, x, q * BASE + x % BASE);
    Distribute(d, q * BASE, x % BASE);
    MulMonotone(x % BASE, BASE - 1, d);
    assert x * d == (q * d) * BASE + (x % BASE) * d;
  }

  lemma {:induction false} RemainderTerm(c: nat, a: nat, d: nat)
    requires c <= d && a <= d
    ensures 0 <= c * a <= d * d && c * a <= d * a
  {
    MulMonotone(c, d, a);
    MulMonotone(a, d, d);
  }

  lemma {:induction false} LowTerm(a0: nat, d: nat)
    requires a0 < d <= BASE
    ensures 0 <= a0 * (BASE - d) <= BASE * d - d * d
  {
    MulMonotone(a0, d, BASE - d);
  }

  lemma {:induction false} HighTerm(a0: nat, d: nat)
    requires BASE - d <= a0 < BASE && d <= BASE
    ensures 0 <= (BASE - d) * (a0 - (BASE - d)) <= (BASE - d) * (d - 1) == BASE * d - d * d - BASE + d
  {
    MulMonotone(a0 - (BASE - d), d - 1, BASE - d);
  }

  lemma {:induction false} LowErrorSmall(a1: nat, a0: nat, d: nat, c: nat)
    requires HALF <= d < BASE && a1 < d && a0 < HALF && 1 <= c <= d
    ensures 0 <= c * a1 + a0 * (BASE - d)
    ensures c * a1 + a0 * (BASE - d) + (BASE - 1) * d < 2 * d * BASE
  {
    RemainderTerm(c, a1, d);
    LowTerm(a0, d);
  }

  lemma {:induction false} HighErrorSmall(a1: nat, a0: nat, d: nat, c: nat)
    requires HALF <= d < BASE && a1 < d && HALF <= a0 < BASE && 1 <= c <= d
    ensures 0 <= c * (a1 + 1) + (BASE - d) * (a0 - (BASE - d))
    ensures c * (a1 + 1) + (BASE - d) * (a0 - (BASE - d)) + (BASE - 1) * d < 2 * d * BASE
  {
    RemainderTerm(c, a1 + 1, d);
    HighTerm(a0, d);
  }

  lemma {:induction false} EstimateGood(a1: limb, a0: limb, d: limb, v: limb)
    requires d >= HALF && a1 < d && v == ReciprocalOf(d)
    ensures var s := if a0 >= HALF then 1 else 0;
            var x := Estimate(a1, a0, d, v, s);
            x >= 0 && 0 <= a1 * BASE + a0 - (x / BASE) * d < 2 * d
  {
    ReciprocalExact(d);
    var c := BASE * BASE - (BASE + v) * d;
    EstimateError(a1, a0, d, v, c);
    if a0 < HALF {
      LowErrorSmall(a1, a0, d, c);
      Truncated(Estimate(a1, a0, d, v, 0), d, a1 * BASE + a0, c * a1 + a0 * (BASE - d));
    } else {
      HighErrorSmall(a1, a0, d, c);
      MulAtLeast(a1 + 1, BASE + v);
      HighEstimateNat(a1, a0, d, v);
      Truncated(Estimate(a1, a0, d, v, 1), d, a1 * BASE + a0, c * (a1 + 1) + (BASE - d) * (a0 - (BASE - d)));
    }
  }

  lemma {:induction false} HighEstimateNat(a1: nat, a0: nat, d: nat, v: nat)
    requires HALF <= d && HALF <= a0
    ensures Estimate(a1, a0, d, v, 1) >= 0
  {
    MulAtLeast(a1 + 1, BASE + v);
  }

  /** The 64-bit product that the code's first quotient comes from: `top` is 1
      when a0 has its top bit set, and then d is added to a0, wrapping. */
  function Scratch(a1: limb, a0: limb, d: limb, v: limb): nat {
    if a0 >= HALF then v * ((a1 + 1) % BASE) + (a0 + d) % BASE
    else v * a1 + a0
  }

  /** In 32- and 64-bit words nothing wraps except where the code relies on it. */
  lemma {:induction false} EstimateInWords(a1: limb, a0: limb, d: limb, v: limb)
    requires d >= HALF && a1 < d
    ensures Scratch(a1, a0, d, v) < BASE * BASE
    ensures a1 * BASE + Scratch(a1, a0, d, v) == Estimate(a1, a0, d, v, if a0 >= HALF then 1 else 0)
  {
    if a0 >= HALF {
      assert (a0 + d) % BASE == a0 + d - BASE;
      assert (a1 + 1) % BASE == a1 + 1;
      MulMonotone(v, BASE - 1, a1 + 1);
      Distribute(a1 + 1, BASE, v);
    } else {
      MulMonotone(v, BASE - 1, a1);
      Distribute(a1, BASE, v);
    }
  }

  function FirstQuotient(a1: limb, a0: limb, d: limb, v: limb): limb {
    (Scratch(a1, a0, d, v) / BASE + a1) % BASE
  }

  /** q is the quotient or one less. */
  ghost predicate Near(a1: nat, a0: nat, q: nat, d: nat) {
    0 <= a1 * BASE + a0 - q * d < 2 * d
  }

  /** The quotient fits a word. */
  lemma {:induction false} FirstNear(a1: limb, a0: limb, q: nat, d: limb)
    requires a1 < d && 0 <= a1 * BASE + a0 - q * d < 2 * d
    ensures q % BASE == q && Near(a1, a0, q, d)
  {
    QuotientFits(a1, a0, d, q);
  }

  lemma {:induction false} EstimateWord(a1: limb, a0: limb, d: limb, v: limb)
    requires d >= HALF && a1 < d && v == ReciprocalOf(d)
    ensures Near(a1, a0, FirstQuotient(a1, a0, d, v), d)
  {
    hide Estimate, ReciprocalOf, Scratch;
    EstimateInWords(a1, a0, d, v);
    EstimateGood(a1, a0, d, v);
    var x := Scratch(a1, a0, d, v);
    DivOffset(x, BASE, a1);
    FirstNear(a1, a0, x / BASE + a1, d);
  }

  /** n - q * d - d in 64-bit words. */
  function Residue(n: nat, q: limb, d: limb): nat {
    (n - q * d - d) % (BASE * BASE)
  }

  /** q and r are the exact quotient and remainder of n by d. */
  ghost predicate QuotRem(n: nat, d: nat, q: nat, r: nat) {
    n == q * d + r && r < d
  }

  /** Quotient and remainder of a1 * 2^32 + a0 by d. */
  method DivideNormalized(a1: limb, a0: limb, d: limb, v: limb) returns (q: limb, r: limb)
    requires d >= HALF && a1 < d && v == ReciprocalOf(d)
    ensures QuotRem(a1 * BASE + a0, d, q, r)
  {
    EstimateWord(a1, a0, d, v);
    hide ReciprocalOf, FirstQuotient, Residue, Near, QuotRem;
    var q0: limb := FirstQuotient(a1, a0, d, v);
    var diff := Residue(a1 * BASE + a0, q0, d);
    var ah := diff / BASE;
    CorrectedQuotient(a1, a0, q0, d);
    q := (q0 + 1 + ah) % BASE;
    r := (diff % BASE + (if ah == 0 then 0 else d)) % BASE;
  }

  lemma {:induction false} CorrectedQuotient(a1: limb, a0: limb, q: limb, d: limb)
    requires a1 < d && Near(a1, a0, q, d)
    ensures var n := a1 * BASE + a0;
            var diff := Residue(n, q, d);
            var ah := diff / BASE;
            var r := (diff % BASE + (if ah == 0 then 0 else d)) % BASE;
            QuotRem(n, d, (q + 1 + ah) % BASE, r)
  {
    var rest := a1 * BASE + a0 - q * d;
    Corrected(rest, d);
    Distribute(d, q, 1);
    QuotientFits(a1, a0, d, if rest < d then q else q + 1);
    if rest < d {
      assert (q + 1 + (BASE - 1)) % BASE == q;
    } else {
      assert (q + 1 + 0) % BASE == q + 1;
    }
  }

  /** The high word of the 64-bit difference tells whether one more d fits. */
  lemma {:induction false} Corrected(rest: nat, d: limb)
    requires rest < 2 * d
    ensures var diff := (rest - d) % (BASE * BASE);
            if rest < d then diff / BASE == BASE - 1 && (diff % BASE + d) % BASE == rest
            else diff / BASE == 0 && diff % BASE == rest - d
  {}

  lemma {:induction false} QuotientFits(a1: nat, a0: limb, d: nat, q: nat)
    requires a1 < d && q * d <= a1 * BASE + a0
    ensures q < BASE
  {
    MulMonotone(a1, d - 1, BASE);
    if q >= BASE {
      MulMonotone(BASE, q, d);
    }
  }

  // ----- mp_div1norm, in place -----

  lemma {:induction false} DivNormStep(o: limb, v: nat, w: nat, b: nat, r: nat, q: nat, r1: nat)
    requires v == w * b + r && r < b && QuotRem(r * BASE + o, b, q, r1)
    ensures o + BASE * v == (q + BASE * w) * b + r1 && r1 < b
  {
    DivStep(o, v, w, b, r);
    DivModUnique(r * BASE + o, b, q, r1);
  }

  /** Limb by limb, from the top. */
  method DivideLimbs(a: array<limb>, n: nat, b: limb, v: limb, r0: limb) returns (r: limb)
    requires n <= a.Length && b >= HALF && r0 < b && v == ReciprocalOf(b)
    modifies a
    ensures old(Val(a[..n] + [r0])) == Val(a[..n]) * b + r && r < b
    ensures a[n..] == old(a[n..])
  {
    ValStart(r0);
    hide Val, Pow, ReciprocalOf, QuotRem;
    r := r0;
    ghost var was := a[..];
    assert was[n..n] == a[n..n] == [];
    var i := n;
    while i > 0
      invariant 0 <= i <= n && |a[..]| == |was| && r < b
      invariant Val(was[i..n] + [r0]) == Val(a[i..n]) * b + r
      invariant a[..i] == was[..i] && a[n..] == was[n..]
    {
      i := i - 1;
      ghost var tail := a[i + 1..n];
      assert a[i] == a[..i + 1][i] == was[i];
      ghost var r1 := r;
      var q;
      q, r := DivideNormalized(r, a[i], b, v);
      DivNormStep(a[i], Val(was[i + 1..n] + [r0]), Val(tail), b, r1, q, r);
      ValFirst(was[i..n] + [r0]);
      assert (was[i..n] + [r0])[1..] == was[i + 1..n] + [r0];
      assert a[..i] == a[..i + 1][..i];
      a[i] := q;
      assert a[i..n] == [q] + tail;
      ValFirst(a[i..n]);
      assert a[i..n][1..] == tail;
    }
    assert was[0..n] == was[..n] && a[0..n] == a[..n];
  }

  /** Divides by the unnormalized divisor d0, given b = d0 << shift and its reciprocal. */
  method DivNorm(a: array<limb>, n: nat, b: limb, r0: limb, v: limb, shift: nat, ghost d0: nat) returns (r: limb)
    requires n <= a.Length && shift < LIMB_BITS
    requires b >= HALF && b == d0 * Pow(2, shift) && v == ReciprocalOf(b) && r0 < d0
    modifies a
    ensures d0 > 0 && Val(a[..n]) == old(Val(a[..n] + [r0])) / d0 && r == old(Val(a[..n] + [r0])) % d0
    ensures a[n..] == old(a[n..])
  {
    hide Val, ReciprocalOf;
    ghost var p := Pow(2, shift);
    ghost var was := a[..n];
    MulMonotone(r0 + 1, d0, p);
    Distribute(p, r0, 1);
    var r1: limb := r0;
    if shift != 0 {
      var h := ShiftLeft(a, n, shift, 0);
      r1 := r0 * Pow(2, shift) + h;
      NormalizedTop(was, a[..n], r0, h, p);
    } else {
      assert p == 1;
    }
    hide Pow;
    r := DivideLimbs(a, n, b, v, r1);
    DivCancel(Val(was + [r0]), d0, p);
    DivModUnique(Val(was + [r0]) * p, b, Val(a[..n]), r);
    DivModUnique(r, p, Val(was + [r0]) % d0, 0);
    r := r / Pow(2, shift);
  }

  /** Shifting a number with a remainder limb on top. */
  lemma {:induction false} NormalizedTop(was: seq<limb>, now: seq<limb>, r0: limb, h: limb, p: nat)
    requires |was| == |now| && Val(now + [h]) == Val(was) * p + 0
    requires r0 * p + h < BASE
    ensures Val(now + [r0 * p + h]) == Val(was + [r0]) * p
  {
    hide Val, Pow;
    var w := Pow(BASE, |was|);
    ValSnoc(now, h);
    ValSnoc(now, r0 * p + h);
    ValSnoc(was, r0);
    Distribute(w, r0 * p, h);
    Assoc(w, r0, p);
    Distribute(p, Val(was), w * r0);
  }
}
