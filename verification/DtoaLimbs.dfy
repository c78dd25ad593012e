/** Little-endian limb arrays updated in place (mp_* routines).  Words are
    integers below 2^32; shifts are multiplications and divisions by powers of
    two, masks are remainders, and an OR of disjoint fields is Joined. */
module DtoaLimbs {
  import opened DtoaPow

  const BASE: nat := 0x1_0000_0000
  const LIMB_BITS: nat := 32

  type limb = x: nat | x < 0x1_0000_0000

  /** The low 64 bits. */
  function Word64(x: int): nat { x % 0x1_0000_0000_0000_0000 }

  /** sum of s[i] * 2^(32 i) */
  function Val(s: seq<limb>): nat {
    if s == [] then 0 else s[0] + BASE * Val(s[1..])
  }

  /** hi | lo, where the bits of lo lie below those of hi; p is a power of two. */
  function Joined(hi: nat, lo: nat, p: nat): nat
    requires lo < p && hi % p == 0
  {
    hi + lo
  }

  lemma {:induction false} ValFirst(s: seq<limb>)
    requires s != []
    ensures Val(s) == s[0] + BASE * Val(s[1..])
  {}

  lemma {:induction false} ValStart(x: limb)
    ensures Val([]) == 0 && Val([x]) == x && [] + [x] == [x]
  {
    assert [x][1..] == [];
  }

  lemma {:induction false} ValConcat(a: seq<limb>, b: seq<limb>)
    ensures Val(a + b) == Val(a) + Pow(BASE, |a|) * Val(b)
  {
    if a == [] {
      assert a + b == b;
    } else {
      ValConcat(a[1..], b);
      assert (a + b)[1..] == a[1..] + b;
      ValFirst(a);
      ValFirst(a + b);
      PowNext(BASE, |a| - 1);
      hide Val, Pow;
      Weigh(Pow(BASE, |a| - 1), Val(a[1..]), Val(b), Val(a[1..] + b));
    }
  }

  lemma {:induction false} Weigh(p: nat, x: nat, y: nat, v: nat)
    requires v == x + p * y
    ensures BASE * v == BASE * x + (p * BASE) * y
  {
    Assoc(BASE, p, y);
  }

  lemma {:induction false} ValSnoc(s: seq<limb>, x: limb)
    ensures Val(s + [x]) == Val(s) + Pow(BASE, |s|) * x
  {
    ValConcat(s, [x]);
    ValStart(x);
  }

  lemma {:induction false} ValBound(s: seq<limb>)
    ensures Val(s) < Pow(BASE, |s|)
  {
    if s != [] {
      ValBound(s[1..]);
      var p := Pow(BASE, |s| - 1);
      assert BASE * Val(s[1..]) <= BASE * (p - 1);
    }
  }

  /** Equal values of equal length are equal limb by limb. */
  lemma {:induction false} ValInjective(a: seq<limb>, b: seq<limb>)
    requires |a| == |b| && Val(a) == Val(b)
    ensures a == b
  {
    if a != [] {
      DivModUnique(Val(a), BASE, Val(a[1..]), a[0]);
      DivModUnique(Val(b), BASE, Val(b[1..]), b[0]);
      ValInjective(a[1..], b[1..]);
      assert a == [a[0]] + a[1..] && b == [b[0]] + b[1..];
    }
  }

  // ----- mp_add_ui -----

  /** Two limbs above a prefix weigh as their combined value. */
  lemma {:induction false} ValTwo(pre: seq<limb>, t: nat)
    requires t / BASE < BASE
    ensures Val(pre + [t % BASE] + [t / BASE]) == Val(pre) + Pow(BASE, |pre|) * t
  {
    hide Val, Pow;
    var p, lo, hi := Pow(BASE, |pre|), t % BASE, t / BASE;
    ValSnoc(pre, lo);
    ValSnoc(pre + [lo], hi);
    PowNext(BASE, |pre|);
    Euclid(t, BASE);
    Congruent(p, t, lo + BASE * hi);
    Distribute(p, lo, BASE * hi);
    Assoc(p, BASE, hi);
  }

  lemma {:induction false} AddStep(pre: seq<limb>, o: limb, k: limb)
    ensures Val(pre + [(o + k) % BASE] + [(o + k) / BASE]) == Val(pre + [k]) + Pow(BASE, |pre|) * o
  {
    hide Val, Pow;
    ValTwo(pre, o + k);
    ValSnoc(pre, k);
    Distribute(Pow(BASE, |pre|), o, k);
  }

  lemma {:induction false} SameTail(s: seq<limb>, t: seq<limb>, i: nat, n: nat)
    requires i <= n <= |s| == |t| && s[i..] == t[i..]
    ensures s[i..n] == t[i..n] && s[n..] == t[n..]
  {
    forall k | i <= k < |s| ensures s[k] == t[k] {
      assert s[k] == s[i..][k - i] && t[k] == t[i..][k - i];
    }
  }

  /** The carry stopped at i: what follows keeps its value. */
  lemma {:induction false} Untouched(now: seq<limb>, was: seq<limb>, i: nat, n: nat, b: nat)
    requires i <= n <= |now| == |was| && now[i..n] == was[i..n] && Val(now[..i] + [0]) == Val(was[..i]) + b
    ensures Val(now[..n] + [0]) == Val(was[..n]) + b
  {
    hide Val, Pow;
    assert now[..n] == now[..i] + now[i..n] && was[..n] == was[..i] + was[i..n];
    ValConcat(now[..i], [0]);
    ValConcat(now[..i], now[i..n]);
    ValConcat(was[..i], was[i..n]);
    ValConcat(now[..n], [0]);
    ValStart(0);
  }

  /** Adds b; the loop stops at the first zero carry. */
  method AddSmall(a: array<limb>, b: limb, n: nat) returns (k: limb)
    requires n <= a.Length
    modifies a
    ensures n > 0 ==> Val(a[..n] + [k]) == old(Val(a[..n])) + b
    ensures n == 0 ==> k == b
    ensures a[n..] == old(a[n..])
    ensures n > 0 ==> k <= 1
  {
    ValStart(b);
    hide Val, Pow;
    k := b;
    var i := 0;
    ghost var was := a[..];
    while i < n && k != 0
      invariant 0 <= i <= n
      invariant |a[..]| == |was|
      invariant i > 0 ==> k <= 1
      invariant i == 0 ==> k == b
      invariant Val(a[..i] + [k]) == Val(was[..i]) + b
      invariant a[i..] == was[i..]
    {
      ghost var pre := a[..i];
      var s := a[i] + k;
      AddStep(pre, a[i], k);
      ValTake(was, i);
      assert a[i] == a[i..][0] == was[i];
      assert was[i + 1..] == was[i..][1..];
      k := if s % BASE < k then 1 else 0;
      a[i] := s % BASE;
      assert a[..i + 1] == pre + [s % BASE];
      assert a[i + 1..] == was[i + 1..];
      i := i + 1;
    }
    ghost var now := a[..];
    SameTail(now, was, i, n);
    if i < n {
      Untouched(now, was, i, n, b);
    }
  }

  // ----- mp_mul1 -----

  lemma {:induction false} ProductFits(o: limb, k: limb, b: limb)
    ensures (o * b + k) / BASE < BASE
  {
    MulMonotone(o, BASE - 1, b);
    MulMonotone(b, BASE - 1, BASE - 1);
  }

  lemma {:induction false} MulStep(pre: seq<limb>, o: limb, k: limb, b: limb, w: nat, l: nat)
    requires Val(pre + [k]) == w * b + l
    ensures (o * b + k) / BASE < BASE
    ensures Val(pre + [(o * b + k) % BASE] + [(o * b + k) / BASE]) == (w + Pow(BASE, |pre|) * o) * b + l
  {
    hide Val, Pow;
    var p := Pow(BASE, |pre|);
    ProductFits(o, k, b);
    ValTwo(pre, o * b + k);
    ValSnoc(pre, k);
    Distribute(p, o * b, k);
    Assoc(p, o, b);
    Distribute(b, w, p * o);
  }

  lemma {:induction false} ValTake(s: seq<limb>, i: nat)
    requires i < |s|
    ensures Val(s[..i + 1]) == Val(s[..i]) + Pow(BASE, i) * s[i]
  {
    ValSnoc(s[..i], s[i]);
    assert s[..i + 1] == s[..i] + [s[i]];
  }

  method MulSmall(a: array<limb>, n: nat, b: limb, l: limb) returns (h: limb)
    requires n <= a.Length
    modifies a
    ensures Val(a[..n] + [h]) == old(Val(a[..n])) * b + l
    ensures a[n..] == old(a[n..])
  {
    ValStart(l);
    hide Val, Pow;
    h := l;
    ghost var was := a[..];
    var i := 0;
    while i < n
      invariant 0 <= i <= n && |a[..]| == |was|
      invariant Val(a[..i] + [h]) == Val(was[..i]) * b + l
      invariant a[i..] == was[i..]
    {
      ghost var pre := a[..i];
      var t := a[i] * b + h;
      MulStep(pre, a[i], h, b, Val(was[..i]), l);
      ValTake(was, i);
      assert a[i] == a[i..][0] == was[i];
      assert was[i + 1..] == was[i..][1..];
      a[i] := t % BASE;
      h := t / BASE;
      assert a[..i + 1] == pre + [t % BASE];
      assert a[i + 1..] == was[i + 1..];
      i := i + 1;
    }
  }

  // ----- mp_div1 -----

  lemma {:induction false} DigitFits(o: limb, b: nat, r: nat)
    requires r < b
    ensures (r * BASE + o) / b < BASE
  {
    var t := r * BASE + o;
    Euclid(t, b);
    MulMonotone(r, b - 1, BASE);
    if t / b >= BASE {
      MulMonotone(BASE, t / b, b);
    }
  }

  /** One limb of long division: the suffix with the incoming remainder on top
      equals quotient times divisor plus remainder. */
  lemma {:induction false} DivStep(o: limb, v: nat, w: nat, b: nat, r: nat)
    requires v == w * b + r && r < b
    ensures var t := r * BASE + o;
            t / b < BASE && o + BASE * v == (t / b + BASE * w) * b + t % b
  {
    var t := r * BASE + o;
    DigitFits(o, b, r);
    Euclid(t, b);
    Distribute(BASE, w * b, r);
    Assoc(BASE, w, b);
    Distribute(b, t / b, BASE * w);
  }

  method DivSmall(a: array<limb>, n: nat, b: limb, r0: limb) returns (r: limb)
    requires n <= a.Length && r0 < b
    modifies a
    ensures old(Val(a[..n] + [r0])) == Val(a[..n]) * b + r && r < b
    ensures a[n..] == old(a[n..])
  {
    ValStart(r0);
    hide Val, Pow;
    r := r0;
    ghost var was := a[..];
    assert was[n..n] == a[n..n] == [];
    var i := n;
    while i > 0
      invariant 0 <= i <= n && |a[..]| == |was| && r < b
      invariant Val(was[i..n] + [r0]) == Val(a[i..n]) * b + r
      invariant a[..i] == was[..i] && a[n..] == was[n..]
    {
      i := i - 1;
      ghost var tail := a[i + 1..n];
      assert a[i] == a[..i + 1][i] == was[i];
      var t := r * BASE + a[i];
      DivStep(a[i], Val(was[i + 1..n] + [r0]), Val(tail), b, r);
      ValFirst(was[i..n] + [r0]);
      assert (was[i..n] + [r0])[1..] == was[i + 1..n] + [r0];
      assert a[..i] == a[..i + 1][..i];
      a[i] := t / b;
      r := t % b;
      assert a[i..n] == [t / b] + tail;
      ValFirst(a[i..n]);
      assert a[i..n][1..] == tail;
    }
    assert was[0..n] == was[..n] && a[0..n] == a[..n];
  }

  // ----- mp_shr and mp_shl -----

  /** 2^32 splits as 2^k * 2^(32-k). */
  lemma {:induction false} Split(k: nat)
    requires k <= 32
    ensures Pow(2, 32 - k) * Pow(2, k) == BASE
  {
    BaseIsPow();
    hide Pow;
    PowAdd(2, 32 - k, k);
  }

  lemma {:induction false} BaseIsPow()
    ensures Pow(2, 32) == BASE
  {
    FastPowIsPow(2, 32);
    hide Pow;
  }

  lemma {:induction false} HalfFits(o: limb, p: nat, c: nat)
    requires p > 0 && c * p == BASE
    ensures o / p < c
  {
    Euclid(o, p);
    if o / p >= c {
      MulMonotone(c, o / p, p);
    }
  }

  /** p = 2^s and c = 2^(32-s), as far as the arithmetic needs it. */
  predicate Halves(p: nat, c: nat) { p > 0 && c > 0 && c * p == BASE }

  /** w * b + l */
  ghost function MulAdd(w: nat, b: nat, l: nat): nat { w * b + l }

  /** The field below a power of two. */
  function Field(x: limb, p: nat): limb
    requires p > 0
  {
    x % p
  }

  /** (o >> s) | (l << (32 - s)), with p = 2^s and c = 2^(32-s). */
  function ShrLimb(o: limb, l: limb, p: nat, c: nat): limb
    requires Halves(p, c)
  {
    ShrParts(o, l, p, c);
    Joined((l * c) % BASE, o / p, c)
  }

  lemma {:induction false} ShrStep(o: limb, l: limb, p: nat, c: nat)
    requires Halves(p, c)
    ensures ShrLimb(o, l, p, c) == ((l % p) * BASE + o) / p
    ensures ((l % p) * BASE + o) % p == o % p
  {
    ShrParts(o, l, p, c);
  }

  lemma {:induction false} ShrAdvance(o: limb, v: seq<limb>, w: seq<limb>, l: limb, p: nat, c: nat)
    requires Halves(p, c) && Val(v) == MulAdd(Val(w), p, Field(l, p))
    ensures Val([o] + v) == MulAdd(Val([ShrLimb(o, l, p, c)] + w), p, Field(o, p))
  {
    hide ShrLimb;
    ShrStep(o, l, p, c);
    DivStep(o, Val(v), Val(w), p, l % p);
    ValFirst([o] + v);
    ValFirst([ShrLimb(o, l, p, c)] + w);
    assert ([o] + v)[1..] == v && ([ShrLimb(o, l, p, c)] + w)[1..] == w;
    hide Val;
  }

  lemma {:induction false} ShrParts(o: limb, l: nat, p: nat, c: nat)
    requires Halves(p, c)
    ensures (l * c) % BASE == (l % p) * c
    ensures ((l * c) % BASE) % c == 0 && o / p < c
    ensures ((l % p) * BASE + o) / p == (l % p) * c + o / p
    ensures ((l % p) * BASE + o) % p == o % p
    ensures (l % p) * c + o / p < BASE
  {
    ShrHigh(l, p, c);
    ShrLow(o, l % p, p, c);
    HalfFits(o, p, c);
  }

  lemma {:induction false} ShrHigh(l: nat, p: nat, c: nat)
    requires Halves(p, c)
    ensures (l * c) % BASE == (l % p) * c
    ensures ((l % p) * c) % c == 0
  {
    DivCancel(l, p, c);
    DivModUnique((l % p) * c, c, l % p, 0);
  }

  lemma {:induction false} ShrLow(o: limb, h: nat, p: nat, c: nat)
    requires Halves(p, c) && h < p
    ensures (h * BASE + o) / p == h * c + o / p && (h * BASE + o) % p == o % p
    ensures h * c + o / p < BASE
  {
    Assoc(h, c, p);
    Congruent(h, c * p, BASE);
    Euclid(o, p);
    Distribute(p, h * c, o / p);
    DivModUnique(h * BASE + o, p, h * c + o / p, o % p);
    HalfFits(o, p, c);
    MulMonotone(h + 1, p, c);
    Distribute(c, h, 1);
  }

  lemma {:induction false} SmallPower(s: nat)
    requires s < 32
    ensures Pow(2, s) < BASE
  {
    BaseIsPow();
    PowStrict(2, s, 32);
  }

  /** Shift right by 1..31 bits; `high` supplies the bits that enter on top. */
  method ShiftRight(a: array<limb>, n: nat, s: nat, high: limb) returns (r: limb)
    requires n <= a.Length && 1 <= s < LIMB_BITS
    modifies a
    ensures n > 0 ==> old(Val(a[..n] + [high % Pow(2, s)])) == Val(a[..n]) * Pow(2, s) + r
    ensures r < Pow(2, s)
    ensures a[n..] == old(a[n..])
  {
    var p, c := Pow(2, s), Pow(2, 32 - s);
    Split(s);
    SmallPower(s);
    var l: limb := high;
    ghost var was := a[..];
    ghost var top: limb := Field(high, p);
    ValStart(top);
    hide Val, Pow, ShrLimb, Halves, MulAdd, Field;
    assert was[n..n] == a[n..n] == [];
    MulAddZero(p, top);
    var i := n;
    while i > 0
      invariant 0 <= i <= n && |a[..]| == |was|
      invariant Val(was[i..n] + [top]) == MulAdd(Val(a[i..n]), p, Field(l, p))
      invariant a[..i] == was[..i] && a[n..] == was[n..]
    {
      i := i - 1;
      ghost var tail := a[i + 1..n];
      var o: limb := a[i];
      assert o == a[..i + 1][i] == was[i];
      ShrAdvance(o, was[i + 1..n] + [top], tail, l, p, c);
      assert was[i..n] + [top] == [o] + (was[i + 1..n] + [top]);
      assert a[..i] == a[..i + 1][..i];
      var x: limb := ShrLimb(o, l, p, c);
      a[i] := x;
      l := o;
      assert a[i..n] == [x] + tail;
    }
    r := Field(l, p);
    assert was[0..n] == was[..n] && a[0..n] == a[..n];
    MulAddIs(Val(a[..n]), p, l);
    FieldIs(high, p);
  }

  lemma {:induction false} MulAddZero(p: nat, l: nat)
    ensures MulAdd(0, p, l) == l
  {}

  lemma {:induction false} FieldIs(l: limb, p: nat)
    requires p > 0
    ensures Field(l, p) == l % p
  {}

  lemma {:induction false} MulAddIs(w: nat, p: nat, l: limb)
    requires p > 0
    ensures MulAdd(w, p, Field(l, p)) == w * p + Field(l, p) && Field(l, p) < p
  {}

  /** (o << s) | l, with p = 2^s and c = 2^(32-s). */
  function ShlLimb(o: limb, l: nat, p: nat, c: nat): limb
    requires Halves(p, c) && l < p
  {
    ShlParts(o, l, p, c);
    Joined((o * p) % BASE, l, p)
  }

  lemma {:induction false} ShlStep(o: limb, l: nat, p: nat, c: nat)
    requires Halves(p, c) && l < p
    ensures ShlLimb(o, l, p, c) == (o * p + l) % BASE
    ensures o / c == (o * p + l) / BASE && o / c < p
  {
    ShlParts(o, l, p, c);
    HalfFits(o, c, p);
  }

  lemma {:induction false} ShlParts(o: limb, l: nat, p: nat, c: nat)
    requires Halves(p, c) && l < p
    ensures (o * p) % BASE == (o % c) * p
    ensures ((o * p) % BASE) % p == 0
    ensures (o * p + l) / BASE == o / c && (o * p + l) % BASE == (o % c) * p + l
  {
    var q, f := o / c, o % c;
    DivCancel(o, c, p);
    DivModUnique(f * p, p, f, 0);
    Euclid(o, c);
    Congruent(p, o, q * c + f);
    Distribute(p, q * c, f);
    Assoc(q, c, p);
    Congruent(q, c * p, BASE);
    MulMonotone(f, c - 1, p);
    Distribute(p, c, -1);
    DivModUnique(o * p + l, BASE, q, f * p + l);
  }

  /** The bits that leave on top. */
  function Carry(o: limb, c: nat): limb
    requires c > 0
  {
    CarryFits(o, c);
    o / c
  }

  lemma {:induction false} CarryFits(o: limb, c: nat)
    requires c > 0
    ensures o / c <= o
  {
    Euclid(o, c);
    MulAtLeast(c, o / c);
  }

  lemma {:induction false} ShlAdvance(was: seq<limb>, i: nat, pre: seq<limb>, h: limb, p: limb, c: nat, low: nat)
    requires i < |was| && |pre| == i && Halves(p, c) && h < p
    requires Val(pre + [h]) == MulAdd(Val(was[..i]), p, low)
    ensures Carry(was[i], c) < p
    ensures Val(pre + [ShlLimb(was[i], h, p, c)] + [Carry(was[i], c)]) == MulAdd(Val(was[..i + 1]), p, low)
  {
    hide Val, Pow, ShlLimb;
    ShlStep(was[i], h, p, c);
    MulStep(pre, was[i], h, p, Val(was[..i]), low);
    ValTake(was, i);
  }

  /** Shift left by 1..31 bits; `low` supplies the bits that enter below. */
  method ShiftLeft(a: array<limb>, n: nat, s: nat, low: limb) returns (h: limb)
    requires n <= a.Length && 1 <= s < LIMB_BITS && low < Pow(2, s)
    modifies a
    ensures Val(a[..n] + [h]) == old(Val(a[..n])) * Pow(2, s) + low
    ensures h < Pow(2, s)
    ensures a[n..] == old(a[n..])
  {
    ValStart(low);
    SmallPower(s);
    var p, c := Pow(2, s), Pow(2, 32 - s);
    Split(s);
    MulAddZero(p, low);
    hide Val, Pow, ShlLimb, Halves, MulAdd, Carry;
    h := low;
    ghost var was := a[..];
    var i := 0;
    while i < n
      invariant 0 <= i <= n && |a[..]| == |was| && h < p
      invariant Val(a[..i] + [h]) == MulAdd(Val(was[..i]), p, low)
      invariant a[i..] == was[i..]
    {
      ghost var pre := a[..i];
      var o: limb := a[i];
      assert o == a[i..][0] == was[i];
      ShlAdvance(was, i, pre, h, p, c, low);
      assert was[i + 1..] == was[i..][1..];
      a[i] := ShlLimb(o, h, p, c);
      h := Carry(o, c);
      assert a[..i + 1] == pre + [a[i]];
      assert a[i + 1..] == was[i + 1..];
      i := i + 1;
    }
    assert MulAdd(Val(was[..n]), p, low) == Val(was[..n]) * p + low by { Unfolded(Val(was[..n]), p, low); }
  }

  lemma {:induction false} Unfolded(w: nat, p: nat, l: nat)
    ensures MulAdd(w, p, l) == w * p + l
  {}
}
