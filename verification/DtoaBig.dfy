/** The growable multi-limb number (mpb_t): a length and a limb buffer, both
    updated in place. */
module DtoaBig {
  import opened DtoaPow
  import opened DtoaLimbs
  import opened DtoaBits
  import opened DtoaDivide

  /** Leading zero bits of a 32-bit word. */
  function Clz32(x: limb): nat
    decreases BASE - x
  {
    if x == 0 then 32 else if x >= 0x8000_0000 then 0 else 1 + Clz32(2 * x)
  }

  lemma {:induction false} ClzBounds(x: limb)
    requires x > 0
    ensures Clz32(x) < 32
    ensures 0x8000_0000 <= x * Pow(2, Clz32(x)) < BASE
    ensures Pow(2, 31 - Clz32(x)) <= x < Pow(2, 32 - Clz32(x))
    decreases BASE - x
  {
    if x < 0x8000_0000 {
      ClzBounds(2 * x);
      Assoc(x, 2, Pow(2, Clz32(2 * x)));
      EvenPower(32 - Clz32(2 * x));
      EvenPower(31 - Clz32(2 * x));
    } else {
      BaseIsPow();
      EvenPower(32);
    }
  }

  ghost predicate NormalLimbs(s: seq<limb>) {
    |s| == 1 || (|s| > 1 && s[|s| - 1] != 0)
  }

  lemma {:induction false} NormalIff(s: seq<limb>)
    requires s != []
    ensures NormalLimbs(s) <==> (|s| == 1 || Val(s) >= Pow(BASE, |s| - 1))
  {
    hide Val, Pow;
    var n := |s| - 1;
    assert s == s[..n] + [s[n]];
    ValSnoc(s[..n], s[n]);
    ValBound(s[..n]);
    if s[n] != 0 {
      MulAtLeast(s[n], Pow(BASE, n));
    }
  }

  /** Zero limbs below multiply by a power of the base. */
  lemma {:induction false} Raised(z: seq<limb>, s: seq<limb>)
    requires (forall t :: 0 <= t < |z| ==> z[t] == 0) && s != []
    ensures Val(z + s) == Val(s) * Pow(BASE, |z|)
    ensures NormalLimbs(s) && Val(s) > 0 ==> NormalLimbs(z + s)
  {
    ValZero(z);
    ValConcat(z, s);
    ValStart(s[0]);
    hide Val, Pow;
    if |s| == 1 {
      assert s == [s[0]];
    }
  }

  class Mpb {
    var len: nat
    const tab: array<limb>

    ghost predicate Valid()
      reads this
    {
      1 <= len <= tab.Length
    }

    ghost function Limbs(): (s: seq<limb>)
      reads this, tab
      requires len <= tab.Length
    {
      tab[..len]
    }

    ghost function Value(): nat
      reads this, tab
      requires len <= tab.Length
    {
      Val(tab[..len])
    }

    /** No leading zero limb. */
    ghost predicate Normal()
      reads this, tab
    {
      Valid() && NormalLimbs(Limbs())
    }

    constructor (capacity: nat)
      requires capacity >= 1
      ensures Normal() && Value() == 0 && len == 1 && fresh(tab) && tab.Length == capacity
    {
      tab := new limb[capacity](_ => 0);
      len := 1;
      new;
      ValStart(0);
      assert tab[..1] == [0];
    }

    method Renorm()
      requires Valid()
      modifies this
      ensures Normal() && Value() == old(Value()) && len <= old(len)
      ensures old(len) > 1 && old(tab[len - 1]) != 0 ==> len == old(len)
    {
      hide Val;
      while len > 1 && tab[len - 1] == 0
        invariant Valid() && Value() == old(Value()) && len <= old(len)
        invariant old(len) > 1 && old(tab[len - 1]) != 0 ==> len == old(len)
      {
        ghost var s := tab[..len];
        assert s == s[..len - 1] + [0];
        ValSnoc(s[..len - 1], 0);
        assert s[..len - 1] == tab[..len - 1];
        len := len - 1;
      }
    }

    method GetBit(k: nat) returns (b: nat)
      requires Valid()
      ensures b == (Value() / Pow(2, k)) % 2
    {
      hide Val, Pow;
      BitAt(tab[..len], k);
      if k / LIMB_BITS >= len {
        b := 0;
      } else {
        assert tab[..len][k / 32] == tab[k / 32];
        b := (tab[k / LIMB_BITS] / Pow(2, k % LIMB_BITS)) % 2;
      }
    }

    /** The OR of all bits below position k, as a truth value. */
    method AnyLowBit(k: nat) returns (any: bool)
      requires Valid()
      ensures any <==> Value() % Pow(2, k) != 0
    {
      hide Val, Pow;
      ghost var s := tab[..len];
      LowBits(s, k);
      var l := k / LIMB_BITS;
      any := false;
      var i := 0;
      var m := if l < len then l else len;
      while i < m
        invariant 0 <= i <= m
        invariant any <==> exists t :: 0 <= t < i && s[t] != 0
      {
        if tab[i] != 0 {
          any := true;
          assert s[i] != 0;
        }
        i := i + 1;
      }
      ValZero(s[..m]);
      if any {
        ghost var t :| 0 <= t < m && s[t] != 0;
        assert s[..m][t] == s[t];
      }
      if l < len {
        if tab[l] % Pow(2, k % LIMB_BITS) != 0 {
          any := true;
        }
        assert s[l] == tab[l];
      } else {
        assert s[..m] == s;
      }
    }

    /** Moves the limbs up by l places and clears the low ones. */
    method RaiseLimbs(l: nat)
      requires Valid() && len + l <= tab.Length
      modifies this, tab
      ensures Valid() && len == old(len) + l && Value() == old(Value()) * Pow(BASE, l)
      ensures old(Normal() && Value() > 0) ==> Normal()
    {
      hide Val, Pow;
      ghost var s := tab[..len];
      var i := len;
      while i > 0
        invariant 0 <= i <= len == old(len)
        invariant tab[..i] == s[..i]
        invariant forall t :: i <= t < len ==> tab[t + l] == s[t]
      {
        i := i - 1;
        assert tab[i] == tab[..i + 1][i] == s[i];
        assert tab[..i] == tab[..i + 1][..i] == s[..i];
        tab[i + l] := tab[i];
        assert tab[..i] == s[..i];
      }
      i := 0;
      while i < l
        invariant 0 <= i <= l && len == old(len)
        invariant forall t :: 0 <= t < i ==> tab[t] == 0
        invariant forall t :: 0 <= t < len ==> tab[t + l] == s[t]
      {
        tab[i] := 0;
        i := i + 1;
      }
      len := len + l;
      ghost var z := tab[..l];
      assert tab[..len] == z + s;
      Raised(z, s);
    }

    /** Drops the l lowest limbs. */
    method DropLimbs(l: nat)
      requires Valid() && l < len
      modifies this, tab
      ensures Valid() && len == old(len) - l && Limbs() == old(Limbs())[l..]
      ensures Value() == old(Value()) / Pow(BASE, l)
      ensures old(Normal()) ==> Normal()
    {
      hide Val, Pow;
      ghost var s := tab[..len];
      len := len - l;
      var i := 0;
      while i < len
        invariant 0 <= i <= len == old(len) - l
        invariant forall t :: 0 <= t < i ==> tab[t] == s[t + l]
        invariant forall t :: i <= t < |s| ==> tab[t] == s[t]
      {
        tab[i] := tab[i + l];
        i := i + 1;
      }
      assert tab[..len] == s[l..];
      ValSplit(s, l);
    }

    /** Multiplies by 2^k (mpb_shr_round with a negative shift). */
    method ShiftUp(k: nat)
      requires Valid() && len + k / 32 + 1 <= tab.Length
      modifies this, tab
      ensures Valid() && Value() == old(Value()) * Pow(2, k) && len <= old(len) + k / 32 + 1
      ensures old(Normal() && Value() > 0) ==> Normal()
    {
      hide Val, Pow;
      ghost var v := Value();
      ghost var n := Normal() && Value() > 0;
      BitPower(k);
      PowNext(2, 0);
      PowNext(BASE, 0);
      var l, s := k / LIMB_BITS, k % LIMB_BITS;
      if s != 0 {
        var h := ShiftLeft(tab, len, s, 0);
        tab[len] := h;
        assert tab[..len + 1] == tab[..len] + [h];
        len := len + 1;
        Renorm();
        assert Value() == v * Pow(2, s);
      }
      assert Value() == v * Pow(2, s);
      assert v > 0 ==> Value() > 0 by { if v > 0 { MulAtLeast(v, Pow(2, s)); } }
      if l > 0 {
        RaiseLimbs(l);
      }
      Assoc(v, Pow(2, s), Pow(BASE, l));
    }

    /** The increment that rounding Value() / 2^shift calls for. */
    method Increment(shift: nat, mode: RoundMode) returns (add: bool)
      requires Valid() && shift > 0
      ensures add == RoundsUp(Value(), Pow(2, shift), mode)
    {
      RoundBits(Value(), shift);
      if mode == TowardZero {
        add := false;
        return;
      }
      hide Val, Pow, RoundsUp;
      var bit1 := GetBit(shift - 1);
      if bit1 == 0 {
        add := false;
      } else if mode == ToNearestAway {
        add := true;
      } else {
        var bit2 := AnyLowBit(shift - 1);
        var even := GetBit(shift);
        add := bit2 || even == 1;
      }
    }

    /** Value() / 2^shift, rounded; a negative shift multiplies. */
    method ShrRound(shift: int, mode: RoundMode)
      requires Valid() && len + (if shift < 0 then (-shift) / 32 else 0) + 1 <= tab.Length
      modifies this, tab
      ensures Valid() && Value() == RoundShift(old(Value()), shift, mode)
      ensures len <= old(len) + (if shift < 0 then (-shift) / 32 else 0) + 1
      ensures old(Normal()) && (shift >= 0 || old(Value()) > 0) ==> Normal()
    {
      hide Val, Pow, RoundsUp;
      if shift == 0 {
        PowNext(2, 0);
      } else if shift < 0 {
        ShiftUp(-shift);
      } else {
        var add := Increment(shift, mode);
        ShrAdd(shift, add);
      }
    }

    method ShrAdd(shift: nat, add: bool)
      requires Valid() && len + 1 <= tab.Length && shift > 0
      modifies this, tab
      ensures Valid() && Value() == old(Value()) / Pow(2, shift) + (if add then 1 else 0)
      ensures len <= old(len) + 1
      ensures old(Normal()) ==> Normal()
    {
      hide Val, Pow;
      var l, s := shift / LIMB_BITS, shift % LIMB_BITS;
      ghost var v := Value();
      BitPower(shift);
      if l >= len {
        BelowAll(tab[..len], shift);
        DivModUnique(v, Pow(2, shift), 0, v);
        len := 1;
        tab[0] := if add then 1 else 0;
        ValStart(tab[0]);
        assert tab[..1] == [tab[0]];
      } else {
        PowNext(BASE, 0);
        PowNext(2, 0);
        if l > 0 {
          DropLimbs(l);
        }
        ghost var w := Value();
        assert w == v / Pow(BASE, l);
        DivDiv(v, Pow(BASE, l), Pow(2, s));
        if s != 0 {
          ShrBits(s);
        }
        assert Value() == w / Pow(2, s);
        if add {
          AddOne();
        }
      }
    }

    method ShrBits(s: nat)
      requires Valid() && 1 <= s < LIMB_BITS
      modifies this, tab
      ensures Normal() && Value() == old(Value()) / Pow(2, s) && len <= old(len)
    {
      hide Val, Pow;
      ghost var v := Value();
      ghost var was := tab[..len];
      var r := ShiftRight(tab, len, s, 0);
      DivModUnique(0, Pow(2, s), 0, 0);
      ValSnoc(was, 0);
      DivModUnique(v, Pow(2, s), Value(), r);
      Renorm();
    }

    method AddOne()
      requires Valid() && len + 1 <= tab.Length
      modifies this, tab
      ensures Valid() && Value() == old(Value()) + 1 && len <= old(len) + 1
      ensures old(Normal()) ==> Normal()
    {
      hide Val, Pow;
      NormalIff(tab[..len]);
      var a := AddSmall(tab, 1, len);
      ValSnoc(tab[..len], a);
      if a != 0 {
        tab[len] := a;
        assert tab[..len + 1] == tab[..len] + [a];
        len := len + 1;
      }
      NormalIff(tab[..len]);
    }

    // ----- one limb at a time -----

    method TimesLimb(b: limb)
      requires Normal() && len < tab.Length && b > 0
      modifies this, tab
      ensures Normal() && Value() == old(Value()) * b && len <= old(len) + 1
    {
      hide Val, Pow;
      ghost var v := Value();
      NormalIff(tab[..len]);
      var h := MulSmall(tab, len, b, 0);
      MulAtLeast(b, v);
      ValSnoc(tab[..len], h);
      if h != 0 {
        tab[len] := h;
        assert tab[..len + 1] == tab[..len] + [h];
        len := len + 1;
      }
      NormalIff(tab[..len]);
    }

    /** Divides by d0, given normalized as b = d0 << shift with its reciprocal. */
    method DivideBy(b: limb, inv: limb, shift: nat, ghost d0: nat) returns (r: limb)
      requires Valid() && shift < LIMB_BITS
      requires b >= HALF && b == d0 * Pow(2, shift) && inv == ReciprocalOf(b)
      modifies this, tab
      ensures d0 > 0 && Normal() && len <= old(len)
      ensures Value() == old(Value()) / d0 && r == old(Value()) % d0
    {
      hide Val, Pow, ReciprocalOf;
      ghost var was := tab[..len];
      ValSnoc(was, 0);
      assert d0 > 0;
      r := DivNorm(tab, len, b, 0, inv, shift, d0);
      Renorm();
    }

    /** tab[0] |= 1 */
    method SetLowBit()
      requires Normal()
      modifies tab
      ensures Normal() && Value() == if old(Value()) % 2 == 0 then old(Value()) + 1 else old(Value())
    {
      ghost var s := tab[..len];
      ValFirst(s);
      hide Val;
      var x: limb := tab[0];
      if x % 2 == 0 {
        tab[0] := x + 1;
        ValFirst(tab[..len]);
        assert tab[..len][1..] == s[1..];
        assert len > 1 ==> tab[len - 1] == s[len - 1];
      }
    }

    // ----- 64-bit conversions and the binary logarithm -----

    method SetU64(m: nat)
      requires m < 0x1_0000_0000_0000_0000 && tab.Length >= 2
      modifies this, tab
      ensures Normal() && Value() == m && len <= 2
    {
      tab[0] := m % BASE;
      tab[1] := m / BASE;
      len := if tab[1] == 0 then 1 else 2;
      ValStart(tab[0]);
      ValSnoc([tab[0]], tab[1]);
      PowNext(BASE, 0);
      assert tab[..1] == [tab[0]] && tab[..2] == [tab[0]] + [tab[1]];
    }

    /** The low 64 bits. */
    method GetU64() returns (m: nat)
      requires Valid()
      ensures m == Word64(Value())
    {
      LowWords(tab[..len]);
      if len == 1 {
        m := tab[0];
      } else {
        m := Joined(tab[1] * BASE, tab[0], BASE);
      }
    }

    /** The position of the highest set bit, or -1. */
    method FloorLog2() returns (k: int)
      requires Normal()
      ensures Value() == 0 ==> k == -1
      ensures Value() > 0 ==> k >= 0 && Pow(2, k) <= Value() < Pow(2, k + 1)
    {
      var v: limb := tab[len - 1];
      ghost var s := tab[..len];
      if v == 0 {
        ValStart(s[0]);
        assert s == [s[0]];
        k := -1;
      } else {
        k := len * LIMB_BITS - 1 - Clz32(v);
        TopBit(s);
      }
    }
  }

  lemma {:induction false} LowWords(s: seq<limb>)
    requires s != []
    ensures |s| == 1 ==> Word64(Val(s)) == s[0]
    ensures |s| > 1 ==> Word64(Val(s)) == s[1] * BASE + s[0]
  {
    if |s| == 1 {
      ValStart(s[0]);
      assert s == [s[0]];
    } else {
      ValFirst(s);
      ValFirst(s[1..]);
      hide Val;
      var r := Val(s[1..][1..]);
      DivModUnique(Val(s), 0x1_0000_0000_0000_0000, r, s[1] * BASE + s[0]);
    }
  }

  lemma {:induction false} TopBit(s: seq<limb>)
    requires s != [] && s[|s| - 1] > 0
    ensures var k := |s| * 32 - 1 - Clz32(s[|s| - 1]);
            k >= 0 && Pow(2, k) <= Val(s) < Pow(2, k + 1)
  {
    var n := |s| - 1;
    var x: nat := s[n];
    ClzBounds(x);
    hide Val, Pow;
    assert s == s[..n] + [x];
    ValSnoc(s[..n], x);
    ValBound(s[..n]);
    var p := Pow(BASE, n);
    BaseIsPow();
    PowPow(2, 32, n);
    var lo, hi := Pow(2, 31 - Clz32(x)), Pow(2, 32 - Clz32(x));
    PowAdd(2, 32 * n, 31 - Clz32(x));
    PowAdd(2, 32 * n, 32 - Clz32(x));
    MulMonotone(lo, x, p);
    MulMonotone(x + 1, hi, p);
    Distribute(p, x, 1);
    assert 32 * n + (31 - Clz32(x)) == |s| * 32 - 1 - Clz32(x);
  }
}
