/** Values that several parts share. */
module Basics {
  datatype Option<+T> = None | Some(value: T)

  type byte = x: nat | x < 256

  type Bytes = seq<byte>

  /** Bytewise lexicographic order, strict. */
  predicate Before(a: Bytes, b: Bytes) {
    b != [] && (a == [] || a[0] < b[0] || (a[0] == b[0] && Before(a[1..], b[1..])))
  }

  lemma {:induction false} BeforeTotal(a: Bytes, b: Bytes)
    ensures Before(a, b) || Before(b, a) || a == b
    ensures !(Before(a, b) && Before(b, a)) && !Before(a, a)
  {
    if a != [] {
      BeforeTotal(a[1..], a[1..]);
      if b != [] && a[0] == b[0] {
        BeforeTotal(a[1..], b[1..]);
        assert a == [a[0]] + a[1..] && b == [b[0]] + b[1..];
      }
    }
  }

  lemma {:induction false} HeadsDiffer(a: Bytes, b: Bytes)
    requires a != [] && b != [] && a[0] != b[0]
    ensures forall k :: 0 < k <= |a| && k <= |b| ==> a[..k] != b[..k]
  {
    forall k | 0 < k <= |a| && k <= |b| ensures a[..k] != b[..k] {
      assert a[..k][0] != b[..k][0];
    }
  }

  /** The two agree up to k, where a ends or has the smaller byte. */
  ghost predicate DecidedAt(a: Bytes, b: Bytes, k: nat) {
    k <= |a| && k < |b| && a[..k] == b[..k] && (k == |a| || a[k] < b[k])
  }

  /** a comes first if it is a proper prefix of b, or has the smaller byte where they first
      differ. */
  lemma {:induction false} BeforeExact(a: Bytes, b: Bytes)
    ensures Before(a, b) <==> exists k: nat :: DecidedAt(a, b, k)
    decreases |a|
  {
    if a != [] && b != [] && a[0] == b[0] {
      BeforeExact(a[1..], b[1..]);
      if k: nat :| DecidedAt(a[1..], b[1..], k) {
        assert a[..k + 1] == [a[0]] + a[1..][..k] && b[..k + 1] == [b[0]] + b[1..][..k];
        assert DecidedAt(a, b, k + 1);
      }
      if k: nat :| DecidedAt(a, b, k) {
        assert k > 0;
        assert a[1..][..k - 1] == a[..k][1..] && b[1..][..k - 1] == b[..k][1..];
        assert DecidedAt(a[1..], b[1..], k - 1);
      }
    } else {
      if a != [] && b != [] {
        HeadsDiffer(a, b);
      }
      assert a[..0] == b[..0];
      assert b != [] && (a == [] || a[0] < b[0]) ==> DecidedAt(a, b, 0);
    }
  }

  lemma {:induction false} BeforeTrans(a: Bytes, b: Bytes, c: Bytes)
    requires Before(a, b) && Before(b, c)
    ensures Before(a, c)
  {
    if a != [] && a[0] == b[0] && b[0] == c[0] {
      BeforeTrans(a[1..], b[1..], c[1..]);
    }
  }

  // ----- 32-bit integers -----

  const INT32_MAX: nat := 0x7fff_ffff
  const INT32_MIN: int := -0x8000_0000

  predicate InInt32(x: int) { INT32_MIN <= x <= INT32_MAX }

  /** What is left of x in a 32-bit int, two's complement. */
  function ToInt32(x: int): (r: int)
    ensures InInt32(r) && (r == x <==> InInt32(x))
  {
    (x + 0x8000_0000) % 0x1_0000_0000 - 0x8000_0000
  }

  /** It differs from x by a multiple of 2^32. */
  lemma {:induction false} Wraps(x: int)
    ensures exists k: int :: x == ToInt32(x) + 0x1_0000_0000 * k
  {
    var k := (x + 0x8000_0000) / 0x1_0000_0000;
    assert x == ToInt32(x) + 0x1_0000_0000 * k;
  }
}
