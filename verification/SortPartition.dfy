/** Median-of-three pivot selection and the three-way partition with block swaps. */
module SortPartition {
  import opened SortOrder

  /** Position of the median of three, by at most three comparisons. */
  function Med3<T(!new)>(cmp: (T, T) -> int, s: seq<T>, a: nat, b: nat, c: nat): (m: nat)
    requires a < |s| && b < |s| && c < |s|
  {
    if cmp(s[a], s[b]) < 0 then
      if cmp(s[b], s[c]) < 0 then b else if cmp(s[a], s[c]) < 0 then c else a
    else
      if cmp(s[b], s[c]) > 0 then b else if cmp(s[a], s[c]) < 0 then a else c
  }

  /** It is one of the three, not above two of them and not below two of them. */
  lemma {:induction false} Med3IsMedian<T(!new)>(cmp: (T, T) -> int, s: seq<T>, a: nat, b: nat, c: nat)
    requires TotalPreorder(cmp) && a < |s| && b < |s| && c < |s|
    ensures var m := Med3(cmp, s, a, b, c);
            && (m == a || m == b || m == c)
            && ((Le(cmp, s[m], s[a]) && Le(cmp, s[m], s[b])) || (Le(cmp, s[m], s[a]) && Le(cmp, s[m], s[c]))
              || (Le(cmp, s[m], s[b]) && Le(cmp, s[m], s[c])))
            && ((Le(cmp, s[a], s[m]) && Le(cmp, s[b], s[m])) || (Le(cmp, s[a], s[m]) && Le(cmp, s[c], s[m]))
              || (Le(cmp, s[b], s[m]) && Le(cmp, s[c], s[m])))
  {
    LeFacts(cmp, s[a], s[b]);
    LeFacts(cmp, s[b], s[c]);
    LeFacts(cmp, s[a], s[c]);
    LeFacts(cmp, s[c], s[b]);
  }

  // ----- parts -----

  function Sign(x: int): int { if x < 0 then -1 else if x > 0 then 1 else 0 }

  /** All of s[lo..hi] compare with the pivot alike: 1 for smaller elements, 0 for
      equal ones, -1 for greater ones. */
  ghost predicate AllSign<T(!new)>(cmp: (T, T) -> int, v: T, s: seq<T>, lo: nat, hi: nat, sign: int)
    requires hi <= |s|
  {
    forall k :: lo <= k < hi ==> Sign(cmp(v, s[k])) == sign
  }

  /** equal | smaller | not yet seen | greater | equal */
  ghost predicate Five<T(!new)>(cmp: (T, T) -> int, v: T, s: seq<T>, p: nat, lt: nat, i: nat, h: nat, gt: nat, q: nat) {
    && p < lt <= i <= h <= gt <= q <= |s| && s[p] == v
    && AllSign(cmp, v, s, p, lt, 0) && AllSign(cmp, v, s, lt, i, 1)
    && AllSign(cmp, v, s, h, gt, -1) && AllSign(cmp, v, s, gt, q, 0)
  }

  lemma {:induction false} GrowSmaller<T(!new)>(cmp: (T, T) -> int, v: T, s: seq<T>, p: nat, lt: nat, i: nat, h: nat,
          gt: nat, q: nat)
    requires Five(cmp, v, s, p, lt, i, h, gt, q) && i < h
    ensures cmp(v, s[i]) > 0 ==> Five(cmp, v, s, p, lt, i + 1, h, gt, q)
    ensures cmp(v, s[i]) == 0 ==> Five(cmp, v, Swapped(s, lt, i), p, lt + 1, i + 1, h, gt, q)
  {}

  lemma {:induction false} GrowGreater<T(!new)>(cmp: (T, T) -> int, v: T, s: seq<T>, p: nat, lt: nat, i: nat, h: nat,
          gt: nat, q: nat)
    requires Five(cmp, v, s, p, lt, i, h, gt, q) && i < h
    ensures cmp(v, s[h - 1]) < 0 ==> Five(cmp, v, s, p, lt, i, h - 1, gt, q)
    ensures cmp(v, s[h - 1]) == 0 ==> Five(cmp, v, Swapped(s, gt - 1, h - 1), p, lt, i, h - 1, gt - 1, q)
  {}

  lemma {:induction false} ExchangePair<T(!new)>(cmp: (T, T) -> int, v: T, s: seq<T>, p: nat, lt: nat, i: nat, h: nat,
          gt: nat, q: nat, j: nat)
    requires Five(cmp, v, s, p, lt, i, h, gt, q) && i < j && j + 1 == h && cmp(v, s[i]) < 0 && cmp(v, s[j]) > 0
    ensures Five(cmp, v, Swapped(s, i, j), p, lt, i + 1, j, gt, q)
  {}

  /** Scans up past smaller and equal elements, collecting the equal ones at lt. */
  method ScanUp<T(!new)>(cmp: (T, T) -> int, a: array<T>, ghost v: T, p: nat, lt0: nat, i0: nat, j: nat, gt: nat,
          q: nat) returns (lt: nat, i: nat)
    requires q <= a.Length && Five(cmp, v, a[..], p, lt0, i0, j, gt, q)
    modifies a
    ensures Shuffled(old(a[..]), a[..], p, q) && i0 <= i
    ensures Five(cmp, v, a[..], p, lt, i, j, gt, q)
    ensures i < j ==> cmp(v, a[i]) < 0
  {
    ghost var s := a[..];
    ShuffledSame(s, p, q);
    lt, i := lt0, i0;
    hide AllSign, Shuffled, Swapped;
    while i < j && cmp(a[p], a[i]) >= 0
      invariant |a[..]| == |s| && i0 <= i && Five(cmp, v, a[..], p, lt, i, j, gt, q) && Shuffled(s, a[..], p, q)
      decreases j - i
    {
      GrowSmaller(cmp, v, a[..], p, lt, i, j, gt, q);
      if cmp(a[p], a[i]) == 0 {
        ShuffledSwap(s, a[..], p, q, lt, i);
        Swap(a, lt, i);
        lt := lt + 1;
      }
      i := i + 1;
    }
  }

  /** Scans down past greater and equal elements, collecting the equal ones at gt. */
  method ScanDown<T(!new)>(cmp: (T, T) -> int, a: array<T>, ghost v: T, p: nat, lt: nat, i: nat, j0: nat, gt0: nat,
          q: nat) returns (j: nat, gt: nat)
    requires q <= a.Length && Five(cmp, v, a[..], p, lt, i, j0, gt0, q) && (i < j0 ==> cmp(v, a[i]) < 0)
    modifies a
    ensures Shuffled(old(a[..]), a[..], p, q) && j < j0
    ensures i < j ==> Five(cmp, v, a[..], p, lt, i, j + 1, gt, q) && cmp(v, a[i]) < 0 && cmp(v, a[j]) > 0
    ensures i >= j ==> Five(cmp, v, a[..], p, lt, i, i, gt, q)
  {
    ghost var s := a[..];
    ShuffledSame(s, p, q);
    gt := gt0;
    j := j0 - 1;
    hide AllSign, Shuffled, Swapped, Five;
    FiveBounds(cmp, v, a[..], p, lt, i, j + 1, gt, q);
    while i < j && cmp(a[p], a[j]) <= 0
      invariant |a[..]| == |s| && i <= j + 1 <= j0 && Five(cmp, v, a[..], p, lt, i, j + 1, gt, q)
                && Shuffled(s, a[..], p, q)
      invariant p < lt <= i && a[p] == v && j + 1 <= gt <= q
      invariant i <= j ==> cmp(v, a[i]) < 0
      decreases j
    {
      ghost var t := a[..];
      gt := PassDown(cmp, a, v, p, lt, i, j, gt, q);
      ShuffledTrans(s, t, a[..], p, q);
      j := j - 1;
    }
    if i == j {
      GrowGreater(cmp, v, a[..], p, lt, i, j + 1, gt, q);
    }
  }

  method PassDown<T(!new)>(cmp: (T, T) -> int, a: array<T>, ghost v: T, p: nat, lt: nat, i: nat, j: nat, gt0: nat,
          q: nat) returns (gt: nat)
    requires q <= a.Length && i < j && Five(cmp, v, a[..], p, lt, i, j + 1, gt0, q)
    requires a[p] == v && cmp(v, a[j]) <= 0
    modifies a
    ensures Shuffled(old(a[..]), a[..], p, q) && a[p] == v && a[i] == old(a[i]) && j <= gt <= gt0
    ensures Five(cmp, v, a[..], p, lt, i, j, gt, q)
  {
    ghost var s := a[..];
    ShuffledSame(s, p, q);
    FiveBounds(cmp, v, s, p, lt, i, j + 1, gt0, q);
    hide AllSign, Shuffled, Swapped, Five;
    gt := gt0;
    GrowGreater(cmp, v, s, p, lt, i, j + 1, gt, q);
    if cmp(a[p], a[j]) == 0 {
      gt := gt - 1;
      ShuffledSwap(s, s, p, q, gt, j);
      KeepsBelow(s, gt, j, i);
      KeepsBelow(s, gt, j, p);
      Swap(a, gt, j);
      assert a[i] == a[..][i] && a[p] == a[..][p];
    }
  }

  lemma {:induction false} KeepsBelow<T>(s: seq<T>, x: nat, y: nat, k: nat)
    requires x < |s| && y < |s| && k < x && k < y
    ensures Swapped(s, x, y)[k] == s[k]
  {}

  /** The four-part split around the pivot a[p]. */
  method Split<T(!new)>(cmp: (T, T) -> int, a: array<T>, p: nat, q: nat) returns (ghost v: T, lt: nat, i: nat, gt: nat)
    requires TotalPreorder(cmp) && p < q <= a.Length
    modifies a
    ensures Shuffled(old(a[..]), a[..], p, q) && Five(cmp, v, a[..], p, lt, i, i, gt, q) && v == old(a[p])
  {
    ghost var s := a[..];
    ShuffledSame(s, p, q);
    v := a[p];
    LeFacts(cmp, v, v);
    lt, i, gt := p + 1, p + 1, q;
    var j := q;
    assert Five(cmp, v, a[..], p, lt, i, j, gt, q);
    hide AllSign, Five, Shuffled, Swapped, TotalPreorder;
    while true
      invariant |a[..]| == |s| && Five(cmp, v, a[..], p, lt, i, j, gt, q) && Shuffled(s, a[..], p, q)
      decreases j
    {
      ghost var t := a[..];
      lt, i := ScanUp(cmp, a, v, p, lt, i, j, gt, q);
      ShuffledTrans(s, t, a[..], p, q);
      t := a[..];
      j, gt := ScanDown(cmp, a, v, p, lt, i, j, gt, q);
      ShuffledTrans(s, t, a[..], p, q);
      if i >= j {
        return;
      }
      FiveBounds(cmp, v, a[..], p, lt, i, j + 1, gt, q);
      ExchangePair(cmp, v, a[..], p, lt, i, j + 1, gt, q, j);
      ShuffledSwap(s, a[..], p, q, i, j);
      Swap(a, i, j);
      i := i + 1;
    }
  }

  lemma {:induction false} FiveBounds<T(!new)>(cmp: (T, T) -> int, v: T, s: seq<T>, p: nat, lt: nat, i: nat, h: nat,
          gt: nat, q: nat)
    requires Five(cmp, v, s, p, lt, i, h, gt, q)
    ensures p < lt <= i <= h <= gt <= q <= |s| && s[p] == v
  {}

  // ----- block swaps -----

  /** Where the element at k comes from when the blocks of length n at x and y
      are exchanged. */
  function Source(k: nat, x: nat, y: nat, n: nat): nat
    requires x + n <= y
  {
    if x <= k < x + n then k - x + y else if y <= k < y + n then k - y + x else k
  }

  ghost predicate Exchanged<T>(s: seq<T>, t: seq<T>, x: nat, y: nat, n: nat) {
    && x + n <= y && y + n <= |s| && |t| == |s|
    && forall k :: 0 <= k < |s| ==> t[k] == s[Source(k, x, y, n)]
  }

  lemma {:induction false} ExchangeNext<T>(s: seq<T>, t: seq<T>, x: nat, y: nat, m: nat)
    requires Exchanged(s, t, x, y, m) && x + m < y && y + m < |s|
    ensures Exchanged(s, Swapped(t, x + m, y + m), x, y, m + 1)
  {}

  lemma {:induction false} ExchangeNone<T>(s: seq<T>, x: nat, y: nat)
    requires x <= y <= |s|
    ensures Exchanged(s, s, x, y, 0)
  {}

  method ExchangeStep<T>(a: array<T>, ghost s: seq<T>, x: nat, y: nat, m: nat, ghost p: nat, ghost q: nat)
    requires p <= x && x + m < y && y + m < q <= a.Length
    requires Exchanged(s, a[..], x, y, m) && Shuffled(s, a[..], p, q) && |s| == a.Length
    modifies a
    ensures Exchanged(s, a[..], x, y, m + 1) && Shuffled(s, a[..], p, q)
  {
    hide Shuffled, Exchanged, Swapped;
    ShuffledSwap(s, a[..], p, q, x + m, y + m);
    ExchangeNext(s, a[..], x, y, m);
    Swap(a, x + m, y + m);
  }

  method SwapBlock<T>(a: array<T>, x: nat, y: nat, n: nat, ghost p: nat, ghost q: nat)
    requires p <= x && x + n <= y && y + n <= q <= a.Length
    modifies a
    ensures Exchanged(old(a[..]), a[..], x, y, n) && Shuffled(old(a[..]), a[..], p, q)
  {
    ghost var s := a[..];
    ShuffledSame(s, p, q);
    ExchangeNone(s, x, y);
    hide Shuffled, Exchanged, Swapped;
    var m := 0;
    while m < n
      invariant 0 <= m <= n && |a[..]| == |s| && Shuffled(s, a[..], p, q)
      invariant Exchanged(s, a[..], x, y, m)
    {
      ExchangeStep(a, s, x, y, m, p, q);
      m := m + 1;
    }
  }

  /** Equal elements from the left end to the middle. */
  lemma {:induction false} MoveLeft<T(!new)>(cmp: (T, T) -> int, v: T, s: seq<T>, t: seq<T>, p: nat, lt: nat, i: nat,
          gt: nat, q: nat, n: nat)
    requires Five(cmp, v, s, p, lt, i, i, gt, q) && (n == lt - p <= i - lt || n == i - lt <= lt - p)
    requires Exchanged(s, t, p, i - n, n)
    ensures AllSign(cmp, v, t, p, p + (i - lt), 1) && AllSign(cmp, v, t, p + (i - lt), i, 0)
    ensures AllSign(cmp, v, t, i, gt, -1) && AllSign(cmp, v, t, gt, q, 0)
  {
    forall k | p <= k < q
      ensures Sign(cmp(v, t[k])) == if k < p + (i - lt) then 1 else if k < i then 0 else if k < gt then -1 else 0
    {
      var k0 := Source(k, p, i - n, n);
      assert t[k] == s[k0];
    }
  }

  /** Equal elements from the right end to the middle. */
  lemma {:induction false} MoveRight<T(!new)>(cmp: (T, T) -> int, v: T, s: seq<T>, t: seq<T>, p: nat, l: nat, i: nat,
          gt: nat, q: nat, n: nat)
    requires p <= l <= i <= gt <= q <= |s| && (n == q - gt <= gt - i || n == gt - i <= q - gt)
    requires AllSign(cmp, v, s, p, l, 1) && AllSign(cmp, v, s, l, i, 0)
    requires AllSign(cmp, v, s, i, gt, -1) && AllSign(cmp, v, s, gt, q, 0)
    requires Exchanged(s, t, i, q - n, n)
    ensures AllSign(cmp, v, t, p, l, 1) && AllSign(cmp, v, t, l, q - (gt - i), 0)
            && AllSign(cmp, v, t, q - (gt - i), q, -1)
  {
    forall k | p <= k < q
      ensures Sign(cmp(v, t[k])) == if k < l then 1 else if k < q - (gt - i) then 0 else -1
    {
      var k0 := Source(k, i, q - n, n);
      assert t[k] == s[k0];
    }
  }

  /** smaller | equal to the pivot | greater, the middle part not empty. */
  ghost predicate Three<T(!new)>(cmp: (T, T) -> int, v: T, s: seq<T>, p: nat, l: nat, g: nat, q: nat) {
    && p <= l < g <= q <= |s|
    && AllSign(cmp, v, s, p, l, 1) && AllSign(cmp, v, s, l, g, 0) && AllSign(cmp, v, s, g, q, -1)
  }

  method Partition<T(!new)>(cmp: (T, T) -> int, a: array<T>, p: nat, q: nat) returns (ghost v: T, l: nat, g: nat)
    requires TotalPreorder(cmp) && p + 6 < q <= a.Length
    modifies a
    ensures Shuffled(old(a[..]), a[..], p, q) && Three(cmp, v, a[..], p, l, g, q)
    ensures var k := (q - p) / 4; v == old(a[Med3(cmp, a[..], p + k, p + k + k, p + k + k + k)])
  {
    ghost var s := a[..];
    ShuffledSame(s, p, q);
    hide AllSign, Shuffled, TotalPreorder, Five;
    var m4 := (q - p) / 4;
    var m := Med3(cmp, a[..], p + m4, p + 2 * m4, p + 3 * m4);
    ShuffledSwap(s, a[..], p, q, p, m);
    Swap(a, p, m);
    ghost var t := a[..];
    var lt, i, gt;
    v, lt, i, gt := Split(cmp, a, p, q);
    ShuffledTrans(s, t, a[..], p, q);
    t := a[..];
    l, g := Gather(cmp, a, v, p, lt, i, gt, q);
    ShuffledTrans(s, t, a[..], p, q);
  }

  /** Brings the equal elements from both ends to the middle. */
  method Gather<T(!new)>(cmp: (T, T) -> int, a: array<T>, ghost v: T, p: nat, lt: nat, i: nat, gt: nat, q: nat)
    returns (l: nat, g: nat)
    requires q <= a.Length && Five(cmp, v, a[..], p, lt, i, i, gt, q)
    modifies a
    ensures Shuffled(old(a[..]), a[..], p, q) && Three(cmp, v, a[..], p, l, g, q)
  {
    ghost var s := a[..];
    FiveBounds(cmp, v, s, p, lt, i, i, gt, q);
    hide AllSign, Shuffled, Five;
    l := GatherLeft(cmp, a, v, p, lt, i, gt, q);
    ghost var t := a[..];
    g := GatherRight(cmp, a, v, p, l, i, gt, q);
    ShuffledTrans(s, t, a[..], p, q);
  }

  method GatherLeft<T(!new)>(cmp: (T, T) -> int, a: array<T>, ghost v: T, p: nat, lt: nat, i: nat, gt: nat, q: nat)
    returns (l: nat)
    requires q <= a.Length && Five(cmp, v, a[..], p, lt, i, i, gt, q)
    modifies a
    ensures Shuffled(old(a[..]), a[..], p, q) && l == p + (i - lt) <= i
    ensures AllSign(cmp, v, a[..], p, l, 1) && AllSign(cmp, v, a[..], l, i, 0)
    ensures AllSign(cmp, v, a[..], i, gt, -1) && AllSign(cmp, v, a[..], gt, q, 0)
  {
    ghost var s := a[..];
    FiveBounds(cmp, v, s, p, lt, i, i, gt, q);
    hide AllSign, Shuffled, Exchanged, Five;
    var span := if lt - p > i - lt then i - lt else lt - p;
    SwapBlock(a, p, i - span, span, p, q);
    MoveLeft(cmp, v, s, a[..], p, lt, i, gt, q, span);
    l := p + (i - lt);
  }

  method GatherRight<T(!new)>(cmp: (T, T) -> int, a: array<T>, ghost v: T, p: nat, l: nat, i: nat, gt: nat, q: nat)
    returns (g: nat)
    requires p <= l <= i <= gt <= q <= a.Length
    requires AllSign(cmp, v, a[..], p, l, 1) && AllSign(cmp, v, a[..], l, i, 0)
    requires AllSign(cmp, v, a[..], i, gt, -1) && AllSign(cmp, v, a[..], gt, q, 0)
    modifies a
    ensures Shuffled(old(a[..]), a[..], p, q) && g == q - (gt - i) && l <= g
    ensures AllSign(cmp, v, a[..], p, l, 1) && AllSign(cmp, v, a[..], l, g, 0) && AllSign(cmp, v, a[..], g, q, -1)
  {
    ghost var s := a[..];
    hide AllSign, Shuffled, Exchanged;
    var span := if q - gt > gt - i then gt - i else q - gt;
    g := q - (gt - i);
    SwapBlock(a, i, q - span, span, p, q);
    MoveRight(cmp, v, s, a[..], p, l, i, gt, q, span);
  }
}
