/** The in-place heapsort of a range, the fallback for deep recursion. */
module SortHeap {
  import opened SortOrder

  function Parent(c: nat): nat
    requires c > 0
  {
    (c - 1) / 2
  }

  /** s[p..p+n] is a heap (largest first) at every parent from `from` on, except
      below `hole`. */
  ghost predicate HeapBut<T(!new)>(cmp: (T, T) -> int, s: seq<T>, p: nat, n: nat, from: nat, hole: nat)
    requires p + n <= |s|
  {
    forall c :: 1 <= c < n && Parent(c) >= from && Parent(c) != hole ==> Le(cmp, s[p + c], s[p + Parent(c)])
  }

  ghost predicate Heap<T(!new)>(cmp: (T, T) -> int, s: seq<T>, p: nat, n: nat, from: nat)
    requires p + n <= |s|
  {
    forall c :: 1 <= c < n && Parent(c) >= from ==> Le(cmp, s[p + c], s[p + Parent(c)])
  }

  /** The children of the hole are not above the hole's parent. */
  ghost predicate Bridged<T(!new)>(cmp: (T, T) -> int, s: seq<T>, p: nat, n: nat, from: nat, hole: nat)
    requires p + n <= |s| && hole < n
  {
    hole > 0 && Parent(hole) >= from ==>
      forall c :: 1 <= c < n && Parent(c) == hole ==> Le(cmp, s[p + c], s[p + Parent(hole)])
  }

  /** No child of r is above position c. */
  ghost predicate LargestChild<T(!new)>(cmp: (T, T) -> int, s: seq<T>, p: nat, n: nat, r: nat, c: nat)
    requires p + n <= |s| && c < n
  {
    forall d :: 1 <= d < n && Parent(d) == r ==> Le(cmp, s[p + d], s[p + c])
  }

  lemma {:induction false} Children(r: nat, c: nat)
    requires c > 0
    ensures Parent(c) == r <==> c == 2 * r + 1 || c == 2 * r + 2
  {}

  /** Exchanging the hole with its larger child moves the hole down. */
  lemma {:induction false} SiftStep<T(!new)>(cmp: (T, T) -> int, s: seq<T>, p: nat, n: nat, from: nat, r: nat, c: nat)
    requires TotalPreorder(cmp) && p + n <= |s| && from <= r < n && c < n && (c == 2 * r + 1 || c == 2 * r + 2)
    requires HeapBut(cmp, s, p, n, from, r) && Bridged(cmp, s, p, n, from, r)
    requires Le(cmp, s[p + r], s[p + c]) && LargestChild(cmp, s, p, n, r, c)
    ensures HeapBut(cmp, Swapped(s, p + r, p + c), p, n, from, c)
    ensures Bridged(cmp, Swapped(s, p + r, p + c), p, n, from, c)
  {
    hide Le;
    var t := Swapped(s, p + r, p + c);
    Children(r, c);
    forall d | 1 <= d < n && Parent(d) >= from && Parent(d) != c ensures Le(cmp, t[p + d], t[p + Parent(d)]) {
      if Parent(d) == r {
        if d == c {
        } else {
          assert t[p + d] == s[p + d] && t[p + r] == s[p + c];
        }
      } else if d == r {
        assert t[p + Parent(d)] == s[p + Parent(d)];
      }
    }
    forall d | 1 <= d < n && Parent(d) == c ensures Le(cmp, t[p + d], t[p + Parent(c)]) {
      assert t[p + d] == s[p + d] && t[p + r] == s[p + c];
    }
  }

  /** At the end the hole is filled. */
  lemma {:induction false} SiftEnd<T(!new)>(cmp: (T, T) -> int, s: seq<T>, p: nat, n: nat, from: nat, r: nat)
    requires p + n <= |s| && r < n && HeapBut(cmp, s, p, n, from, r)
    requires LargestChild(cmp, s, p, n, r, r)
    ensures Heap(cmp, s, p, n, from)
  {
    hide Le;
  }

  /** Sifts position r0 down in the heap s[p..p+n]. */
  method SiftDown<T(!new)>(cmp: (T, T) -> int, a: array<T>, p: nat, n: nat, r0: nat)
    requires TotalPreorder(cmp) && p + n <= a.Length && r0 < n
    requires Heap(cmp, a[..], p, n, r0 + 1)
    modifies a
    ensures Heap(cmp, a[..], p, n, r0)
    ensures Shuffled(old(a[..]), a[..], p, p + n)
  {
    ghost var s := a[..];
    ShuffledSame(s, p, p + n);
    SiftStart(cmp, s, p, n, r0);
    var r := r0;
    hide Shuffled, Le, TotalPreorder, Swapped, HeapBut, Heap, Bridged, LargestChild;
    while 2 * r + 1 < n
      invariant r0 <= r < n && |a[..]| == |s|
      invariant HeapBut(cmp, a[..], p, n, r0, r) && Bridged(cmp, a[..], p, n, r0, r)
      invariant Shuffled(s, a[..], p, p + n)
      decreases n - r
    {
      ghost var t := a[..];
      var done;
      r, done := SiftOnce(cmp, a, p, n, r0, r);
      ShuffledTrans(s, t, a[..], p, p + n);
      if done {
        return;
      }
    }
    SiftLeaf(cmp, a[..], p, n, r0, r);
  }

  /** One level down: exchanges r with its larger child, unless r is above both. */
  method SiftOnce<T(!new)>(cmp: (T, T) -> int, a: array<T>, p: nat, n: nat, ghost from: nat, r: nat)
    returns (next: nat, done: bool)
    requires TotalPreorder(cmp) && p + n <= a.Length && from <= r && 2 * r + 1 < n
    requires HeapBut(cmp, a[..], p, n, from, r) && Bridged(cmp, a[..], p, n, from, r)
    modifies a
    ensures r <= next < n && Shuffled(old(a[..]), a[..], p, p + n)
    ensures done ==> Heap(cmp, a[..], p, n, from)
    ensures !done ==> r < next && HeapBut(cmp, a[..], p, n, from, next) && Bridged(cmp, a[..], p, n, from, next)
  {
    ghost var s := a[..];
    ShuffledSame(s, p, p + n);
    hide Shuffled, Le, TotalPreorder, Swapped, HeapBut, Heap, Bridged, LargestChild;
    var c := LargerChild(cmp, a, p, n, r);
    assert s[p + r] == a[p + r] && s[p + c] == a[p + c];
    LeFacts(cmp, s[p + r], s[p + c]);
    if cmp(a[p + r], a[p + c]) > 0 {
      LargestAbove(cmp, s, p, n, r, c);
      SiftEnd(cmp, s, p, n, from, r);
      next, done := r, true;
    } else {
      MoveDown(cmp, a, p, n, from, r, c);
      next, done := c, false;
    }
  }

  method MoveDown<T(!new)>(cmp: (T, T) -> int, a: array<T>, p: nat, n: nat, ghost from: nat, r: nat, c: nat)
    requires TotalPreorder(cmp) && p + n <= a.Length && from <= r < n && c < n && (c == 2 * r + 1 || c == 2 * r + 2)
    requires HeapBut(cmp, a[..], p, n, from, r) && Bridged(cmp, a[..], p, n, from, r)
    requires Le(cmp, a[..][p + r], a[..][p + c]) && LargestChild(cmp, a[..], p, n, r, c)
    modifies a
    ensures Shuffled(old(a[..]), a[..], p, p + n)
    ensures HeapBut(cmp, a[..], p, n, from, c) && Bridged(cmp, a[..], p, n, from, c)
  {
    hide Shuffled, Le, TotalPreorder, Swapped, HeapBut, Bridged, LargestChild;
    SiftStep(cmp, a[..], p, n, from, r, c);
    ShuffledSame(a[..], p, p + n);
    ShuffledSwap(a[..], a[..], p, p + n, p + r, p + c);
    Swap(a, p + r, p + c);
  }

  lemma {:induction false} SiftStart<T(!new)>(cmp: (T, T) -> int, s: seq<T>, p: nat, n: nat, r: nat)
    requires p + n <= |s| && r < n && Heap(cmp, s, p, n, r + 1)
    ensures HeapBut(cmp, s, p, n, r, r) && Bridged(cmp, s, p, n, r, r)
  {
    hide Le;
  }

  lemma {:induction false} SiftLeaf<T(!new)>(cmp: (T, T) -> int, s: seq<T>, p: nat, n: nat, from: nat, r: nat)
    requires p + n <= |s| && r < n <= 2 * r + 1 && HeapBut(cmp, s, p, n, from, r)
    ensures Heap(cmp, s, p, n, from)
  {
    hide Le;
  }

  lemma {:induction false} LargestAbove<T(!new)>(cmp: (T, T) -> int, s: seq<T>, p: nat, n: nat, r: nat, c: nat)
    requires TotalPreorder(cmp) && p + n <= |s| && r < n && c < n
    requires Le(cmp, s[p + c], s[p + r]) && LargestChild(cmp, s, p, n, r, c)
    ensures LargestChild(cmp, s, p, n, r, r)
  {
    forall d | 1 <= d < n && Parent(d) == r ensures Le(cmp, s[p + d], s[p + r]) {
      LeTrans(cmp, s[p + d], s[p + c], s[p + r]);
    }
  }

  method LargerChild<T(!new)>(cmp: (T, T) -> int, a: array<T>, p: nat, n: nat, r: nat) returns (c: nat)
    requires TotalPreorder(cmp) && p + n <= a.Length && 2 * r + 1 < n
    ensures c < n && (c == 2 * r + 1 || c == 2 * r + 2)
    ensures LargestChild(cmp, a[..], p, n, r, c)
  {
    c := 2 * r + 1;
    if c < n - 1 && cmp(a[p + c], a[p + c + 1]) <= 0 {
      c := c + 1;
    }
    forall d | 1 <= d < n && Parent(d) == r ensures Le(cmp, a[p + d], a[p + c]) {
      Children(r, d);
      LeFacts(cmp, a[p + d], a[p + c]);
    }
  }

  /** The first element of a heap is a largest one. */
  lemma {:induction false} HeapTop<T(!new)>(cmp: (T, T) -> int, s: seq<T>, p: nat, n: nat, k: nat)
    requires TotalPreorder(cmp) && p + n <= |s| && Heap(cmp, s, p, n, 0) && k < n
    ensures Le(cmp, s[p + k], s[p])
    decreases k
  {
    hide Le, TotalPreorder;
    LeFacts(cmp, s[p], s[p]);
    if k > 0 {
      HeapTop(cmp, s, p, n, Parent(k));
      LeTrans(cmp, s[p + k], s[p + Parent(k)], s[p]);
    }
  }

  /** s[p+i..p+n] is sorted and not below anything before it. */
  ghost predicate SortedTail<T(!new)>(cmp: (T, T) -> int, s: seq<T>, p: nat, n: nat, i: nat)
    requires p + n <= |s|
  {
    forall k, l :: p <= k < l < p + n && p + i <= l ==> Le(cmp, s[k], s[l])
  }

  /** Moving the largest element to the end of the heap extends the tail. */
  lemma {:induction false} ExtendTail<T(!new)>(cmp: (T, T) -> int, s: seq<T>, p: nat, n: nat, i: nat)
    requires TotalPreorder(cmp) && p + n <= |s| && 0 < i < n
    requires Heap(cmp, s, p, i + 1, 0) && SortedTail(cmp, s, p, n, i + 1)
    ensures SortedTail(cmp, Swapped(s, p, p + i), p, n, i)
    ensures Heap(cmp, Swapped(s, p, p + i), p, i, 1)
  {
    hide Le, TotalPreorder;
    var t := Swapped(s, p, p + i);
    forall k, l | p <= k < l < p + n && p + i <= l ensures Le(cmp, t[k], t[l]) {
      var k0 := if k == p then p + i else if k == p + i then p else k;
      assert t[k] == s[k0];
      if l == p + i {
        HeapTop(cmp, s, p, i + 1, k0 - p);
      }
    }
    forall c | 1 <= c < i && Parent(c) >= 1 ensures Le(cmp, t[p + c], t[p + Parent(c)]) {
    }
  }

  /** Permuting the part below the tail keeps it a tail. */
  lemma {:induction false} KeepTail<T(!new)>(cmp: (T, T) -> int, s: seq<T>, t: seq<T>, p: nat, n: nat, i: nat)
    requires p + n <= |s| && i <= n && SortedTail(cmp, s, p, n, i) && Shuffled(s, t, p, p + i)
    ensures |t| == |s| && SortedTail(cmp, t, p, n, i)
  {
    assert |t| == |s|;
    hide Le, Shuffled;
    forall k, l | p <= k < l < p + n && p + i <= l ensures Le(cmp, t[k], t[l]) {
      ShuffledOutside(s, t, p, p + i, l);
      if k < p + i {
        var k0 := ShuffledInside(s, t, p, p + i, k);
        assert Le(cmp, s[k0], s[l]);
      } else {
        ShuffledOutside(s, t, p, p + i, k);
      }
    }
  }

  method HeapSort<T(!new)>(cmp: (T, T) -> int, a: array<T>, p: nat, n: nat)
    requires TotalPreorder(cmp) && p + n <= a.Length
    modifies a
    ensures SortedRange(cmp, a[..], p, p + n)
    ensures Shuffled(old(a[..]), a[..], p, p + n)
  {
    ghost var s := a[..];
    ShuffledSame(s, p, p + n);
    hide Shuffled, Le, TotalPreorder;
    if n > 1 {
      BuildHeap(cmp, a, p, n);
      SortDown(cmp, a, p, n, s);
      TailSorted(cmp, a[..], p, n);
    }
  }

  method BuildHeap<T(!new)>(cmp: (T, T) -> int, a: array<T>, p: nat, n: nat)
    requires TotalPreorder(cmp) && p + n <= a.Length && n > 1
    modifies a
    ensures Heap(cmp, a[..], p, n, 0)
    ensures Shuffled(old(a[..]), a[..], p, p + n)
  {
    ghost var s := a[..];
    ShuffledSame(s, p, p + n);
    hide Shuffled, Le, TotalPreorder;
    var i := n / 2;
    while i > 0
      invariant 0 <= i <= n / 2 && |a[..]| == |s|
      invariant Heap(cmp, a[..], p, n, i) && Shuffled(s, a[..], p, p + n)
    {
      i := i - 1;
      ghost var t := a[..];
      SiftDown(cmp, a, p, n, i);
      ShuffledTrans(s, t, a[..], p, p + n);
    }
  }

  method SortDown<T(!new)>(cmp: (T, T) -> int, a: array<T>, p: nat, n: nat, ghost s: seq<T>)
    requires TotalPreorder(cmp) && p + n <= a.Length && n > 1 && |s| == a.Length
    requires Heap(cmp, a[..], p, n, 0) && Shuffled(s, a[..], p, p + n)
    modifies a
    ensures SortedTail(cmp, a[..], p, n, 1)
    ensures Shuffled(s, a[..], p, p + n)
  {
    hide Shuffled, Le, TotalPreorder, Swapped;
    var i := n - 1;
    while i > 0
      invariant 0 <= i < n && |a[..]| == |s|
      invariant Heap(cmp, a[..], p, i + 1, 0) && SortedTail(cmp, a[..], p, n, i + 1)
      invariant Shuffled(s, a[..], p, p + n)
    {
      ExtendTail(cmp, a[..], p, n, i);
      ShuffledSwap(s, a[..], p, p + n, p, p + i);
      Swap(a, p, p + i);
      ghost var t := a[..];
      SiftDown(cmp, a, p, i, 0);
      KeepTail(cmp, t, a[..], p, n, i);
      ShuffledWiden(t, a[..], p, p + n, p, p + i);
      ShuffledTrans(s, t, a[..], p, p + n);
      i := i - 1;
    }
  }

  lemma {:induction false} TailSorted<T(!new)>(cmp: (T, T) -> int, s: seq<T>, p: nat, n: nat)
    requires p + n <= |s| && SortedTail(cmp, s, p, n, 1)
    ensures SortedRange(cmp, s, p, p + n)
  {
    hide Le;
  }
}
