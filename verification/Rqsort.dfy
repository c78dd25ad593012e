/** rqsort: quicksort with an explicit stack, a heapsort fallback and an insertion
    sort for short ranges. */
module Rqsort {
  import opened SortOrder
  import opened SortHeap
  import opened SortPartition

  // ----- insertion sort -----

  /** s[p..i+1] is in order, apart from the element on its way down at j. */
  ghost predicate Inserting<T(!new)>(cmp: (T, T) -> int, s: seq<T>, p: nat, j: nat, i: nat)
    requires i < |s|
  {
    forall k, l :: p <= k < l <= i && l != j ==> Le(cmp, s[k], s[l])
  }

  lemma {:induction false} InsertStep<T(!new)>(cmp: (T, T) -> int, s: seq<T>, p: nat, j: nat, i: nat)
    requires p < j <= i < |s| && Inserting(cmp, s, p, j, i) && Le(cmp, s[j], s[j - 1])
    ensures Inserting(cmp, Swapped(s, j, j - 1), p, j - 1, i)
  {
    hide Le;
    var t := Swapped(s, j, j - 1);
    forall k, l | p <= k < l <= i && l != j - 1 ensures Le(cmp, t[k], t[l]) {
      var k0 := if k == j then j - 1 else if k == j - 1 then j else k;
      assert t[k] == s[k0];
      if l == j {
        assert t[l] == s[j - 1];
      } else {
        assert t[l] == s[l];
      }
    }
  }

  lemma {:induction false} InsertEnd<T(!new)>(cmp: (T, T) -> int, s: seq<T>, p: nat, j: nat, i: nat)
    requires TotalPreorder(cmp) && p <= j <= i < |s| && Inserting(cmp, s, p, j, i)
    requires j > p ==> Le(cmp, s[j - 1], s[j])
    ensures SortedRange(cmp, s, p, i + 1)
  {
    hide Le, TotalPreorder;
    forall k, l | p <= k < l < i + 1 ensures Le(cmp, s[k], s[l]) {
      if l == j && k < j - 1 {
        LeTrans(cmp, s[k], s[j - 1], s[j]);
      }
    }
  }

  method InsertionSort<T(!new)>(cmp: (T, T) -> int, a: array<T>, p: nat, n: nat)
    requires TotalPreorder(cmp) && p + n <= a.Length
    modifies a
    ensures SortedRange(cmp, a[..], p, p + n)
    ensures Shuffled(old(a[..]), a[..], p, p + n)
  {
    ghost var s := a[..];
    ShuffledSame(s, p, p + n);
    if n < 2 {
      return;
    }
    hide Shuffled, Le, TotalPreorder;
    var i := p + 1;
    while i < p + n
      invariant p + 1 <= i <= p + n && |a[..]| == |s|
      invariant SortedRange(cmp, a[..], p, i) && Shuffled(s, a[..], p, p + n)
    {
      ghost var t := a[..];
      Insert(cmp, a, p, i, p + n);
      ShuffledTrans(s, t, a[..], p, p + n);
      i := i + 1;
    }
  }

  method Insert<T(!new)>(cmp: (T, T) -> int, a: array<T>, p: nat, i: nat, ghost q: nat)
    requires TotalPreorder(cmp) && p <= i < q <= a.Length && SortedRange(cmp, a[..], p, i)
    modifies a
    ensures SortedRange(cmp, a[..], p, i + 1) && Shuffled(old(a[..]), a[..], p, q)
  {
    ghost var s := a[..];
    ShuffledSame(s, p, q);
    assert Inserting(cmp, a[..], p, i, i);
    hide Shuffled, Le, TotalPreorder, Swapped, Inserting;
    var j := i;
    while j > p && cmp(a[j - 1], a[j]) > 0
      invariant p <= j <= i && |a[..]| == |s|
      invariant Inserting(cmp, a[..], p, j, i) && Shuffled(s, a[..], p, q)
    {
      ghost var t := a[..];
      InsertSwap(cmp, a, p, j, i, q);
      ShuffledTrans(s, t, a[..], p, q);
      j := j - 1;
    }
    if j > p {
      LeFacts(cmp, a[j - 1], a[j]);
    }
    InsertEnd(cmp, a[..], p, j, i);
  }

  method InsertSwap<T(!new)>(cmp: (T, T) -> int, a: array<T>, ghost p: nat, j: nat, ghost i: nat, ghost q: nat)
    requires TotalPreorder(cmp) && p < j <= i < q <= a.Length && Inserting(cmp, a[..], p, j, i)
             && cmp(a[j - 1], a[j]) > 0
    modifies a
    ensures Inserting(cmp, a[..], p, j - 1, i) && Shuffled(old(a[..]), a[..], p, q)
  {
    hide Shuffled, Le, TotalPreorder, Swapped, Inserting;
    LeFacts(cmp, a[j - 1], a[j]);
    LeFacts(cmp, a[j], a[j - 1]);
    InsertStep(cmp, a[..], p, j, i);
    ShuffledSame(a[..], p, q);
    ShuffledSwap(a[..], a[..], p, q, j, j - 1);
    Swap(a, j, j - 1);
  }

  // ----- pending ranges -----

  datatype Entry = Entry(base: nat, count: nat, depth: int)

  ghost predicate Within(e: Entry, x: nat) { e.base <= x < e.base + e.count }

  ghost predicate Apart(e: Entry, f: Entry) { e.base + e.count <= f.base || f.base + f.count <= e.base }

  /** The pending ranges are labelled and disjoint; every other position is final. */
  ghost predicate Pending(ids: seq<nat>, es: seq<Entry>) {
    AllLabelled(ids, es) && AllApart(es) && Covered(ids, es)
  }

  ghost predicate IsLabelled(ids: seq<nat>, e: Entry) { Labelled(ids, e.base, e.base + e.count) }

  ghost predicate AllLabelled(ids: seq<nat>, es: seq<Entry>) {
    forall k :: 0 <= k < |es| ==> IsLabelled(ids, es[k])
  }

  ghost predicate AllApart(es: seq<Entry>) {
    forall j, k :: 0 <= j < k < |es| ==> Apart(es[j], es[k])
  }

  ghost predicate Covered(ids: seq<nat>, es: seq<Entry>) {
    forall x :: 0 <= x < |ids| && ids[x] != x ==> exists k :: 0 <= k < |es| && Within(es[k], x)
  }

  /** The number of steps left, at most. */
  ghost function Weight(es: seq<Entry>): nat {
    if es == [] then 0 else Weight(es[..|es| - 1]) + 2 * es[|es| - 1].count + 1
  }

  lemma {:induction false} WeightSnoc(es: seq<Entry>, e: Entry)
    ensures Weight(es + [e]) == Weight(es) + 2 * e.count + 1
  {
    assert (es + [e])[..|es|] == es;
  }

  /** New labels for the range lo..hi: lo below l, g from g on, final in between. */
  ghost function Relabel(ids: seq<nat>, lo: nat, l: nat, g: nat, hi: nat): (fine: seq<nat>)
    requires lo <= l <= g <= hi <= |ids|
    ensures |fine| == |ids|
  {
    seq(|ids|, k requires 0 <= k < |ids| =>
      if lo <= k < l then lo else if l <= k < g then k else if g <= k < hi then g else ids[k])
  }

  lemma {:induction false} RelabelOther(ids: seq<nat>, e: Entry, f: Entry, l: nat, g: nat)
    requires IsLabelled(ids, e) && IsLabelled(ids, f) && Apart(e, f)
    requires f.base <= l <= g <= f.base + f.count
    ensures f.base + f.count <= |ids| && IsLabelled(Relabel(ids, f.base, l, g, f.base + f.count), e)
  {}

  lemma {:induction false} RelabelParts(ids: seq<nat>, e: Entry, l: nat, g: nat, x: Entry, y: Entry)
    requires IsLabelled(ids, e) && e.base <= l <= g <= e.base + e.count && AreParts(e, l, g, x, y)
    ensures e.base + e.count <= |ids|
    ensures IsLabelled(Relabel(ids, e.base, l, g, e.base + e.count), x)
            && IsLabelled(Relabel(ids, e.base, l, g, e.base + e.count), y)
  {}

  /** The last pending range is split in two; the part between is final. */
  lemma {:induction false} SplitPending(ids: seq<nat>, es: seq<Entry>, e: Entry, l: nat, g: nat, x: Entry, y: Entry)
    requires Pending(ids, es + [e]) && e.base <= l <= g <= e.base + e.count
    requires AreParts(e, l, g, x, y)
    ensures (es + [e])[|es|] == e && e.base + e.count <= |ids|
    ensures Pending(Relabel(ids, e.base, l, g, e.base + e.count), es + [x, y])
  {
    LastPending(ids, es, e);
    hide AllLabelled, AllApart, Covered, Relabel, Labelled;
    SplitLabels(ids, es, e, l, g, x, y);
    SplitApart(es, e, l, g, x, y);
    SplitCover(ids, es, e, l, g, x, y);
  }

  ghost predicate AreParts(e: Entry, l: nat, g: nat, x: Entry, y: Entry) {
    || (x.base == e.base && x.count == l - e.base && y.base == g && y.count == e.base + e.count - g)
    || (y.base == e.base && y.count == l - e.base && x.base == g && x.count == e.base + e.count - g)
  }

  lemma {:induction false} SplitLabels(ids: seq<nat>, es: seq<Entry>, e: Entry, l: nat, g: nat, x: Entry, y: Entry)
    requires AllLabelled(ids, es + [e]) && AllApart(es + [e])
    requires e.base <= l <= g <= e.base + e.count <= |ids| && AreParts(e, l, g, x, y)
    ensures AllLabelled(Relabel(ids, e.base, l, g, e.base + e.count), es + [x, y])
  {
    var fine := Relabel(ids, e.base, l, g, e.base + e.count);
    var was, now := es + [e], es + [x, y];
    assert was[|es|] == e;
    RelabelParts(ids, e, l, g, x, y);
    hide IsLabelled, Relabel, AreParts;
    forall k | 0 <= k < |now| ensures IsLabelled(fine, now[k]) {
      if k < |es| {
        assert was[k] == now[k] && Apart(was[k], was[|es|]);
        RelabelOther(ids, now[k], e, l, g);
      }
    }
  }

  lemma {:induction false} SplitApart(es: seq<Entry>, e: Entry, l: nat, g: nat, x: Entry, y: Entry)
    requires AllApart(es + [e]) && e.base <= l <= g <= e.base + e.count && AreParts(e, l, g, x, y)
    ensures AllApart(es + [x, y])
  {
    var was, now := es + [e], es + [x, y];
    forall j, k | 0 <= j < k < |now| ensures Apart(now[j], now[k]) {
      if k < |es| {
        assert Apart(was[j], was[k]);
      } else if j < |es| {
        assert Apart(was[j], was[|es|]);
      }
    }
  }

  lemma {:induction false} SplitCover(ids: seq<nat>, es: seq<Entry>, e: Entry, l: nat, g: nat, x: Entry, y: Entry)
    requires Covered(ids, es + [e]) && e.base <= l <= g <= e.base + e.count <= |ids| && AreParts(e, l, g, x, y)
    ensures Covered(Relabel(ids, e.base, l, g, e.base + e.count), es + [x, y])
  {
    var hi := e.base + e.count;
    var fine := Relabel(ids, e.base, l, g, hi);
    var was, now := es + [e], es + [x, y];
    forall z | 0 <= z < |fine| && fine[z] != z ensures exists k :: 0 <= k < |now| && Within(now[k], z) {
      if e.base <= z < l || g <= z < hi {
        assert Within(now[|es|], z) || Within(now[|es| + 1], z);
      } else {
        assert fine[z] == ids[z];
        var k :| 0 <= k < |was| && Within(was[k], z);
        assert was[|es|] == e && k != |es|;
        assert Within(now[k], z);
      }
    }
  }

  /** The last pending range is final. */
  lemma {:induction false} ClosePending(ids: seq<nat>, es: seq<Entry>, e: Entry)
    requires Pending(ids, es + [e])
    ensures (es + [e])[|es|] == e && e.base + e.count <= |ids|
    ensures Pending(Relabel(ids, e.base, e.base, e.base + e.count, e.base + e.count), es)
  {
    var hi := e.base + e.count;
    hide Pending, Relabel;
    SplitPending(ids, es, e, e.base, hi, Entry(e.base, 0, 0), Entry(hi, 0, 0));
    DropEmpty(Relabel(ids, e.base, e.base, hi, hi), es, Entry(e.base, 0, 0), Entry(hi, 0, 0));
  }

  lemma {:induction false} DropEmpty(ids: seq<nat>, es: seq<Entry>, x: Entry, y: Entry)
    requires Pending(ids, es + [x, y]) && x.count == 0 && y.count == 0
    ensures Pending(ids, es)
  {
    hide IsLabelled;
    var all := es + [x, y];
    assert forall k :: 0 <= k < |es| ==> es[k] == all[k];
    forall z | 0 <= z < |ids| && ids[z] != z ensures exists k :: 0 <= k < |es| && Within(es[k], z) {
      var k :| 0 <= k < |all| && Within(all[k], z);
      assert k < |es| && Within(es[k], z);
    }
  }

  lemma {:induction false} LastPending(ids: seq<nat>, es: seq<Entry>, e: Entry)
    requires Pending(ids, es + [e])
    ensures Labelled(ids, e.base, e.base + e.count)
  {
    var all := es + [e];
    assert all[|es|] == e;
    assert IsLabelled(ids, all[|es|]);
  }

  /** The state of the sort: the original elements, ordered up to the labels. */
  ghost predicate Progress<T(!new)>(cmp: (T, T) -> int, orig: seq<T>, s: seq<T>, ids: seq<nat>, es: seq<Entry>) {
    |ids| == |s| == |orig| && Shuffled(orig, s, 0, |s|) && Ordered(cmp, s, ids) && Pending(ids, es)
  }

  /** Sorting the last pending range closes it. */
  lemma {:induction false} SortedCloses<T(!new)>(cmp: (T, T) -> int, orig: seq<T>, s: seq<T>, t: seq<T>, ids: seq<nat>,
          es: seq<Entry>, e: Entry)
    returns (fine: seq<nat>)
    requires Progress(cmp, orig, s, ids, es + [e])
    requires e.base + e.count <= |s| && Shuffled(s, t, e.base, e.base + e.count) && |t| == |s|
    requires SortedRange(cmp, t, e.base, e.base + e.count)
    ensures Progress(cmp, orig, t, fine, es)
  {
    var lo, hi := e.base, e.base + e.count;
    LastPending(ids, es, e);
    ClosePending(ids, es, e);
    fine := Relabel(ids, lo, lo, hi, hi);
    SortedOrdered(cmp, t, ids, lo, hi);
    hide Shuffled, Le, Pending, Labelled, Relabel, SortedRange;
    ShuffledWiden(s, t, 0, |s|, lo, hi);
    ShuffledTrans(orig, s, t, 0, |s|);
    Refined(cmp, s, t, ids, fine, lo, hi);
  }

  /** Partitioning the last pending range splits it. */
  lemma {:induction false} PartitionSplits<T(!new)>(cmp: (T, T) -> int, orig: seq<T>, s: seq<T>, t: seq<T>,
          ids: seq<nat>, es: seq<Entry>, e: Entry,
                                                   v: T, l: nat, g: nat, x: Entry, y: Entry)
    returns (fine: seq<nat>)
    requires TotalPreorder(cmp) && Progress(cmp, orig, s, ids, es + [e])
    requires e.base + e.count <= |s| && Shuffled(s, t, e.base, e.base + e.count) && |t| == |s|
    requires Three(cmp, v, t, e.base, l, g, e.base + e.count)
    requires AreParts(e, l, g, x, y)
    ensures Progress(cmp, orig, t, fine, es + [x, y])
  {
    hide Shuffled, Le, Pending, TotalPreorder, Relabel, AllSign, AreParts;
    var lo, hi := e.base, e.base + e.count;
    LastPending(ids, es, e);
    SplitPending(ids, es, e, l, g, x, y);
    fine := Relabel(ids, lo, l, g, hi);
    ShuffledWiden(s, t, 0, |s|, lo, hi);
    ShuffledTrans(orig, s, t, 0, |s|);
    ThreeOrdered(cmp, v, t, ids, lo, l, g, hi);
    Refined(cmp, s, t, ids, fine, lo, hi);
  }

  lemma {:induction false} SortedOrdered<T(!new)>(cmp: (T, T) -> int, t: seq<T>, ids: seq<nat>, lo: nat, hi: nat)
    requires lo <= hi <= |t| == |ids| && SortedRange(cmp, t, lo, hi)
    ensures var fine := Relabel(ids, lo, lo, hi, hi);
            && (forall k :: 0 <= k < |t| && (k < lo || hi <= k) ==> fine[k] == ids[k])
            && (forall i, j :: lo <= i < j < hi ==> fine[i] == fine[j] || Le(cmp, t[i], t[j]))
  {
    hide Le;
  }

  lemma {:induction false} ThreeOrdered<T(!new)>(cmp: (T, T) -> int, v: T, t: seq<T>, ids: seq<nat>, lo: nat, l: nat,
          g: nat, hi: nat)
    requires TotalPreorder(cmp) && Three(cmp, v, t, lo, l, g, hi) && |ids| == |t|
    ensures var fine := Relabel(ids, lo, l, g, hi);
            && (forall k :: 0 <= k < |t| && (k < lo || hi <= k) ==> fine[k] == ids[k])
            && (forall i, j :: lo <= i < j < hi ==> fine[i] == fine[j] || Le(cmp, t[i], t[j]))
  {
    var fine := Relabel(ids, lo, l, g, hi);
    forall i, j | lo <= i < j < hi ensures fine[i] == fine[j] || Le(cmp, t[i], t[j]) {
      if j < l || g <= i {
      } else {
        LeFacts(cmp, v, t[i]);
        LeFacts(cmp, v, t[j]);
        assert i < g && l <= j;
        assert Sign(cmp(v, t[i])) >= 0 && Sign(cmp(v, t[j])) <= 0;
        LeTrans(cmp, t[i], v, t[j]);
      }
    }
  }

  lemma {:induction false} AllFinal<T(!new)>(cmp: (T, T) -> int, orig: seq<T>, s: seq<T>, ids: seq<nat>)
    requires Progress(cmp, orig, s, ids, [])
    ensures SortedRange(cmp, s, 0, |s|) && multiset(s) == multiset(orig)
  {
    assert forall x :: 0 <= x < |ids| ==> ids[x] == x;
    assert s[0..|s|] == s && orig[0..|s|] == orig;
  }

  lemma {:induction false} InitialProgress<T(!new)>(cmp: (T, T) -> int, s: seq<T>) returns (ids: seq<nat>)
    ensures Progress(cmp, s, s, ids, [Entry(0, |s|, 0)])
  {
    ids := seq(|s|, _ => 0);
    var es := [Entry(0, |s|, 0)];
    assert forall x :: 0 <= x < |ids| ==> Within(es[0], x);
  }

  // ----- the sort -----

  /** Sorts any array, for every comparator that is a total preorder; the 50-entry
      stack never overflows, since an entry's depth is never below its index. */
  method Sort<T(!new)>(cmp: (T, T) -> int, a: array<T>)
    requires TotalPreorder(cmp)
    modifies a
    ensures SortedRange(cmp, a[..], 0, a.Length) && multiset(a[..]) == multiset(old(a[..]))
  {
    if a.Length < 2 {
      return;
    }
    ghost var orig := a[..];
    var stack := new Entry[50](_ => Entry(0, 0, 0));
    stack[0] := Entry(0, a.Length, 0);
    var sp := 1;
    ghost var ids := InitialProgress(cmp, orig);
    assert stack[..1] == [Entry(0, |orig|, 0)];
    hide TotalPreorder, Progress, SortedRange, Weight;
    while sp > 0
      invariant 0 <= sp <= 50 && |a[..]| == |orig|
      invariant DepthsOk(stack[..sp]) && Progress(cmp, orig, a[..], ids, stack[..sp])
      decreases Weight(stack[..sp])
    {
      sp := sp - 1;
      var e := stack[sp];
      assert stack[..sp + 1] == stack[..sp] + [e];
      assert stack[..sp + 1][sp] == e;
      WeightSnoc(stack[..sp], e);
      sp, e, ids := SplitDown(cmp, a, stack, sp, e, orig, ids);
      ids := FinishShort(cmp, a, orig, ids, stack[..sp], e);
    }
    assert stack[..0] == [];
    AllFinal(cmp, orig, a[..], ids);
  }

  /** The entries' depths are at least their indices. */
  ghost predicate DepthsOk(es: seq<Entry>) {
    forall k :: 0 <= k < |es| ==> k <= es[k].depth
  }

  /** Partitions the range e0 until a short one is left, stacking the larger parts;
      beyond depth 50 the range is heapsorted instead. */
  method SplitDown<T(!new)>(cmp: (T, T) -> int, a: array<T>, stack: array<Entry>, sp0: nat, e0: Entry,
          ghost orig: seq<T>, ghost ids0: seq<nat>)
    returns (sp: nat, e: Entry, ghost ids: seq<nat>)
    requires TotalPreorder(cmp) && stack.Length == 50 && (a as object) != (stack as object) && |orig| == a.Length
    requires sp0 < 50 && DepthsOk(stack[..sp0]) && sp0 <= e0.depth
    requires Progress(cmp, orig, a[..], ids0, stack[..sp0] + [e0])
    modifies a, stack
    ensures sp <= 50 && DepthsOk(stack[..sp]) && e.count <= 6
    ensures Progress(cmp, orig, a[..], ids, stack[..sp] + [e])
    ensures Weight(stack[..sp]) + 2 * e.count <= old(Weight(stack[..sp0])) + 2 * e0.count
  {
    hide TotalPreorder, Progress, Weight, DepthsOk;
    sp, e, ids := sp0, e0, ids0;
    while e.count > 6
      invariant sp <= 50 && DepthsOk(stack[..sp]) && sp <= e.depth && |a[..]| == |orig|
      invariant Progress(cmp, orig, a[..], ids, stack[..sp] + [e])
      invariant Weight(stack[..sp]) + 2 * e.count <= old(Weight(stack[..sp0])) + 2 * e0.count
      decreases Weight(stack[..sp]) + 2 * e.count
    {
      if e.depth + 1 > 50 {
        e, ids := Fallback(cmp, a, orig, ids, stack[..sp], e);
      } else {
        sp, e, ids := SplitOnce(cmp, a, stack, sp, e, orig, ids);
      }
    }
  }

  lemma {:induction false} RangeFits<T(!new)>(cmp: (T, T) -> int, orig: seq<T>, s: seq<T>, ids: seq<nat>,
          es: seq<Entry>, e: Entry)
    requires Progress(cmp, orig, s, ids, es + [e])
    ensures e.base + e.count <= |s| == |orig|
  {
    LastPending(ids, es, e);
  }

  /** An empty range may be added. */
  lemma {:induction false} EmptyPending<T(!new)>(cmp: (T, T) -> int, orig: seq<T>, s: seq<T>, ids: seq<nat>,
          es: seq<Entry>, e: Entry)
    requires Progress(cmp, orig, s, ids, es) && e.count == 0 && e.base <= |s|
    requires forall k :: 0 <= k < |es| ==> Apart(es[k], e)
    ensures Progress(cmp, orig, s, ids, es + [e])
  {
    var new_ := es + [e];
    hide Shuffled, Ordered;
    assert forall k :: 0 <= k < |new_| ==> IsLabelled(ids, new_[k]);
    forall x | 0 <= x < |ids| && ids[x] != x ensures exists k :: 0 <= k < |new_| && Within(new_[k], x) {
      var k :| 0 <= k < |es| && Within(es[k], x);
      assert Within(new_[k], x);
    }
  }

  lemma {:induction false} EmptyApart<T(!new)>(cmp: (T, T) -> int, orig: seq<T>, s: seq<T>, ids: seq<nat>,
          es: seq<Entry>, e: Entry)
    requires Progress(cmp, orig, s, ids, es + [e])
    ensures forall k :: 0 <= k < |es| ==> Apart(es[k], Entry(e.base, 0, e.depth))
  {
    var new_ := es + [e];
    forall k | 0 <= k < |es| ensures Apart(es[k], Entry(e.base, 0, e.depth)) {
      assert Apart(new_[k], new_[|es|]);
    }
  }

  method Fallback<T(!new)>(cmp: (T, T) -> int, a: array<T>, ghost orig: seq<T>, ghost ids0: seq<nat>,
          ghost es: seq<Entry>, e0: Entry)
    returns (e: Entry, ghost ids: seq<nat>)
    requires TotalPreorder(cmp) && |orig| == a.Length && Progress(cmp, orig, a[..], ids0, es + [e0])
    requires e0.depth >= 50
    modifies a
    ensures e == Entry(e0.base, 0, e0.depth + 1) && Progress(cmp, orig, a[..], ids, es + [e])
  {
    hide TotalPreorder, Progress, Shuffled, SortedRange;
    ghost var s := a[..];
    RangeFits(cmp, orig, s, ids0, es, e0);
    EmptyApart(cmp, orig, s, ids0, es, e0);
    HeapSort(cmp, a, e0.base, e0.count);
    ids := SortedCloses(cmp, orig, s, a[..], ids0, es, e0);
    e := Entry(e0.base, 0, e0.depth + 1);
    EmptyPending(cmp, orig, a[..], ids, es, e);
  }

  method FinishShort<T(!new)>(cmp: (T, T) -> int, a: array<T>, ghost orig: seq<T>, ghost ids0: seq<nat>,
          ghost es: seq<Entry>, e: Entry)
    returns (ghost ids: seq<nat>)
    requires TotalPreorder(cmp) && |orig| == a.Length && Progress(cmp, orig, a[..], ids0, es + [e])
    modifies a
    ensures Progress(cmp, orig, a[..], ids, es)
  {
    hide TotalPreorder, Progress, Shuffled, SortedRange;
    ghost var s := a[..];
    RangeFits(cmp, orig, s, ids0, es, e);
    InsertionSort(cmp, a, e.base, e.count);
    ids := SortedCloses(cmp, orig, s, a[..], ids0, es, e);
  }

  method SplitOnce<T(!new)>(cmp: (T, T) -> int, a: array<T>, stack: array<Entry>, sp0: nat, e0: Entry,
          ghost orig: seq<T>, ghost ids0: seq<nat>)
    returns (sp: nat, e: Entry, ghost ids: seq<nat>)
    requires TotalPreorder(cmp) && stack.Length == 50 && (a as object) != (stack as object) && |orig| == a.Length
    requires sp0 <= e0.depth < 50 && e0.count > 6 && DepthsOk(stack[..sp0])
    requires Progress(cmp, orig, a[..], ids0, stack[..sp0] + [e0])
    modifies a, stack
    ensures sp == sp0 + 1 <= 50 && DepthsOk(stack[..sp]) && sp <= e.depth
    ensures Progress(cmp, orig, a[..], ids, stack[..sp] + [e])
    ensures Weight(stack[..sp]) + 2 * e.count < old(Weight(stack[..sp0])) + 2 * e0.count
    ensures e.count <= stack[sp0].count && 2 * e.count < e0.count
  {
    hide TotalPreorder, Progress, Weight, DepthsOk, Shuffled, AllSign;
    ghost var s := a[..];
    ghost var es := stack[..sp0];
    RangeFits(cmp, orig, s, ids0, es, e0);
    var p, q := e0.base, e0.base + e0.count;
    ghost var v;
    var l, g;
    v, l, g := Partition(cmp, a, p, q);
    assert stack[..sp0] == es;
    var depth := e0.depth + 1;
    var left, right := Entry(p, l - p, depth), Entry(g, q - g, depth);
    var push := if l - p > q - g then left else right;
    e := if l - p > q - g then right else left;
    ids := PartitionSplits(cmp, orig, s, a[..], ids0, es, e0, v, l, g, push, e);
    WeightSnoc(es, push);
    DepthSnoc(es, push);
    stack[sp0] := push;
    sp := sp0 + 1;
    assert stack[..sp] == es + [push];
    assert es + [push] + [e] == es + [push, e];
  }

  lemma {:induction false} DepthSnoc(es: seq<Entry>, e: Entry)
    requires DepthsOk(es) && |es| <= e.depth
    ensures DepthsOk(es + [e])
  {}
}
