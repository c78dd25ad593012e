/** Comparators, permutations of a range, and the state of a sort in progress. */
module SortOrder {
  /** A comparator's result is negative, zero or positive. */
  ghost predicate TotalPreorder<T(!new)>(cmp: (T, T) -> int) {
    && (forall x, y :: cmp(x, y) <= 0 <==> cmp(y, x) >= 0)
    && (forall x, y, z :: cmp(x, y) <= 0 && cmp(y, z) <= 0 ==> cmp(x, z) <= 0)
  }

  ghost predicate Le<T(!new)>(cmp: (T, T) -> int, x: T, y: T) { cmp(x, y) <= 0 }

  lemma {:induction false} LeFacts<T(!new)>(cmp: (T, T) -> int, x: T, y: T)
    requires TotalPreorder(cmp)
    ensures Le(cmp, x, x)
    ensures Le(cmp, x, y) || Le(cmp, y, x)
    ensures cmp(x, y) >= 0 <==> Le(cmp, y, x)
    ensures cmp(x, y) > 0 <==> !Le(cmp, x, y)
    ensures cmp(x, y) == 0 <==> Le(cmp, x, y) && Le(cmp, y, x)
  {
    assert cmp(x, x) <= 0 <==> cmp(x, x) >= 0;
  }

  lemma {:induction false} LeTrans<T(!new)>(cmp: (T, T) -> int, x: T, y: T, z: T)
    requires TotalPreorder(cmp) && Le(cmp, x, y) && Le(cmp, y, z)
    ensures Le(cmp, x, z)
  {}

  ghost predicate SortedRange<T(!new)>(cmp: (T, T) -> int, s: seq<T>, lo: nat, hi: nat)
    requires hi <= |s|
  {
    forall i, j :: lo <= i < j < hi ==> Le(cmp, s[i], s[j])
  }

  // ----- swaps and permutations of a range -----

  ghost function Swapped<T>(s: seq<T>, i: nat, j: nat): (t: seq<T>)
    requires i < |s| && j < |s|
    ensures |t| == |s|
  {
    s[i := s[j]][j := s[i]]
  }

  method Swap<T>(a: array<T>, i: nat, j: nat)
    requires i < a.Length && j < a.Length
    modifies a
    ensures a[..] == Swapped(old(a[..]), i, j)
  {
    a[i], a[j] := a[j], a[i];
  }

  /** t is s with the elements of lo..hi permuted. */
  ghost predicate Shuffled<T>(s: seq<T>, t: seq<T>, lo: nat, hi: nat) {
    && lo <= hi <= |s| && |t| == |s|
    && t[..lo] == s[..lo] && t[hi..] == s[hi..]
    && multiset(t[lo..hi]) == multiset(s[lo..hi])
  }

  lemma {:induction false} ShuffledSame<T>(s: seq<T>, lo: nat, hi: nat)
    requires lo <= hi <= |s|
    ensures Shuffled(s, s, lo, hi)
  {}

  lemma {:induction false} SwapMultiset<T>(s: seq<T>, i: nat, j: nat)
    requires i < |s| && j < |s|
    ensures multiset(Swapped(s, i, j)) == multiset(s)
  {}

  lemma {:induction false} ShuffledSwap<T>(s: seq<T>, t: seq<T>, lo: nat, hi: nat, i: nat, j: nat)
    requires Shuffled(s, t, lo, hi) && lo <= i < hi && lo <= j < hi
    ensures Shuffled(s, Swapped(t, i, j), lo, hi)
  {
    var u := Swapped(t, i, j);
    assert u[..lo] == t[..lo] && u[hi..] == t[hi..];
    assert u[lo..hi] == Swapped(t[lo..hi], i - lo, j - lo);
    SwapMultiset(t[lo..hi], i - lo, j - lo);
  }

  lemma {:induction false} ShuffledTrans<T>(s: seq<T>, t: seq<T>, u: seq<T>, lo: nat, hi: nat)
    requires Shuffled(s, t, lo, hi) && Shuffled(t, u, lo, hi)
    ensures Shuffled(s, u, lo, hi)
  {}

  /** A permutation of a part is one of the whole. */
  lemma {:induction false} ShuffledWiden<T>(s: seq<T>, t: seq<T>, lo: nat, hi: nat, lo1: nat, hi1: nat)
    requires Shuffled(s, t, lo1, hi1) && lo <= lo1 && hi1 <= hi <= |s|
    ensures Shuffled(s, t, lo, hi)
  {
    assert t[..lo] == t[..lo1][..lo] && s[..lo] == s[..lo1][..lo];
    assert t[hi..] == t[hi1..][hi - hi1..] && s[hi..] == s[hi1..][hi - hi1..];
    Parts(s, lo, lo1, hi1, hi);
    Parts(t, lo, lo1, hi1, hi);
    assert t[lo..lo1] == t[..lo1][lo..] && s[lo..lo1] == s[..lo1][lo..];
    assert t[hi1..hi] == t[hi1..][..hi - hi1] && s[hi1..hi] == s[hi1..][..hi - hi1];
  }

  lemma {:induction false} Parts<T>(s: seq<T>, a: nat, b: nat, c: nat, d: nat)
    requires a <= b <= c <= d <= |s|
    ensures multiset(s[a..d]) == multiset(s[a..b]) + multiset(s[b..c]) + multiset(s[c..d])
  {
    assert s[a..d] == s[a..b] + s[b..c] + s[c..d];
  }

  lemma {:induction false} ShuffledOutside<T>(s: seq<T>, t: seq<T>, lo: nat, hi: nat, k: nat)
    requires Shuffled(s, t, lo, hi) && k < |s| && (k < lo || hi <= k)
    ensures t[k] == s[k]
  {
    if k < lo {
      assert t[k] == t[..lo][k] && s[k] == s[..lo][k];
    } else {
      assert t[k] == t[hi..][k - hi] && s[k] == s[hi..][k - hi];
    }
  }

  /** Every element of the range was in the range. */
  lemma {:induction false} ShuffledInside<T>(s: seq<T>, t: seq<T>, lo: nat, hi: nat, k: nat) returns (k0: nat)
    requires Shuffled(s, t, lo, hi) && lo <= k < hi
    ensures lo <= k0 < hi && s[k0] == t[k]
  {
    assert t[lo..hi][k - lo] in multiset(t[lo..hi]);
    assert t[k] in multiset(s[lo..hi]);
    var i :| 0 <= i < hi - lo && s[lo..hi][i] == t[k];
    k0 := lo + i;
  }

  // ----- the state of the sort: which positions may still be exchanged -----

  /** Positions with different labels are in order; positions with the same label
      form a range that is still to be sorted. */
  ghost predicate Ordered<T(!new)>(cmp: (T, T) -> int, s: seq<T>, ids: seq<nat>)
    requires |ids| == |s|
  {
    forall i, j :: 0 <= i < j < |s| ==> ids[i] == ids[j] || Le(cmp, s[i], s[j])
  }

  /** Each label is the first position of its range lo..hi. */
  ghost predicate Labelled(ids: seq<nat>, lo: nat, hi: nat) {
    && lo <= hi <= |ids|
    && (forall k :: lo <= k < hi ==> ids[k] == lo)
    && (forall k :: 0 <= k < |ids| && (k < lo || hi <= k) ==> ids[k] < lo || hi <= ids[k])
  }

  /** Permuting a labelled range and ordering its positions under finer labels. */
  lemma {:induction false} Refined<T(!new)>(cmp: (T, T) -> int, s: seq<T>, t: seq<T>, ids: seq<nat>, fine: seq<nat>,
          lo: nat, hi: nat)
    requires |ids| == |s| == |fine| && Ordered(cmp, s, ids) && Labelled(ids, lo, hi) && Shuffled(s, t, lo, hi)
    requires forall k :: 0 <= k < |s| && (k < lo || hi <= k) ==> fine[k] == ids[k]
    requires forall i, j :: lo <= i < j < hi ==> fine[i] == fine[j] || Le(cmp, t[i], t[j])
    ensures Ordered(cmp, t, fine)
  {
    assert |t| == |s|;
    hide Shuffled, Le;
    forall i, j | 0 <= i < j < |t| ensures fine[i] == fine[j] || Le(cmp, t[i], t[j]) {
      if lo <= i && j < hi {
      } else {
        var i0, j0 := i, j;
        if lo <= i < hi {
          i0 := ShuffledInside(s, t, lo, hi, i);
        } else {
          ShuffledOutside(s, t, lo, hi, i);
        }
        if lo <= j < hi {
          j0 := ShuffledInside(s, t, lo, hi, j);
        } else {
          ShuffledOutside(s, t, lo, hi, j);
        }
        assert ids[i0] == ids[j0] || Le(cmp, s[i0], s[j0]);
      }
    }
  }
}
