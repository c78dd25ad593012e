/** Sorting by key, as List.sort does. */
module KeySort {
  import opened Basics

  datatype Keyed<V> = Keyed(key: Bytes, value: V)

  /** In front of the first key that is not smaller, so that equal keys keep their
      order. */
  function Insert<V>(m: Keyed<V>, ms: seq<Keyed<V>>): seq<Keyed<V>> {
    if ms == [] || !Before(ms[0].key, m.key) then [m] + ms else [ms[0]] + Insert(m, ms[1..])
  }

  function SortKeyed<V>(ms: seq<Keyed<V>>): seq<Keyed<V>> {
    if ms == [] then [] else Insert(ms[0], SortKeyed(ms[1..]))
  }

  /** Strictly increasing keys. */
  predicate Sorted<V>(ms: seq<Keyed<V>>) {
    forall i :: 0 <= i < |ms| - 1 ==> Before(ms[i].key, ms[i + 1].key)
  }

  predicate Distinct<V>(ms: seq<Keyed<V>>) {
    forall i, j :: 0 <= i < j < |ms| ==> ms[i].key != ms[j].key
  }

  lemma {:induction false} InsertMembers<V>(m: Keyed<V>, ms: seq<Keyed<V>>)
    ensures multiset(Insert(m, ms)) == multiset(ms) + multiset{m}
  {
    if ms != [] {
      assert ms == [ms[0]] + ms[1..];
      if Before(ms[0].key, m.key) {
        InsertMembers(m, ms[1..]);
      }
    }
  }

  lemma {:induction false} SortPermutes<V>(ms: seq<Keyed<V>>)
    ensures multiset(SortKeyed(ms)) == multiset(ms) && |SortKeyed(ms)| == |ms|
  {
    if ms != [] {
      SortPermutes(ms[1..]);
      InsertMembers(ms[0], SortKeyed(ms[1..]));
      assert ms == [ms[0]] + ms[1..];
    }
    assert |multiset(SortKeyed(ms))| == |SortKeyed(ms)|;
  }

  lemma {:induction false} SortedTail<V>(ms: seq<Keyed<V>>)
    requires Sorted(ms) && ms != []
    ensures Sorted(ms[1..])
  {
    forall i | 0 <= i < |ms[1..]| - 1 ensures Before(ms[1..][i].key, ms[1..][i + 1].key) {
      assert ms[1..][i] == ms[i + 1] && ms[1..][i + 1] == ms[i + 2];
      assert Before(ms[i + 1].key, ms[i + 1 + 1].key);
    }
  }

  lemma {:induction false} SortedCons<V>(m: Keyed<V>, ms: seq<Keyed<V>>)
    requires Sorted(ms) && (ms == [] || Before(m.key, ms[0].key))
    ensures Sorted([m] + ms)
  {
    var t := [m] + ms;
    forall i | 0 <= i < |t| - 1 ensures Before(t[i].key, t[i + 1].key) {
      if i > 0 {
        assert Before(ms[i - 1].key, ms[i - 1 + 1].key);
      }
    }
  }

  lemma {:induction false} InsertSorted<V>(m: Keyed<V>, ms: seq<Keyed<V>>)
    requires Sorted(ms) && forall i :: 0 <= i < |ms| ==> ms[i].key != m.key
    ensures Sorted(Insert(m, ms))
    ensures Insert(m, ms)[0] == m || (ms != [] && Insert(m, ms)[0] == ms[0])
  {
    if ms == [] {
      SortedCons(m, ms);
    } else {
      BeforeTotal(m.key, ms[0].key);
      if Before(ms[0].key, m.key) {
        SortedTail(ms);
        InsertSorted(m, ms[1..]);
        if |ms| > 1 {
          assert Before(ms[0].key, ms[0 + 1].key);
        }
        SortedCons(ms[0], Insert(m, ms[1..]));
      } else {
        SortedCons(m, ms);
      }
    }
  }

  /** Distinct keys sort into strictly increasing order. */
  lemma {:induction false} SortSorts<V>(ms: seq<Keyed<V>>)
    requires Distinct(ms)
    ensures Sorted(SortKeyed(ms))
  {
    if ms != [] {
      SortSorts(ms[1..]);
      SortPermutes(ms[1..]);
      var t := SortKeyed(ms[1..]);
      forall i | 0 <= i < |t| ensures t[i].key != ms[0].key {
        assert t[i] in multiset(ms[1..]);
        var k :| 0 <= k < |ms[1..]| && ms[1..][k] == t[i];
        assert ms[0].key != ms[k + 1].key;
      }
      InsertSorted(ms[0], t);
    }
  }

  /** Sorted members are left alone. */
  lemma {:induction false} SortOfSorted<V>(ms: seq<Keyed<V>>)
    requires Sorted(ms)
    ensures SortKeyed(ms) == ms
  {
    if ms != [] {
      SortedTail(ms);
      SortOfSorted(ms[1..]);
      assert ms == [ms[0]] + ms[1..];
      if |ms| > 1 {
        assert Before(ms[0].key, ms[0 + 1].key);
        BeforeTotal(ms[0].key, ms[1].key);
      }
    }
  }

  /** Any two places of a sorted list are in order. */
  lemma {:induction false} SortedOrder<V>(ms: seq<Keyed<V>>, i: nat, j: nat)
    requires Sorted(ms) && i < j < |ms|
    ensures Before(ms[i].key, ms[j].key)
    decreases j
  {
    assert Before(ms[j - 1].key, ms[j - 1 + 1].key);
    if i < j - 1 {
      SortedOrder(ms, i, j - 1);
      BeforeTrans(ms[i].key, ms[j - 1].key, ms[j].key);
    }
  }

  lemma {:induction false} SortedDistinct<V>(ms: seq<Keyed<V>>)
    requires Sorted(ms)
    ensures Distinct(ms)
  {
    forall i, j | 0 <= i < j < |ms| ensures ms[i].key != ms[j].key {
      SortedOrder(ms, i, j);
      BeforeTotal(ms[i].key, ms[j].key);
    }
  }

  /** A permutation of distinct keys has distinct keys. */
  lemma {:induction false} DistinctPermuted<V>(ms: seq<Keyed<V>>, t: seq<Keyed<V>>)
    requires multiset(ms) == multiset(t) && Distinct(t)
    ensures Distinct(ms)
  {
    forall i, j | 0 <= i < j < |ms| ensures ms[i].key != ms[j].key {
      if ms[i].key == ms[j].key {
        assert ms[i] in multiset(t) && ms[j] in multiset(t);
        var k :| 0 <= k < |t| && t[k] == ms[i];
        var l :| 0 <= l < |t| && t[l] == ms[j];
        assert k == l;
        TwoOccur(ms, i, j);
        OneOccurs(t, k);
      }
    }
  }

  lemma {:induction false} TwoOccur<V>(ms: seq<Keyed<V>>, i: nat, j: nat)
    requires i < j < |ms| && ms[i] == ms[j]
    ensures multiset(ms)[ms[i]] >= 2
  {
    assert ms == ms[..j] + [ms[j]] + ms[j + 1..];
    assert ms[i] in ms[..j];
  }

  lemma {:induction false} OneOccurs<V>(ms: seq<Keyed<V>>, k: nat)
    requires Distinct(ms) && k < |ms|
    ensures multiset(ms)[ms[k]] == 1
  {
    assert ms == ms[..k] + [ms[k]] + ms[k + 1..];
  }

  // ----- the map of a list -----

  /** The first value of each key. */
  function KeyMap<V>(ms: seq<Keyed<V>>): map<Bytes, V> {
    if ms == [] then map[] else KeyMap(ms[1..])[ms[0].key := ms[0].value]
  }

  lemma {:induction false} KeyMapHas<V>(ms: seq<Keyed<V>>, k: Bytes)
    ensures k in KeyMap(ms) <==> exists i :: 0 <= i < |ms| && ms[i].key == k
  {
    if ms != [] {
      KeyMapHas(ms[1..], k);
      if i :| 0 <= i < |ms| && ms[i].key == k {
        if i > 0 {
          assert ms[1..][i - 1].key == k;
        }
      }
      if i :| 0 <= i < |ms[1..]| && ms[1..][i].key == k {
        assert ms[i + 1].key == k;
      }
    }
  }

  lemma {:induction false} KeyMapAt<V>(ms: seq<Keyed<V>>, i: nat)
    requires Distinct(ms) && i < |ms|
    ensures ms[i].key in KeyMap(ms) && KeyMap(ms)[ms[i].key] == ms[i].value
  {
    if i > 0 {
      assert ms[1..][i - 1] == ms[i];
      KeyMapAt(ms[1..], i - 1);
      assert ms[0].key != ms[i].key;
    }
  }

  /** Permuting distinct keys keeps the map. */
  lemma {:induction false} KeyMapPermuted<V>(ms: seq<Keyed<V>>, t: seq<Keyed<V>>)
    requires Distinct(ms) && multiset(ms) == multiset(t)
    ensures Distinct(t) && KeyMap(ms) == KeyMap(t)
  {
    DistinctPermuted(t, ms);
    forall k ensures k in KeyMap(ms) <==> k in KeyMap(t) {
      KeyMapHas(ms, k);
      KeyMapHas(t, k);
      if i :| 0 <= i < |ms| && ms[i].key == k {
        assert ms[i] in multiset(t);
      }
      if i :| 0 <= i < |t| && t[i].key == k {
        assert t[i] in multiset(ms);
      }
    }
    forall k | k in KeyMap(ms) ensures KeyMap(ms)[k] == KeyMap(t)[k] {
      KeyMapHas(ms, k);
      var i :| 0 <= i < |ms| && ms[i].key == k;
      assert ms[i] in multiset(t);
      var j :| 0 <= j < |t| && t[j] == ms[i];
      KeyMapAt(ms, i);
      KeyMapAt(t, j);
    }
  }

  /** The smallest key comes first. */
  lemma {:induction false} SameFirst<V>(ms: seq<Keyed<V>>, t: seq<Keyed<V>>)
    requires Sorted(ms) && Sorted(t) && KeyMap(ms) == KeyMap(t) && ms != []
    ensures t != [] && t[0] == ms[0]
  {
    SortedDistinct(ms);
    SortedDistinct(t);
    KeyMapAt(ms, 0);
    KeyMapHas(t, ms[0].key);
    var j :| 0 <= j < |t| && t[j].key == ms[0].key;
    KeyMapAt(t, 0);
    KeyMapHas(ms, t[0].key);
    var i :| 0 <= i < |ms| && ms[i].key == t[0].key;
    if j > 0 {
      SortedOrder(t, 0, j);
    }
    if i > 0 {
      SortedOrder(ms, 0, i);
    }
    BeforeTotal(ms[0].key, t[0].key);
  }

  lemma {:induction false} TailMap<V>(ms: seq<Keyed<V>>)
    requires Distinct(ms) && ms != []
    ensures KeyMap(ms[1..]) == KeyMap(ms) - {ms[0].key} && Distinct(ms[1..])
  {
    KeyMapHas(ms[1..], ms[0].key);
    forall i, j | 0 <= i < j < |ms[1..]| ensures ms[1..][i].key != ms[1..][j].key {
      assert ms[i + 1].key != ms[j + 1].key;
    }
  }

  /** Sorted lists with the same map are the same. */
  lemma {:induction false} SortedUnique<V>(ms: seq<Keyed<V>>, t: seq<Keyed<V>>)
    requires Sorted(ms) && Sorted(t) && KeyMap(ms) == KeyMap(t)
    ensures ms == t
  {
    if ms == [] {
      if t != [] {
        SameFirst(t, ms);
      }
    } else {
      SameFirst(ms, t);
      SortedDistinct(ms);
      SortedDistinct(t);
      TailMap(ms);
      TailMap(t);
      SortedTail(ms);
      SortedTail(t);
      SortedUnique(ms[1..], t[1..]);
      assert ms == [ms[0]] + ms[1..] && t == [t[0]] + t[1..];
    }
  }
}
