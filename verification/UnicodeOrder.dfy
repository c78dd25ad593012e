/** Canonical ordering of combining characters (sort_cc; section 3.11 of the
    Unicode Standard). */
module UnicodeOrder {
  /** Inserts x before the characters of higher class at the end of t. */
  function Insert(cc: int -> nat, t: seq<int>, x: int): (r: seq<int>)
    ensures |r| == |t| + 1
  {
    if t == [] || cc(t[|t| - 1]) <= cc(x) then t + [x]
    else Insert(cc, t[..|t| - 1], x) + [t[|t| - 1]]
  }

  /** The canonical order: characters of class 0 stay, the others move left past
      characters of higher class. */
  function Canon(cc: int -> nat, s: seq<int>): (r: seq<int>)
    ensures |r| == |s|
  {
    if s == [] then []
    else
      var t, x := Canon(cc, s[..|s| - 1]), s[|s| - 1];
      if cc(x) == 0 then t + [x] else Insert(cc, t, x)
  }

  // ----- what the canonical order is -----

  /** A reorderable pair: class A above class B, and B not 0. */
  predicate Reorderable(cc: int -> nat, s: seq<int>, i: nat)
    requires i + 1 < |s|
  {
    cc(s[i]) > cc(s[i + 1]) > 0
  }

  ghost predicate InOrder(cc: int -> nat, s: seq<int>) {
    forall i :: 0 <= i < |s| - 1 ==> !Reorderable(cc, s, i)
  }

  /** The characters of class 0 and of class k, in order. */
  function Only(cc: int -> nat, s: seq<int>, k: nat): seq<int> {
    if s == [] then []
    else
      var t, x := Only(cc, s[..|s| - 1], k), s[|s| - 1];
      if cc(x) == 0 || cc(x) == k then t + [x] else t
  }

  lemma {:induction false} OnlySnoc(cc: int -> nat, s: seq<int>, x: int, k: nat)
    ensures Only(cc, s + [x], k) == Only(cc, s, k) + (if cc(x) == 0 || cc(x) == k then [x] else [])
  {
    assert (s + [x])[..|s|] == s;
  }

  lemma {:induction false} InsertOnly(cc: int -> nat, t: seq<int>, x: int, k: nat)
    requires cc(x) > 0
    ensures Only(cc, Insert(cc, t, x), k) == Only(cc, t + [x], k)
  {
    OnlySnoc(cc, t, x, k);
    if t != [] && cc(t[|t| - 1]) > cc(x) {
      var n := |t| - 1;
      InsertOnly(cc, t[..n], x, k);
      OnlySnoc(cc, Insert(cc, t[..n], x), t[n], k);
      OnlySnoc(cc, t[..n], x, k);
      OnlySnoc(cc, t[..n], t[n], k);
      assert t == t[..n] + [t[n]];
    }
  }

  /** Stability: between characters of class 0, the characters of each class keep
      their order. */
  lemma {:induction false} CanonStable(cc: int -> nat, s: seq<int>, k: nat)
    ensures Only(cc, Canon(cc, s), k) == Only(cc, s, k)
  {
    if s != [] {
      var n := |s| - 1;
      var t, x := Canon(cc, s[..n]), s[n];
      CanonStable(cc, s[..n], k);
      OnlySnoc(cc, t, x, k);
      OnlySnoc(cc, s[..n], x, k);
      assert s == s[..n] + [x];
      if cc(x) != 0 {
        InsertOnly(cc, t, x, k);
      }
    }
  }

  lemma {:induction false} InsertMultiset(cc: int -> nat, t: seq<int>, x: int)
    ensures multiset(Insert(cc, t, x)) == multiset(t) + multiset{x}
  {
    if t != [] && cc(t[|t| - 1]) > cc(x) {
      InsertMultiset(cc, t[..|t| - 1], x);
      assert t == t[..|t| - 1] + [t[|t| - 1]];
    }
  }

  /** No character is lost or added. */
  lemma {:induction false} CanonPermutes(cc: int -> nat, s: seq<int>)
    ensures multiset(Canon(cc, s)) == multiset(s)
  {
    if s != [] {
      CanonPermutes(cc, s[..|s| - 1]);
      InsertMultiset(cc, Canon(cc, s[..|s| - 1]), s[|s| - 1]);
      assert s == s[..|s| - 1] + [s[|s| - 1]];
    }
  }

  /** Characters of class 0 do not move. */
  lemma {:induction false} CanonFixes(cc: int -> nat, s: seq<int>, i: nat)
    requires i < |s|
    ensures cc(s[i]) == 0 ==> Canon(cc, s)[i] == s[i]
    ensures cc(s[i]) != 0 ==> cc(Canon(cc, s)[i]) != 0
  {
    var n := |s| - 1;
    var t, x := Canon(cc, s[..n]), s[n];
    if i < n {
      CanonFixes(cc, s[..n], i);
    }
    if cc(x) != 0 {
      InsertFixes(cc, t, x, i);
    }
  }

  lemma {:induction false} InsertFixes(cc: int -> nat, t: seq<int>, x: int, i: nat)
    requires i <= |t| && cc(x) > 0
    ensures i < |t| && cc(t[i]) == 0 ==> Insert(cc, t, x)[i] == t[i]
    ensures (i < |t| && cc(t[i]) != 0) || i == |t| ==> cc(Insert(cc, t, x)[i]) != 0
  {
    if t != [] && cc(t[|t| - 1]) > cc(x) && i < |t| {
      InsertFixes(cc, t[..|t| - 1], x, i);
    }
  }

  /** The last character after an insertion. */
  lemma {:induction false} InsertOrdered(cc: int -> nat, t: seq<int>, x: int)
    requires InOrder(cc, t) && cc(x) > 0
    ensures InOrder(cc, Insert(cc, t, x))
    ensures var r := Insert(cc, t, x);
            r[|t|] == x || (t != [] && r[|t|] == t[|t| - 1] && cc(t[|t| - 1]) > cc(x))
  {
    var r := Insert(cc, t, x);
    if t != [] && cc(t[|t| - 1]) > cc(x) {
      var n := |t| - 1;
      PrefixOrdered(cc, t, n);
      InsertOrdered(cc, t[..n], x);
      SnocOrdered(cc, Insert(cc, t[..n], x), t[n]);
      if n > 0 {
        assert !Reorderable(cc, t, n - 1);
      }
    } else {
      SnocOrdered(cc, t, x);
    }
  }

  lemma {:induction false} PrefixOrdered(cc: int -> nat, s: seq<int>, n: nat)
    requires InOrder(cc, s) && n <= |s|
    ensures InOrder(cc, s[..n])
  {
    forall i | 0 <= i < n - 1 ensures !Reorderable(cc, s[..n], i) {
      assert !Reorderable(cc, s, i);
    }
  }

  lemma {:induction false} SnocOrdered(cc: int -> nat, s: seq<int>, x: int)
    ensures InOrder(cc, s) && (s == [] || cc(x) == 0 || cc(s[|s| - 1]) <= cc(x)) ==> InOrder(cc, s + [x])
  {
    if InOrder(cc, s) && (s == [] || cc(x) == 0 || cc(s[|s| - 1]) <= cc(x)) {
      forall i | 0 <= i < |s + [x]| - 1 ensures !Reorderable(cc, s + [x], i) {
        if i < |s| - 1 {
          assert !Reorderable(cc, s, i);
        }
      }
    }
  }

  /** The result has no reorderable pair. */
  lemma {:induction false} CanonOrdered(cc: int -> nat, s: seq<int>)
    ensures InOrder(cc, Canon(cc, s))
  {
    if s != [] {
      var t, x := Canon(cc, s[..|s| - 1]), s[|s| - 1];
      CanonOrdered(cc, s[..|s| - 1]);
      if cc(x) == 0 {
        SnocOrdered(cc, t, x);
      } else {
        InsertOrdered(cc, t, x);
      }
    }
  }

  /** A sequence in order is left alone. */
  lemma {:induction false} CanonOfOrdered(cc: int -> nat, s: seq<int>)
    requires InOrder(cc, s)
    ensures Canon(cc, s) == s
  {
    if s != [] {
      var n := |s| - 1;
      PrefixOrdered(cc, s, n);
      CanonOfOrdered(cc, s[..n]);
      assert s == s[..n] + [s[n]];
      if n > 0 {
        assert !Reorderable(cc, s, n - 1);
      }
    }
  }

  /** A second pass changes nothing. */
  lemma {:induction false} CanonIdempotent(cc: int -> nat, s: seq<int>)
    ensures Canon(cc, Canon(cc, s)) == Canon(cc, s)
  {
    CanonOrdered(cc, s);
    CanonOfOrdered(cc, Canon(cc, s));
  }

  // ----- sort_cc -----

  lemma {:induction false} CanonSnoc(cc: int -> nat, s: seq<int>, x: int)
    ensures Canon(cc, s + [x]) == if cc(x) == 0 then Canon(cc, s) + [x] else Insert(cc, Canon(cc, s), x)
  {
    assert (s + [x])[..|s|] == s;
  }

  lemma {:induction false} InsertStops(cc: int -> nat, t: seq<int>, x: int)
    requires t == [] || cc(t[|t| - 1]) <= cc(x)
    ensures Insert(cc, t, x) == t + [x]
  {}

  lemma {:induction false} InsertPasses(cc: int -> nat, t: seq<int>, x: int)
    requires t != [] && cc(t[|t| - 1]) > cc(x)
    ensures Insert(cc, t, x) == Insert(cc, t[..|t| - 1], x) + [t[|t| - 1]]
  {}

  /** Moves buf[j] down to its place among buf[start..j]. */
  method InsertDown(cc: int -> nat, buf: array<int>, start: nat, j: nat)
    requires start <= j < buf.Length && (start > 0 ==> cc(buf[start - 1]) == 0)
    modifies buf
    ensures buf[..j + 1] == Insert(cc, old(buf[..j]), old(buf[j])) && buf[j + 1..] == old(buf[j + 1..])
    ensures start > 0 ==> cc(buf[start - 1]) == 0
  {
    ghost var t, rest := buf[..j], buf[j + 1..];
    var x := buf[j];
    var k := j;
    ShiftStart(cc, t, x, buf[..], j);
    hide Shifting, Insert;
    while k > start && cc(buf[k - 1]) > cc(x)
      invariant start <= k <= j && Shifting(cc, t, x, buf[..], k, j, rest)
    {
      ShiftStep(cc, t, x, buf[..], k, j, rest);
      ghost var s := buf[..];
      buf[k] := buf[k - 1];
      assert buf[..] == s[k := s[k - 1]];
      k := k - 1;
    }
    ShiftEnd(cc, t, x, buf[..], k, start, j, rest);
    ghost var s := buf[..];
    buf[k] := x;
    assert buf[..] == s[k := x];
    assert buf[..j + 1] == buf[..][..j + 1] && buf[j + 1..] == buf[..][j + 1..];
    assert start > 0 ==> buf[start - 1] == buf[..][start - 1];
  }

  /** Positions k+1..j+1 hold the characters passed so far; k is free. */
  ghost predicate Shifting(cc: int -> nat, t: seq<int>, x: int, s: seq<int>, k: nat, j: nat, rest: seq<int>) {
    && k <= j == |t| && j < |s| && s[..k] == t[..k] && s[j + 1..] == rest
    && Insert(cc, t, x) == Insert(cc, t[..k], x) + s[k + 1..j + 1]
  }

  lemma {:induction false} ShiftStart(cc: int -> nat, t: seq<int>, x: int, s: seq<int>, j: nat)
    requires j < |s| && t == s[..j]
    ensures Shifting(cc, t, x, s, j, j, s[j + 1..])
  {
    assert t[..j] == t && s[j + 1..j + 1] == [];
  }

  lemma {:induction false} ShiftStep(cc: int -> nat, t: seq<int>, x: int, s: seq<int>, k: nat, j: nat, rest: seq<int>)
    requires Shifting(cc, t, x, s, k, j, rest) && k > 0 && cc(s[k - 1]) > cc(x)
    ensures Shifting(cc, t, x, s[k := s[k - 1]], k - 1, j, rest)
  {
    var u := s[k := s[k - 1]];
    assert s[k - 1] == s[..k][k - 1] == t[..k][k - 1];
    InsertPasses(cc, t[..k], x);
    hide Insert;
    assert t[..k][..k - 1] == t[..k - 1];
    assert u[k..j + 1] == [s[k - 1]] + s[k + 1..j + 1];
    assert u[..k - 1] == s[..k][..k - 1];
  }

  lemma {:induction false} ShiftEnd(cc: int -> nat, t: seq<int>, x: int, s: seq<int>, k: nat, start: nat, j: nat,
          rest: seq<int>)
    requires Shifting(cc, t, x, s, k, j, rest) && start <= k && (start > 0 ==> cc(t[start - 1]) == 0)
    requires k > start ==> cc(s[k - 1]) <= cc(x)
    ensures var u := s[k := x];
            && u[..j + 1] == Insert(cc, t, x) && u[j + 1..] == rest
            && (start > 0 ==> cc(u[start - 1]) == 0)
  {
    if k > 0 {
      assert s[k - 1] == s[..k][k - 1] == t[..k][k - 1];
    }
    if start > 0 {
      assert s[start - 1] == s[..k][start - 1] == t[..k][start - 1];
    }
    InsertStops(cc, t[..k], x);
    hide Insert;
    assert s[k := x][..j + 1] == s[..k] + [x] + s[k + 1..j + 1];
  }

  /** The buffer so far is in canonical order, the rest untouched. */
  ghost predicate SortedSoFar(cc: int -> nat, orig: seq<int>, s: seq<int>, j: nat) {
    j <= |s| == |orig| && s[..j] == Canon(cc, orig[..j]) && s[j..] == orig[j..]
  }

  lemma {:induction false} TakeOne(cc: int -> nat, orig: seq<int>, s: seq<int>, j: nat)
    requires SortedSoFar(cc, orig, s, j) && j < |s|
    requires cc(s[j]) == 0 || j == 0 || cc(s[j - 1]) <= cc(s[j])
    ensures SortedSoFar(cc, orig, s, j + 1)
  {
    assert s[j] == s[j..][0] == orig[j];
    assert orig[..j + 1] == orig[..j] + [orig[j]];
    CanonSnoc(cc, orig[..j], orig[j]);
    assert s[..j + 1] == s[..j] + [s[j]];
    if cc(s[j]) != 0 {
      if j > 0 {
        assert s[..j][j - 1] == s[j - 1];
      }
      InsertStops(cc, s[..j], s[j]);
    }
    assert s[j + 1..] == s[j..][1..] == orig[j..][1..] == orig[j + 1..];
  }

  /** Sorts every run of characters of nonzero class, in place. */
  method SortCc(cc: int -> nat, buf: array<int>)
    modifies buf
    ensures buf[..] == Canon(cc, old(buf[..]))
  {
    ghost var orig := buf[..];
    var i := 0;
    hide Canon;
    assert SortedSoFar(cc, orig, buf[..], 0) by { StartSorted(cc, orig); }
    while i < buf.Length
      invariant 0 <= i && (i < buf.Length ==> SortedSoFar(cc, orig, buf[..], i))
      invariant i >= buf.Length ==> SortedSoFar(cc, orig, buf[..], buf.Length)
      invariant 0 < i < buf.Length ==> cc(buf[i - 1]) == 0
    {
      TakeOne(cc, orig, buf[..], i);
      if cc(buf[i]) != 0 {
        i := SortRun(cc, buf, i, orig);
        if i < buf.Length {
          TakeOne(cc, orig, buf[..], i);
        }
      }
      i := i + 1;
    }
    assert buf[..][..buf.Length] == buf[..] && orig[..buf.Length] == orig;
  }

  lemma {:induction false} StartSorted(cc: int -> nat, orig: seq<int>)
    ensures SortedSoFar(cc, orig, orig, 0)
  {
    assert orig[..0] == [];
  }

  /** The run that begins at start; stops at a character of class 0 or the end. */
  method SortRun(cc: int -> nat, buf: array<int>, start: nat, ghost orig: seq<int>) returns (j: nat)
    requires start < buf.Length && SortedSoFar(cc, orig, buf[..], start + 1) && (start > 0 ==> cc(buf[start - 1]) == 0)
    modifies buf
    ensures start < j <= buf.Length && SortedSoFar(cc, orig, buf[..], j)
    ensures j < buf.Length ==> cc(buf[j]) == 0
  {
    j := start + 1;
    hide Canon, Insert;
    while j < buf.Length
      invariant start < j <= buf.Length && SortedSoFar(cc, orig, buf[..], j)
      invariant start > 0 ==> cc(buf[start - 1]) == 0
    {
      if cc(buf[j]) == 0 {
        break;
      }
      ghost var s := buf[..];
      InsertDown(cc, buf, start, j);
      RunStep(cc, orig, s, buf[..], j);
      j := j + 1;
    }
  }

  lemma {:induction false} RunStep(cc: int -> nat, orig: seq<int>, s: seq<int>, t: seq<int>, j: nat)
    requires SortedSoFar(cc, orig, s, j) && j < |s| == |t| && cc(s[j]) != 0
    requires t[..j + 1] == Insert(cc, s[..j], s[j]) && t[j + 1..] == s[j + 1..]
    ensures SortedSoFar(cc, orig, t, j + 1)
  {
    assert s[j] == s[j..][0] == orig[j];
    assert orig[..j + 1] == orig[..j] + [orig[j]];
    CanonSnoc(cc, orig[..j], orig[j]);
    assert s[j + 1..] == s[j..][1..] == orig[j..][1..] == orig[j + 1..];
  }
}
