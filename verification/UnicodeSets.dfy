/** Set algebra on code-point sets kept as boundary lists (cr_* routines). */
module UnicodeSets {
  import opened RegexSyntax

  // ----- what a boundary list means -----

  predicate NonDecreasing(pts: seq<nat>) {
    forall i, j :: 0 <= i < j < |pts| ==> pts[i] <= pts[j]
  }

  predicate Increasing(pts: seq<nat>) {
    forall i, j :: 0 <= i < j < |pts| ==> pts[i] < pts[j]
  }

  /** A list of intervals in order, possibly touching or empty. */
  predicate IsIntervalList(pts: seq<nat>) {
    |pts| % 2 == 0 && NonDecreasing(pts)
  }

  /** An odd number of points lie at or below c. */
  ghost function Inside(pts: seq<nat>, c: nat): bool {
    if pts == [] then false else Inside(pts[..|pts| - 1], c) != (pts[|pts| - 1] <= c)
  }

  lemma {:induction false} InsideSnoc(pts: seq<nat>, v: nat, c: nat)
    ensures Inside(pts + [v], c) == (Inside(pts, c) != (v <= c))
  {
    assert (pts + [v])[..|pts|] == pts;
  }

  lemma {:induction false} InsideConcat(a: seq<nat>, b: seq<nat>, c: nat)
    ensures Inside(a + b, c) == (Inside(a, c) != Inside(b, c))
    decreases |b|
  {
    if b == [] {
      assert a + b == a;
    } else {
      var n := |b| - 1;
      InsideConcat(a, b[..n], c);
      InsideSnoc(a + b[..n], b[n], c);
      InsideSnoc(b[..n], b[n], c);
      assert a + b == (a + b[..n]) + [b[n]] && b == b[..n] + [b[n]];
    }
  }

  /** Past the last point the parity of the length decides; before the first,
      nothing is inside. */
  lemma {:induction false} InsideEnds(pts: seq<nat>, c: nat)
    ensures (forall i :: 0 <= i < |pts| ==> pts[i] <= c) ==> Inside(pts, c) == (|pts| % 2 == 1)
    ensures (forall i :: 0 <= i < |pts| ==> pts[i] > c) ==> !Inside(pts, c)
  {
    if pts != [] {
      var t := pts[..|pts| - 1];
      assert forall i :: 0 <= i < |t| ==> t[i] == pts[i];
      InsideEnds(t, c);
    }
  }

  /** For interval lists this is membership in one of the intervals. */
  lemma {:induction false} InsideIsInSet(pts: seq<nat>, c: nat)
    requires IsIntervalList(pts)
    ensures Inside(pts, c) <==> InSet(pts, c)
    decreases |pts|
  {
    if pts != [] {
      var n := |pts| - 2;
      var t, lo, hi := pts[..n], pts[n], pts[n + 1];
      assert forall i :: 0 <= i < n ==> t[i] == pts[i];
      InsideIsInSet(t, c);
      assert pts == t + [lo, hi];
      InsideConcat(t, [lo, hi], c);
      InsidePair(lo, hi, c);
      InSetSnoc(t, lo, hi, c);
      if InSet(t, c) {
        BelowLast(t, c, lo);
      }
    }
  }

  lemma {:induction false} BelowLast(t: seq<nat>, c: nat, lo: nat)
    requires InSet(t, c) && forall i :: 0 <= i < |t| ==> t[i] <= lo
    ensures c < lo
  {
    var i: nat :| i < |t| / 2 && Lo(t, i) <= c < Hi(t, i);
    assert t[2 * i + 1] <= lo;
  }

  lemma {:induction false} InSetSnoc(t: seq<nat>, lo: nat, hi: nat, c: nat)
    requires |t| % 2 == 0
    ensures InSet(t + [lo, hi], c) <==> InSet(t, c) || lo <= c < hi
  {
    var pts, n := t + [lo, hi], |t| / 2;
    assert Lo(pts, n) == lo && Hi(pts, n) == hi;
    if InSet(t, c) {
      var i: nat :| i < n && Lo(t, i) <= c < Hi(t, i);
      assert Lo(pts, i) == Lo(t, i) && Hi(pts, i) == Hi(t, i);
    }
    if InSet(pts, c) {
      var i: nat :| i < n + 1 && Lo(pts, i) <= c < Hi(pts, i);
      if i < n {
        assert Lo(pts, i) == Lo(t, i) && Hi(pts, i) == Hi(t, i);
      }
    }
  }

  lemma {:induction false} InsidePair(lo: nat, hi: nat, c: nat)
    ensures Inside([lo, hi], c) == ((lo <= c) != (hi <= c))
  {
    InsideSnoc([lo], hi, c);
    InsideSnoc([], lo, c);
    assert [lo] + [hi] == [lo, hi] && [] + [lo] == [lo];
  }

  /** Strictly increasing lists with the same members are equal. */
  lemma {:induction false} CanonicalUnique(a: seq<nat>, b: seq<nat>)
    requires Increasing(a) && Increasing(b) && forall c: nat :: Inside(a, c) == Inside(b, c)
    ensures a == b
    decreases |a| + |b|
  {
    hide Inside;
    if a != [] && b != [] {
      FirstPoint(a);
      FirstPoint(b);
      assert Inside(b, a[0]) && Inside(a, b[0]);
      assert a == [a[0]] + a[1..] && b == [b[0]] + b[1..];
      forall c: nat ensures Inside(a[1..], c) == Inside(b[1..], c) {
        InsideConcat([a[0]], a[1..], c);
        InsideConcat([b[0]], b[1..], c);
        InsideSnoc([], a[0], c);
        assert [] + [a[0]] == [a[0]];
      }
      CanonicalUnique(a[1..], b[1..]);
    } else if a != [] {
      FirstPoint(a);
      InsideEnds(b, a[0]);
    } else if b != [] {
      FirstPoint(b);
      InsideEnds(a, b[0]);
    }
  }

  lemma {:induction false} FirstPoint(a: seq<nat>)
    requires Increasing(a) && a != []
    ensures Inside(a, a[0]) && forall c: nat :: c < a[0] ==> !Inside(a, c)
  {
    assert a == [a[0]] + a[1..];
    InsideConcat([a[0]], a[1..], a[0]);
    InsideEnds([a[0]], a[0]);
    InsideEnds(a[1..], a[0]);
    forall c: nat | c < a[0] ensures !Inside(a, c) {
      InsideEnds(a, c);
    }
  }

  // ----- merging -----

  datatype Op = Union | Inter | Xor | Sub

  function Apply(op: Op, x: bool, y: bool): bool {
    match op
    case Union => x || y
    case Inter => x && y
    case Xor => x != y
    case Sub => x && !y
  }

  predicate Odd(n: nat) { n % 2 == 1 }

  /** Every point consumed so far is at most v, every other at least v. */
  ghost predicate Frontier(a: seq<nat>, i: nat, v: nat) {
    && i <= |a|
    && (forall k :: 0 <= k < i ==> a[k] <= v)
    && (forall k :: i <= k < |a| ==> v <= a[k])
  }

  /** r is the result for the points consumed so far. */
  ghost predicate Merged(op: Op, a: seq<nat>, i: nat, b: seq<nat>, j: nat, r: seq<nat>, v: nat) {
    && Frontier(a, i, v) && Frontier(b, j, v) && Frontier(r, |r|, v) && NonDecreasing(r)
    && Odd(|r|) == Apply(op, Odd(i), Odd(j))
    && (forall c: nat :: Inside(r, c) == Apply(op, Inside(a[..i], c), Inside(b[..j], c)))
  }

  /** Consuming points equal to v: below v nothing changes, from v on the parities
      decide. */
  lemma {:induction false} MergeStep(op: Op, a: seq<nat>, i: nat, i1: nat, b: seq<nat>, j: nat, j1: nat, r: seq<nat>,
          u: nat, v: nat)
    requires Merged(op, a, i, b, j, r, u) && u <= v
    requires (i1 == i || (i1 == i + 1 <= |a| && a[i] == v)) && (j1 == j || (j1 == j + 1 <= |b| && b[j] == v))
    requires Frontier(a, i1, v) && Frontier(b, j1, v)
    ensures var r1 := if Apply(op, Odd(i1), Odd(j1)) != Odd(|r|) then r + [v] else r;
            Merged(op, a, i1, b, j1, r1, v)
  {
    hide Inside;
    var r1 := if Apply(op, Odd(i1), Odd(j1)) != Odd(|r|) then r + [v] else r;
    assert Odd(|r1|) == Apply(op, Odd(i1), Odd(j1));
    hide Apply;
    forall c: nat ensures Inside(r1, c) == Apply(op, Inside(a[..i1], c), Inside(b[..j1], c)) {
      if c < v {
        InsideSnoc(r, v, c);
        BelowNew(a, i, i1, v, c);
        BelowNew(b, j, j1, v, c);
      } else {
        InsideEnds(r1, c);
        InsideEnds(a[..i1], c);
        InsideEnds(b[..j1], c);
      }
    }
  }

  lemma {:induction false} BelowNew(a: seq<nat>, i: nat, i1: nat, v: nat, c: nat)
    requires i <= |a| && (i1 == i || (i1 == i + 1 <= |a| && a[i] == v)) && c < v
    ensures Inside(a[..i1], c) == Inside(a[..i], c)
  {
    if i1 == i + 1 {
      assert a[..i1] == a[..i] + [v];
      InsideSnoc(a[..i], v, c);
    }
  }

  // ----- compressing -----

  /** out is the compressed form of pts[..i], and its last point lies strictly
      below what follows, unless nothing was written. */
  ghost predicate Compressed(pts: seq<nat>, i: nat, out: seq<nat>) {
    && i <= |pts| && |out| % 2 == 0 && |out| <= i && Increasing(out)
    && SameSet(out, pts[..i]) && Drawn(out, pts)
    && (forall k, l :: 0 <= k < |out| && i <= l < |pts| ==> out[k] < pts[l])
  }

  lemma {:induction false} SkipEmpty(pts: seq<nat>, i: nat, out: seq<nat>)
    requires Compressed(pts, i, out) && i + 1 < |pts| && pts[i] == pts[i + 1]
    ensures Compressed(pts, i + 2, out)
  {
    forall c: nat ensures Inside(out, c) == Inside(pts[..i + 2], c) {
      assert pts[..i + 2] == pts[..i] + [pts[i], pts[i + 1]];
      InsideConcat(pts[..i], [pts[i], pts[i + 1]], c);
      InsidePair(pts[i], pts[i + 1], c);
    }
  }

  /** From i to j the intervals touch: pts[i+1] == pts[i+2], ... */
  ghost predicate Touching(pts: seq<nat>, i: nat, j: nat) {
    && i <= j && (j - i) % 2 == 0 && j + 1 < |pts|
    && forall k :: i <= k < j && (k - i) % 2 == 0 ==> Touch(pts, k)
  }

  predicate Touch(pts: seq<nat>, k: nat) { k + 2 < |pts| && pts[k + 1] == pts[k + 2] }

  lemma {:induction false} TouchingInside(pts: seq<nat>, i: nat, j: nat, c: nat)
    requires Touching(pts, i, j)
    ensures Inside(pts[i..j + 2], c) == ((pts[i] <= c) != (pts[j + 1] <= c))
    decreases j
  {
    if i == j {
      assert pts[i..j + 2] == [pts[i], pts[i + 1]];
      InsidePair(pts[i], pts[i + 1], c);
    } else {
      TouchingInside(pts, i, j - 2, c);
      assert pts[i..j + 2] == pts[i..j] + [pts[j], pts[j + 1]];
      InsideConcat(pts[i..j], [pts[j], pts[j + 1]], c);
      InsidePair(pts[j], pts[j + 1], c);
      assert Touch(pts, j - 2);
    }
  }

  lemma {:induction false} WriteMerged(pts: seq<nat>, i: nat, j: nat, out: seq<nat>)
    requires NonDecreasing(pts) && Compressed(pts, i, out) && i + 1 < |pts| && pts[i] != pts[i + 1]
    requires Touching(pts, i, j) && (j + 2 < |pts| ==> pts[j + 1] != pts[j + 2])
    ensures Compressed(pts, j + 2, out + [pts[i], pts[j + 1]])
  {
    var o := out + [pts[i], pts[j + 1]];
    assert pts[i] < pts[i + 1] <= pts[j + 1];
    forall c: nat ensures Inside(o, c) == Inside(pts[..j + 2], c) {
      assert pts[..j + 2] == pts[..i] + pts[i..j + 2];
      InsideConcat(pts[..i], pts[i..j + 2], c);
      InsideConcat(out, [pts[i], pts[j + 1]], c);
      InsidePair(pts[i], pts[j + 1], c);
      TouchingInside(pts, i, j, c);
    }
    forall k, l | 0 <= k < |o| && j + 2 <= l < |pts| ensures o[k] < pts[l] {
      assert pts[j + 1] < pts[j + 2] <= pts[l];
    }
  }

  /** r has exactly the members that the operation selects. */
  ghost predicate Combined(op: Op, a: seq<nat>, b: seq<nat>, r: seq<nat>) {
    forall c: nat :: Inside(r, c) == Apply(op, Inside(a, c), Inside(b, c))
  }

  /** b has exactly the members below UINT32_MAX that a has not. */
  ghost predicate Complements(a: seq<nat>, b: seq<nat>) {
    forall c: nat :: Inside(b, c) == (c < UINT32_MAX && !Inside(a, c))
  }

  ghost predicate DrawnFrom(r: seq<nat>, a: seq<nat>, b: seq<nat>) {
    forall k :: 0 <= k < |r| ==> r[k] in a || r[k] in b
  }

  /** The same members. */
  ghost predicate SameSet(a: seq<nat>, b: seq<nat>) {
    forall c: nat :: Inside(a, c) == Inside(b, c)
  }

  /** All points of a are points of b. */
  ghost predicate Drawn(a: seq<nat>, b: seq<nat>) {
    forall k :: 0 <= k < |a| ==> a[k] in b
  }

  lemma {:induction false} CompressStart(pts: seq<nat>)
    ensures Compressed(pts, 0, pts[..0])
  {
    assert pts[..0] == [];
  }

  lemma {:induction false} CompressEnd(pts: seq<nat>, i: nat, out: seq<nat>)
    requires Compressed(pts, i, out) && i % 2 == 0 && |pts| % 2 == 0 && i + 1 >= |pts|
    ensures Increasing(out) && |out| % 2 == 0 && SameSet(out, pts) && Drawn(out, pts)
  {
    assert pts[..i] == pts;
  }

  /** The first j >= i from which the next interval does not touch. */
  method LastTouching(pt: seq<nat>, i: nat) returns (j: nat)
    requires i + 1 < |pt| && i % 2 == 0 && |pt| % 2 == 0
    ensures Touching(pt, i, j) && (j + 2 < |pt| ==> pt[j + 1] != pt[j + 2])
  {
    j := i;
    assert Touching(pt, i, i);
    hide Touching;
    while j + 3 < |pt| && pt[j + 1] == pt[j + 2]
      invariant Touching(pt, i, j) && j + 1 < |pt| && j % 2 == 0
    {
      TouchingNext(pt, i, j);
      j := j + 2;
    }
  }

  lemma {:induction false} TouchingNext(pt: seq<nat>, i: nat, j: nat)
    requires Touching(pt, i, j) && Touch(pt, j) && j + 3 < |pt|
    ensures Touching(pt, i, j + 2)
  {
    forall k | i <= k < j + 2 && (k - i) % 2 == 0 ensures Touch(pt, k) {
      if k >= j {
        assert k == j || k == j + 1;
      }
    }
  }

  lemma {:induction false} SameTail(orig: seq<nat>, pt: seq<nat>, i: nat)
    requires i <= |pt| == |orig| && pt[i..] == orig[i..]
    ensures forall k :: i <= k < |pt| ==> pt[k] == orig[k]
  {
    forall k | i <= k < |pt| ensures pt[k] == orig[k] {
      assert pt[k] == pt[i..][k - i] && orig[k] == orig[i..][k - i];
    }
  }

  lemma {:induction false} TouchingSame(orig: seq<nat>, pt: seq<nat>, i: nat, j: nat)
    requires i <= |pt| == |orig| && pt[i..] == orig[i..] && Touching(pt, i, j)
    ensures Touching(orig, i, j)
  {
    SameTail(orig, pt, i);
    forall k | i <= k < j && (k - i) % 2 == 0 ensures Touch(orig, k) {
      assert Touch(pt, k);
    }
  }

  /** The two writes: at or below everything still to be read. */
  lemma {:induction false} MovePair(orig: seq<nat>, pt: seq<nat>, i: nat, j: nat, k: nat)
    requires k <= i <= j && j + 1 < |pt| == |orig| && pt[i..] == orig[i..]
    ensures k + 1 < |pt|
    ensures var now := pt[k := pt[i]][k + 1 := pt[j + 1]];
            && pt[k := pt[i]][j + 1] == pt[j + 1]
            && now[..k + 2] == pt[..k] + [orig[i], orig[j + 1]] && now[j + 2..] == orig[j + 2..]
  {
    SameTail(orig, pt, i);
    var now := pt[k := pt[i]][k + 1 := pt[j + 1]];
    assert now[..k] == pt[..k];
    assert now[..k + 2] == now[..k] + [now[k], now[k + 1]];
    assert now[j + 2..] == pt[j + 2..] == pt[i..][j + 2 - i..] == orig[i..][j + 2 - i..] == orig[j + 2..];
  }

  // ----- the mutable set -----

  class CharRange {
    var points: seq<nat>

    constructor ()
      ensures points == []
    {
      points := [];
    }

    method AddPoint(v: nat)
      modifies this
      ensures points == old(points) + [v]
    {
      points := points + [v];
    }

    method AddInterval(lo: nat, hi: nat)
      modifies this
      ensures points == old(points) + [lo, hi]
    {
      points := points + [lo, hi];
    }

    /** Merges touching intervals and drops empty ones, in place. */
    method Compress()
      requires IsIntervalList(points)
      modifies this
      ensures Increasing(points) && |points| % 2 == 0
      ensures SameSet(points, old(points)) && Drawn(points, old(points))
    {
      hide Compressed, Touching, Touch, NonDecreasing, Increasing, SameSet, Drawn;
      ghost var orig := points;
      var pt := points;
      var len := |pt|;
      var i, k := 0, 0;
      CompressStart(orig);
      while i + 1 < len
        invariant |pt| == len == |orig| && k <= i <= len && i % 2 == 0
        invariant Compressed(orig, i, pt[..k]) && pt[i..] == orig[i..]
      {
        SameTail(orig, pt, i);
        if pt[i] == pt[i + 1] {
          SkipEmpty(orig, i, pt[..k]);
          assert pt[i + 2..] == pt[i..][2..] == orig[i..][2..] == orig[i + 2..];
          i := i + 2;
        } else {
          var j := LastTouching(pt, i);
          TouchingSame(orig, pt, i, j);
          WriteMerged(orig, i, j, pt[..k]);
          MovePair(orig, pt, i, j, k);
          pt := pt[k := pt[i]];
          pt := pt[k + 1 := pt[j + 1]];
          k := k + 2;
          i := j + 2;
        }
      }
      CompressEnd(orig, i, pt[..k]);
      points := pt[..k];
    }

    /** The set operation, point by point; the receiver starts empty. */
    method SetOp(a: seq<nat>, b: seq<nat>, op: Op)
      requires IsIntervalList(a) && IsIntervalList(b) && points == []
      modifies this
      ensures Increasing(points) && |points| % 2 == 0
      ensures Combined(op, a, b, points) && DrawnFrom(points, a, b)
    {
      MergePoints(a, b, op);
      Compress();
    }

    method MergePoints(a: seq<nat>, b: seq<nat>, op: Op)
      requires IsIntervalList(a) && IsIntervalList(b) && points == []
      modifies this
      ensures IsIntervalList(points)
      ensures Combined(op, a, b, points) && DrawnFrom(points, a, b)
    {
      var i, j := 0, 0;
      ghost var u := 0;
      assert Merged(op, a, 0, b, 0, points, 0);
      hide Inside;
      while i < |a| || j < |b|
        invariant i <= |a| && j <= |b| && Merged(op, a, i, b, j, points, u)
        invariant DrawnFrom(points, a, b)
        decreases |a| - i + |b| - j
      {
        var v;
        ghost var i0, j0 := i, j;
        if i < |a| && (j >= |b| || a[i] < b[j]) {
          v := a[i];
          i := i + 1;
        } else if i < |a| && j < |b| && a[i] == b[j] {
          v := a[i];
          i := i + 1;
          j := j + 1;
        } else {
          v := b[j];
          j := j + 1;
        }
        MergeStep(op, a, i0, i, b, j0, j, points, u, v);
        var inA, inB := i % 2 == 1, j % 2 == 1;
        var isIn;
        match op {
          case Union => isIn := inA || inB;
          case Inter => isIn := inA && inB;
          case Xor => isIn := inA != inB;
          case Sub => isIn := inA && !inB;
        }
        if isIn != Odd(|points|) {
          AddPoint(v);
        }
        u := v;
      }
      assert a[..|a|] == a && b[..|b|] == b;
    }

    /** cr := cr op b */
    method SetOpWith(b: seq<nat>, op: Op)
      requires IsIntervalList(points) && IsIntervalList(b)
      modifies this
      ensures Increasing(points) && |points| % 2 == 0
      ensures Combined(op, old(points), b, points) && DrawnFrom(points, old(points), b)
    {
      var a := points;
      points := [];
      SetOp(a, b, op);
    }

    /** The complement below UINT32_MAX. */
    method Invert()
      requires IsIntervalList(points) && forall i :: 0 <= i < |points| ==> points[i] <= UINT32_MAX
      modifies this
      ensures IsBoundaryList(points)
      ensures Complements(old(points), points)
    {
      ghost var was := points;
      points := [0] + points + [UINT32_MAX];
      ghost var full := points;
      assert forall k :: 0 <= k < |full| ==> full[k] <= UINT32_MAX;
      forall c: nat ensures Inside(full, c) == (c < UINT32_MAX && !Inside(was, c)) {
        InvertedInside(was, c);
      }
      hide Inside;
      Compress();
    }
  }

  lemma {:induction false} InvertedInside(pts: seq<nat>, c: nat)
    requires |pts| % 2 == 0 && forall i :: 0 <= i < |pts| ==> pts[i] <= UINT32_MAX
    ensures Inside([0] + pts + [UINT32_MAX], c) == (c < UINT32_MAX && !Inside(pts, c))
  {
    InsideSnoc([0] + pts, UINT32_MAX, c);
    InsideConcat([0], pts, c);
    InsideEnds([0], c);
    if c >= UINT32_MAX {
      InsideEnds(pts, c);
    }
  }

  /** Complementing twice restores a canonical list. */
  lemma {:induction false} DoubleInverse(a: seq<nat>, b: seq<nat>, d: seq<nat>)
    requires IsBoundaryList(a) && IsBoundaryList(b) && IsBoundaryList(d)
    requires Complements(a, b) && Complements(b, d)
    ensures d == a
  {
    forall c: nat ensures Inside(d, c) == Inside(a, c) {
      if c >= UINT32_MAX {
        InsideEnds(a, c);
      }
    }
    CanonicalUnique(d, a);
  }

  /** The results of the operations, as sets of the intervals' members. */
  lemma {:induction false} OpIsSetOp(op: Op, a: seq<nat>, b: seq<nat>, r: seq<nat>, c: nat)
    requires IsIntervalList(a) && IsIntervalList(b) && Increasing(r) && |r| % 2 == 0
    requires Combined(op, a, b, r)
    ensures op == Union ==> (InSet(r, c) <==> InSet(a, c) || InSet(b, c))
    ensures op == Inter ==> (InSet(r, c) <==> InSet(a, c) && InSet(b, c))
    ensures op == Sub ==> (InSet(r, c) <==> InSet(a, c) && !InSet(b, c))
    ensures op == Xor ==> (InSet(r, c) <==> (InSet(a, c) && !InSet(b, c)) || (!InSet(a, c) && InSet(b, c)))
  {
    InsideIsInSet(a, c);
    InsideIsInSet(b, c);
    InsideIsInSet(r, c);
  }
}
