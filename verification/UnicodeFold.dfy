/** Sorting and merging intervals, and the image of a set under case folding. */
module UnicodeFold {
  import opened RegexSyntax
  import opened UnicodeSets
  import opened SortOrder
  import Rqsort

  type Pair = (nat, nat)

  // ----- cr_sort_and_remove_overlap -----

  function PointCmp(x: Pair, y: Pair): int {
    (if x.0 > y.0 then 1 else 0) - (if x.0 < y.0 then 1 else 0)
  }

  lemma {:induction false} PointCmpPreorder()
    ensures TotalPreorder(PointCmp)
  {}

  /** c lies in one of the intervals. */
  ghost predicate InPairs(s: seq<Pair>, c: nat) {
    exists k :: 0 <= k < |s| && s[k].0 <= c < s[k].1
  }

  predicate AllForward(s: seq<Pair>) {
    forall k :: 0 <= k < |s| ==> s[k].0 <= s[k].1
  }

  predicate ByStart(s: seq<Pair>) {
    forall i, j :: 0 <= i < j < |s| ==> s[i].0 <= s[j].0
  }

  function PairsOf(pts: seq<nat>): (s: seq<Pair>)
    requires |pts| % 2 == 0
    ensures |s| == |pts| / 2
  {
    seq(|pts| / 2, i requires 0 <= i < |pts| / 2 => (pts[2 * i], pts[2 * i + 1]))
  }

  lemma {:induction false} InPairsOf(pts: seq<nat>, c: nat)
    requires |pts| % 2 == 0
    ensures InPairs(PairsOf(pts), c) <==> InSet(pts, c)
  {
    var s := PairsOf(pts);
    if InSet(pts, c) {
      var i: nat :| i < |pts| / 2 && Lo(pts, i) <= c < Hi(pts, i);
      assert s[i].0 <= c < s[i].1;
    }
    if InPairs(s, c) {
      var k :| 0 <= k < |s| && s[k].0 <= c < s[k].1;
      assert Lo(pts, k) <= c < Hi(pts, k);
    }
  }

  lemma {:induction false} InPairsPermuted(s: seq<Pair>, t: seq<Pair>, c: nat)
    requires multiset(s) == multiset(t) && InPairs(s, c)
    ensures InPairs(t, c)
  {
    var k :| 0 <= k < |s| && s[k].0 <= c < s[k].1;
    assert s[k] in multiset(t);
    assert s[k] in t;
  }

  lemma {:induction false} ForwardPermuted(s: seq<Pair>, t: seq<Pair>)
    requires multiset(s) == multiset(t) && AllForward(s)
    ensures AllForward(t)
  {
    forall k | 0 <= k < |t| ensures t[k].0 <= t[k].1 {
      assert t[k] in multiset(s);
      assert t[k] in s;
    }
  }

  lemma {:induction false} InPairsTake(s: seq<Pair>, i: nat, c: nat)
    requires i < |s|
    ensures InPairs(s[..i + 1], c) <==> InPairs(s[..i], c) || s[i].0 <= c < s[i].1
  {
    if InPairs(s[..i + 1], c) {
      var k :| 0 <= k < i + 1 && s[..i + 1][k].0 <= c < s[..i + 1][k].1;
      if k < i {
        assert s[..i][k] == s[..i + 1][k];
      }
    }
    if InPairs(s[..i], c) {
      var k :| 0 <= k < i && s[..i][k].0 <= c < s[..i][k].1;
      assert s[..i + 1][k] == s[..i][k];
    }
    if s[i].0 <= c < s[i].1 {
      assert s[..i + 1][i] == s[i];
    }
  }

  /** Written intervals, together with the current one, cover the pairs read. */
  ghost predicate Joined(s: seq<Pair>, i: nat, out: seq<nat>, start: nat, end: nat) {
    && i <= |s| && |out| % 2 == 0 && NonDecreasing(out) && start <= end
    && (forall k :: 0 <= k < |out| ==> out[k] < start)
    && (forall k :: i <= k < |s| ==> start <= s[k].0)
    && (forall c: nat :: Covers(out, start, end, s[..i], c))
  }

  /** c is in the written intervals or the current one if and only if it is in s. */
  ghost predicate Covers(out: seq<nat>, start: nat, end: nat, s: seq<Pair>, c: nat) {
    InSet(out, c) || start <= c < end <==> InPairs(s, c)
  }

  lemma {:induction false} JoinNext(s: seq<Pair>, i: nat, out: seq<nat>, start: nat, end: nat)
    requires Joined(s, i, out, start, end) && i < |s| && s[i].0 <= end && s[i].0 <= s[i].1
    ensures Joined(s, i + 1, out, start, if s[i].1 <= end then end else s[i].1)
  {
    hide InSet, InPairs;
    var end1: nat := if s[i].1 <= end then end else s[i].1;
    var t := s[..i + 1];
    forall c: nat ensures Covers(out, start, end1, t, c) {
      InPairsTake(s, i, c);
      assert Covers(out, start, end, s[..i], c);
    }
  }

  lemma {:induction false} JoinFresh(s: seq<Pair>, i: nat, out: seq<nat>, start: nat, end: nat)
    requires Joined(s, i, out, start, end) && ByStart(s) && i < |s| && end < s[i].0 <= s[i].1
    ensures Joined(s, i + 1, out + [start, end], s[i].0, s[i].1)
  {
    hide InSet, InPairs;
    var o, t := out + [start, end], s[..i + 1];
    forall c: nat ensures Covers(o, s[i].0, s[i].1, t, c) {
      InPairsTake(s, i, c);
      InSetSnoc(out, start, end, c);
      assert Covers(out, start, end, s[..i], c);
    }
  }

  /** Merges intervals ordered by their starts. */
  method JoinSorted(s: seq<Pair>) returns (pts: seq<nat>)
    requires ByStart(s) && AllForward(s)
    ensures IsIntervalList(pts)
    ensures forall c: nat :: InSet(pts, c) <==> InPairs(s, c)
  {
    pts := [];
    if |s| == 0 {
      return;
    }
    var start: nat, end: nat := s[0].0, s[0].1;
    var i := 1;
    forall c: nat ensures Covers([], start, end, s[..1], c) {
      InPairsTake(s, 0, c);
    }
    assert Joined(s, 1, pts, start, end);
    while i < |s|
      invariant 1 <= i <= |s| && Joined(s, i, pts, start, end)
    {
      if s[i].0 > end {
        JoinFresh(s, i, pts, start, end);
        pts := pts + [start, end];
        start, end := s[i].0, s[i].1;
      } else {
        JoinNext(s, i, pts, start, end);
        if s[i].1 > end {
          end := s[i].1;
        }
      }
      i := i + 1;
    }
    ghost var out := pts;
    pts := pts + [start, end];
    assert s[..i] == s;
    forall c: nat ensures InSet(pts, c) <==> InPairs(s, c) {
      InSetSnoc(out, start, end, c);
      assert Covers(out, start, end, s, c);
    }
  }

  /** Sorts the intervals by their starts and merges them. */
  method SortAndRemoveOverlap(pts: seq<nat>) returns (r: seq<nat>)
    requires |pts| % 2 == 0 && AllForward(PairsOf(pts))
    ensures IsIntervalList(r)
    ensures forall c: nat :: InSet(r, c) <==> InSet(pts, c)
  {
    var n := |pts| / 2;
    var prs := new Pair[n](i requires 0 <= i < n => (pts[2 * i], pts[2 * i + 1]));
    assert prs[..] == PairsOf(pts);
    PointCmpPreorder();
    Rqsort.Sort(PointCmp, prs);
    ghost var s := prs[..];
    SortedByStart(s);
    ForwardPermuted(PairsOf(pts), s);
    r := JoinSorted(prs[..]);
    forall c: nat ensures InPairs(s, c) <==> InSet(pts, c) {
      InPairsOf(pts, c);
      if InPairs(s, c) {
        InPairsPermuted(s, PairsOf(pts), c);
      }
      if InPairs(PairsOf(pts), c) {
        InPairsPermuted(PairsOf(pts), s, c);
      }
    }
  }

  lemma {:induction false} SortedByStart(s: seq<Pair>)
    requires SortedRange(PointCmp, s, 0, |s|)
    ensures ByStart(s)
  {
    forall i, j | 0 <= i < j < |s| ensures s[i].0 <= s[j].0 {
      assert Le(PointCmp, s[i], s[j]);
    }
  }

  // ----- the case conversion table -----

  /** One run of case_conv_table1: code .. code + len. */
  datatype Run = Run(code: nat, len: nat)

  predicate InRun(r: Run, c: nat) { r.code <= c < r.code + r.len }

  predicate SortedRuns(runs: seq<Run>) {
    forall i, j :: 0 <= i < j < |runs| ==> runs[i].code + runs[i].len <= runs[j].code
  }

  /** The index of the run that holds c, or |runs|. */
  ghost function RunOf(runs: seq<Run>, c: nat): (k: nat)
    ensures k <= |runs| && (k < |runs| ==> InRun(runs[k], c))
    ensures k == |runs| ==> forall i :: 0 <= i < |runs| ==> !InRun(runs[i], c)
  {
    if i :| 0 <= i < |runs| && InRun(runs[i], c) then i else |runs|
  }

  lemma {:induction false} RunUnique(runs: seq<Run>, c: nat, i: nat)
    requires SortedRuns(runs) && i < |runs| && InRun(runs[i], c)
    ensures RunOf(runs, c) == i
  {
    hide Fold;
  }

  /** The folding function: entry(c, i) inside run i, the identity elsewhere. */
  ghost function Fold(runs: seq<Run>, entry: (nat, nat) -> nat, c: nat): nat {
    if RunOf(runs, c) < |runs| then entry(c, RunOf(runs, c)) else c
  }

  /** The letters of ASCII, without the table. */
  function AsciiFold(isUnicode: bool, c: nat): nat {
    if isUnicode && 0x41 <= c <= 0x5a then c + 0x20
    else if !isUnicode && 0x61 <= c <= 0x7a then c - 0x20
    else c
  }

  /** lre_canonicalize: ASCII directly, beyond it by binary search for the run.  It is
      the folding function exactly where the table folds ASCII in the same way. */
  method FoldChar(runs: seq<Run>, entry: (nat, nat) -> nat, isUnicode: bool, c: nat) returns (d: nat)
    requires SortedRuns(runs)
    ensures d == if c < 128 then AsciiFold(isUnicode, c) else Fold(runs, entry, c)
    ensures d == Fold(runs, entry, c) <==> (c < 128 ==> Fold(runs, entry, c) == AsciiFold(isUnicode, c))
  {
    if c < 128 {
      if isUnicode {
        return if 0x41 <= c <= 0x5a then c - 0x41 + 0x61 else c;
      } else {
        return if 0x61 <= c <= 0x7a then c - 0x61 + 0x41 else c;
      }
    }
    var lo, hi := 0, |runs| - 1;
    while lo <= hi
      invariant 0 <= lo && hi < |runs| && lo <= hi + 1
      invariant forall i :: 0 <= i < lo ==> runs[i].code + runs[i].len <= c
      invariant forall i :: hi < i < |runs| ==> c < runs[i].code
      decreases hi - lo
    {
      var idx := (hi + lo) / 2;
      if c < runs[idx].code {
        hi := idx - 1;
      } else if c >= runs[idx].code + runs[idx].len {
        lo := idx + 1;
      } else {
        RunUnique(runs, c, idx);
        return entry(c, idx);
      }
    }
    d := c;
  }

  // ----- cr_regexp_canonicalize -----

  /** The mask lies within the runs and holds every character that folding changes. */
  ghost predicate CoversChanges(runs: seq<Run>, entry: (nat, nat) -> nat, mask: seq<nat>) {
    && IsIntervalList(mask) && (forall i :: 0 <= i < |mask| ==> mask[i] <= UINT32_MAX)
    && (forall c: nat :: InSet(mask, c) ==> RunOf(runs, c) < |runs| && Fold(runs, entry, c) < UINT32_MAX)
    && (forall c: nat :: c < UINT32_MAX && !InSet(mask, c) ==> Fold(runs, entry, c) == c)
  }

  /** d is the image of a member below c. */
  ghost predicate ImageBelow(runs: seq<Run>, entry: (nat, nat) -> nat, pts: seq<nat>, c: nat, d: nat) {
    exists x: nat :: x < c && InSet(pts, x) && Fold(runs, entry, x) == d
  }

  lemma {:induction false} ImageNext(runs: seq<Run>, entry: (nat, nat) -> nat, pts: seq<nat>, c: nat, d: nat)
    ensures ImageBelow(runs, entry, pts, c + 1, d)
            <==> ImageBelow(runs, entry, pts, c, d) || (InSet(pts, c) && Fold(runs, entry, c) == d)
  {}

  lemma {:induction false} ImageGap(runs: seq<Run>, entry: (nat, nat) -> nat, pts: seq<nat>, c: nat, c1: nat, d: nat)
    requires c <= c1 && forall x: nat :: c <= x < c1 ==> !InSet(pts, x)
    ensures ImageBelow(runs, entry, pts, c1, d) <==> ImageBelow(runs, entry, pts, c, d)
  {}

  /** The images collected so far: closed intervals and the current run of values,
      whose start is UINT32_MAX (written -1) before the first value. */
  datatype Collected = Collected(points: seq<nat>, start: nat, end: nat)

  predicate Open(s: Collected) { s.start != UINT32_MAX }

  predicate CollectedOk(s: Collected) {
    |s.points| % 2 == 0 && AllForward(PairsOf(s.points)) && (Open(s) ==> s.start < s.end)
  }

  ghost predicate Has(s: Collected, d: nat) {
    InSet(s.points, d) || (Open(s) && s.start <= d < s.end)
  }

  lemma {:induction false} ForwardSnoc(pts: seq<nat>, lo: nat, hi: nat)
    requires |pts| % 2 == 0 && AllForward(PairsOf(pts)) && lo <= hi
    ensures AllForward(PairsOf(pts + [lo, hi]))
  {
    var s, t := PairsOf(pts), PairsOf(pts + [lo, hi]);
    forall k | 0 <= k < |t| ensures t[k].0 <= t[k].1 {
      if k < |s| {
        assert t[k] == s[k];
      }
    }
  }

  /** Adds one value, extending the current run of values when it continues it. */
  method Collect(s: Collected, d: nat) returns (t: Collected)
    requires CollectedOk(s) && d < UINT32_MAX
    ensures CollectedOk(t) && forall x: nat :: Has(t, x) <==> Has(s, x) || x == d
  {
    if !Open(s) {
      t := s.(start := d, end := d + 1);
    } else if s.end == d {
      t := s.(end := s.end + 1);
    } else {
      t := Collected(s.points + [s.start, s.end], d, d + 1);
      ForwardSnoc(s.points, s.start, s.end);
      forall x: nat ensures Has(t, x) <==> Has(s, x) || x == d {
        InSetSnoc(s.points, s.start, s.end, x);
      }
    }
  }

  /** The images of the members below c. */
  ghost predicate ImagesAre(runs: seq<Run>, entry: (nat, nat) -> nat, pts: seq<nat>, c: nat, s: Collected) {
    CollectedOk(s) && forall d: nat :: Has(s, d) <==> ImageBelow(runs, entry, pts, c, d)
  }

  /** Walks the table forward to the run that holds c. */
  method Advance(runs: seq<Run>, idx0: nat, c: nat) returns (idx: nat)
    requires SortedRuns(runs) && RunOf(runs, c) < |runs| && idx0 <= RunOf(runs, c)
    ensures idx == RunOf(runs, c)
  {
    idx := idx0;
    while !InRun(runs[idx], c)
      invariant idx <= RunOf(runs, c) < |runs|
      decreases |runs| - idx
    {
      idx := idx + 1;
    }
    RunUnique(runs, c, idx);
  }

  lemma {:induction false} RunsAscend(runs: seq<Run>, c: nat, c1: nat)
    requires SortedRuns(runs) && RunOf(runs, c) < |runs| && RunOf(runs, c1) < |runs| && c <= c1
    ensures RunOf(runs, c) <= RunOf(runs, c1)
  {
    hide Fold;
  }

  /** One interval of the set. */
  method CollectInterval(runs: seq<Run>, entry: (nat, nat) -> nat, pts: seq<nat>, lo: nat, hi: nat, idx0: nat,
          s0: Collected)
    returns (idx: nat, s: Collected)
    requires SortedRuns(runs) && lo <= hi && ImagesAre(runs, entry, pts, lo, s0)
    requires forall c: nat :: lo <= c < hi ==> InSet(pts, c) && RunOf(runs, c) < |runs| && idx0 <= RunOf(runs, c)
    requires forall c: nat :: lo <= c < hi ==> Fold(runs, entry, c) < UINT32_MAX
    ensures ImagesAre(runs, entry, pts, hi, s)
    ensures idx == if lo < hi then RunOf(runs, hi - 1) else idx0
  {
    idx, s := idx0, s0;
    var c := lo;
    hide InSet, RunOf, ImageBelow, Has, CollectedOk;
    while c < hi
      invariant lo <= c <= hi && ImagesAre(runs, entry, pts, c, s)
      invariant idx == if lo < c then RunOf(runs, c - 1) else idx0
    {
      if lo < c {
        RunsAscend(runs, c - 1, c);
      }
      idx := Advance(runs, idx, c);
      assert Fold(runs, entry, c) == entry(c, idx);
      s := Collect(s, entry(c, idx));
      forall d: nat ensures Has(s, d) <==> ImageBelow(runs, entry, pts, c + 1, d) {
        ImageNext(runs, entry, pts, c, d);
      }
      c := c + 1;
    }
  }

  /** The members of a set below c have been handled once all intervals below are. */
  lemma {:induction false} GapBefore(pts: seq<nat>, i: nat, x: nat)
    requires IsIntervalList(pts) && i % 2 == 0 && i < |pts| && x < pts[i] && (i > 0 ==> pts[i - 1] <= x)
    ensures !InSet(pts, x)
  {
    forall k: nat | k < |pts| / 2 ensures !(Lo(pts, k) <= x < Hi(pts, k)) {
      if 2 * k < i {
        assert pts[2 * k + 1] <= pts[i - 1];
      } else {
        assert pts[i] <= pts[2 * k];
      }
    }
  }

  lemma {:induction false} BeyondAll(pts: seq<nat>, x: nat)
    requires IsIntervalList(pts) && (pts != [] ==> pts[|pts| - 1] <= x)
    ensures !InSet(pts, x)
  {
    forall k: nat | k < |pts| / 2 ensures !(Lo(pts, k) <= x < Hi(pts, k)) {
      assert pts[2 * k + 1] <= pts[|pts| - 1];
    }
  }

  /** All images of the members of pts. */
  method CollectAll(runs: seq<Run>, entry: (nat, nat) -> nat, pts: seq<nat>) returns (s: Collected)
    requires SortedRuns(runs) && IsIntervalList(pts)
    requires forall c: nat :: InSet(pts, c) ==> RunOf(runs, c) < |runs| && Fold(runs, entry, c) < UINT32_MAX
    ensures CollectedOk(s)
    ensures forall d: nat :: Has(s, d) <==> exists x: nat :: InSet(pts, x) && Fold(runs, entry, x) == d
  {
    s := Collected([], UINT32_MAX, UINT32_MAX);
    var i, idx: nat := 0, 0;
    ghost var c: nat := 0;
    StartImages(runs, entry, pts);
    while i < |pts|
      invariant 0 <= i <= |pts| && i % 2 == 0 && c == (if i == 0 then 0 else pts[i - 1])
      invariant ImagesAre(runs, entry, pts, c, s)
      invariant forall x: nat :: c <= x && InSet(pts, x) ==> idx <= RunOf(runs, x)
    {
      var lo, hi := pts[i], pts[i + 1];
      SkipGap(runs, entry, pts, i, c, s);
      IntervalInside(pts, i);
      idx, s := CollectInterval(runs, entry, pts, lo, hi, idx, s);
      NextIndex(runs, pts, lo, hi, c, idx);
      c := hi;
      i := i + 2;
    }
    FinalImages(runs, entry, pts, c, s);
  }

  lemma {:induction false} StartImages(runs: seq<Run>, entry: (nat, nat) -> nat, pts: seq<nat>)
    ensures ImagesAre(runs, entry, pts, 0, Collected([], UINT32_MAX, UINT32_MAX))
  {}

  lemma {:induction false} SkipGap(runs: seq<Run>, entry: (nat, nat) -> nat, pts: seq<nat>, i: nat, c: nat,
          s: Collected)
    requires IsIntervalList(pts) && i % 2 == 0 && i < |pts| && c == (if i == 0 then 0 else pts[i - 1])
    requires ImagesAre(runs, entry, pts, c, s)
    ensures c <= pts[i] && ImagesAre(runs, entry, pts, pts[i], s)
  {
    hide InSet, Has, ImageBelow;
    forall x: nat | c <= x < pts[i] ensures !InSet(pts, x) {
      GapBefore(pts, i, x);
    }
    forall d: nat ensures Has(s, d) <==> ImageBelow(runs, entry, pts, pts[i], d) {
      ImageGap(runs, entry, pts, c, pts[i], d);
    }
  }

  lemma {:induction false} IntervalInside(pts: seq<nat>, i: nat)
    requires IsIntervalList(pts) && i % 2 == 0 && i < |pts|
    ensures pts[i] <= pts[i + 1] && forall c: nat :: pts[i] <= c < pts[i + 1] ==> InSet(pts, c)
  {
    forall c: nat | pts[i] <= c < pts[i + 1] ensures InSet(pts, c) {
      assert Lo(pts, i / 2) <= c < Hi(pts, i / 2);
    }
  }

  lemma {:induction false} NextIndex(runs: seq<Run>, pts: seq<nat>, lo: nat, hi: nat, c: nat, idx: nat)
    requires SortedRuns(runs) && forall x: nat :: InSet(pts, x) ==> RunOf(runs, x) < |runs|
    requires c <= lo <= hi && forall x: nat :: lo <= x < hi ==> InSet(pts, x)
    requires if lo < hi then idx == RunOf(runs, hi - 1)
             else forall x: nat :: c <= x && InSet(pts, x) ==> idx <= RunOf(runs, x)
    ensures forall x: nat :: hi <= x && InSet(pts, x) ==> idx <= RunOf(runs, x)
  {
    hide InSet, RunOf;
    forall x: nat | hi <= x && InSet(pts, x) ensures idx <= RunOf(runs, x) {
      if lo < hi {
        assert InSet(pts, hi - 1);
        RunsAscend(runs, hi - 1, x);
      }
    }
  }

  lemma {:induction false} FinalImages(runs: seq<Run>, entry: (nat, nat) -> nat, pts: seq<nat>, c: nat, s: Collected)
    requires IsIntervalList(pts) && c == (if pts == [] then 0 else pts[|pts| - 1]) && ImagesAre(runs, entry, pts, c, s)
    ensures forall d: nat :: Has(s, d) <==> exists x: nat :: InSet(pts, x) && Fold(runs, entry, x) == d
  {
    hide InSet, Has, Fold;
    forall d: nat ensures Has(s, d) <==> exists x: nat :: InSet(pts, x) && Fold(runs, entry, x) == d {
      if x: nat :| InSet(pts, x) && Fold(runs, entry, x) == d {
        if x >= c {
          BeyondAll(pts, x);
        }
      }
    }
  }

  /** d is the image of a member. */
  ghost predicate InImage(runs: seq<Run>, entry: (nat, nat) -> nat, pts: seq<nat>, d: nat) {
    exists x: nat :: InSet(pts, x) && Fold(runs, entry, x) == d
  }

  /** cr becomes its image under the folding function, as a canonical list. */
  method Canonicalize(cr: CharRange, runs: seq<Run>, entry: (nat, nat) -> nat, mask: seq<nat>)
    requires SortedRuns(runs) && CoversChanges(runs, entry, mask)
    requires IsIntervalList(cr.points) && forall i :: 0 <= i < |cr.points| ==> cr.points[i] <= UINT32_MAX
    modifies cr
    ensures Increasing(cr.points) && |cr.points| % 2 == 0
    ensures forall d: nat :: InSet(cr.points, d) <==> InImage(runs, entry, old(cr.points), d)
  {
    ghost var was := cr.points;
    var inter := new CharRange();
    inter.SetOp(mask, cr.points, Inter);
    var outside := new CharRange();
    outside.points := mask;
    outside.Invert();
    var sub := new CharRange();
    sub.SetOp(outside.points, cr.points, Inter);
    ghost var im := inter.points;
    InterMembers(mask, was, im);
    SubMembers(mask, outside.points, was, sub.points);
    var s := CollectAll(runs, entry, inter.points);
    var pts := s.points;
    if Open(s) {
      ForwardSnoc(s.points, s.start, s.end);
      pts := pts + [s.start, s.end];
    }
    CollectedPoints(s, pts);
    var result := SortAndRemoveOverlap(pts);
    cr.points := [];
    cr.SetOp(result, sub.points, Union);
    ImageSplit(runs, entry, mask, was, im, sub.points, result, cr.points);
  }

  lemma {:induction false} InterMembers(mask: seq<nat>, was: seq<nat>, r: seq<nat>)
    requires IsIntervalList(mask) && IsIntervalList(was) && Increasing(r) && |r| % 2 == 0
             && Combined(Inter, mask, was, r)
    ensures forall c: nat :: InSet(r, c) <==> InSet(mask, c) && InSet(was, c)
  {
    hide InSet, Inside;
    forall c: nat ensures InSet(r, c) <==> InSet(mask, c) && InSet(was, c) {
      OpIsSetOp(Inter, mask, was, r, c);
    }
  }

  lemma {:induction false} SubMembers(mask: seq<nat>, outside: seq<nat>, was: seq<nat>, r: seq<nat>)
    requires IsIntervalList(mask) && IsIntervalList(was) && IsBoundaryList(outside) && Complements(mask, outside)
    requires forall i :: 0 <= i < |was| ==> was[i] <= UINT32_MAX
    requires Increasing(r) && |r| % 2 == 0 && Combined(Inter, outside, was, r)
    ensures forall c: nat :: InSet(r, c) <==> InSet(was, c) && !InSet(mask, c)
    ensures forall c: nat :: InSet(was, c) ==> c < UINT32_MAX
  {
    hide InSet, Inside;
    forall c: nat ensures (InSet(r, c) <==> InSet(was, c) && !InSet(mask, c)) && (InSet(was, c) ==> c < UINT32_MAX) {
      OpIsSetOp(Inter, outside, was, r, c);
      InsideIsInSet(mask, c);
      InsideIsInSet(outside, c);
      if InSet(was, c) {
        BelowLast(was, c, UINT32_MAX);
      }
    }
  }

  lemma {:induction false} CollectedPoints(s: Collected, pts: seq<nat>)
    requires CollectedOk(s) && pts == if Open(s) then s.points + [s.start, s.end] else s.points
    ensures |pts| % 2 == 0 && forall d: nat :: InSet(pts, d) <==> Has(s, d)
  {
    hide InSet;
    if Open(s) {
      forall d: nat ensures InSet(pts, d) <==> Has(s, d) {
        InSetSnoc(s.points, s.start, s.end, d);
      }
    }
  }

  /** The changed and the unchanged members together make the image. */
  lemma {:induction false} ImageSplit(runs: seq<Run>, entry: (nat, nat) -> nat, mask: seq<nat>, was: seq<nat>,
          im: seq<nat>, sub: seq<nat>,
                                     result: seq<nat>, now: seq<nat>)
    requires CoversChanges(runs, entry, mask) && IsIntervalList(result) && Increasing(sub) && |sub| % 2 == 0
    requires forall c: nat :: InSet(im, c) <==> InSet(mask, c) && InSet(was, c)
    requires forall c: nat :: InSet(sub, c) <==> InSet(was, c) && !InSet(mask, c)
    requires forall c: nat :: InSet(was, c) ==> c < UINT32_MAX
    requires forall d: nat :: InSet(result, d) <==> exists x: nat :: InSet(im, x) && Fold(runs, entry, x) == d
    requires Increasing(now) && |now| % 2 == 0 && Combined(Union, result, sub, now)
    ensures forall d: nat :: InSet(now, d) <==> InImage(runs, entry, was, d)
  {
    hide InSet, Inside, Fold;
    forall d: nat ensures InSet(now, d) <==> InImage(runs, entry, was, d) {
      OpIsSetOp(Union, result, sub, now, d);
      if InSet(result, d) {
        var x: nat :| InSet(im, x) && Fold(runs, entry, x) == d;
        assert InSet(was, x);
      }
      if InSet(sub, d) {
        assert InSet(was, d) && Fold(runs, entry, d) == d;
      }
      if x: nat :| InSet(was, x) && Fold(runs, entry, x) == d {
        if InSet(mask, x) {
          assert InSet(im, x);
        } else {
          assert Fold(runs, entry, x) == x;
        }
      }
    }
  }
}
