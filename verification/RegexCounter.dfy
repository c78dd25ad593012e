/** Where "INT32_MAX stands for infinity" stops being true: an atom that would rather
    match nothing uses up the counter on empty passes.  Repeated {m,} it still finds
    the standard's match exactly while m plus the characters left is at most INT32_MAX. */
module RegexCounter {
  import opened Basics
  import opened RegexSyntax
  import opened RegexCode
  import opened RegexFrame
  import opened RegexAdvance
  import opened RegexProgram
  import opened RegexCapped

  // ----- atoms that prefer to match nothing -----

  /** Nothing first; and the first outcome that moves, if there is a character to
      consume, consumes exactly one. */
  ghost predicate Dawdles(ys: seq<State>, start: nat, len: nat) {
    && ys != [] && ys[0].end == start
    && (start < len ==>
          exists k :: 0 < k < |ys| && ys[k].end == start + 1 && forall i :: 0 <= i < k ==> ys[i].end == start)
  }

  /** A loop over the atom may start a pass at x. */
  ghost predicate Loops(env: Env, b: Node, g: nat, x: State) {
    WellFormed(b, |x.caps|) && g + Groups(b) <= |x.caps| && ValidState(env, x, |x.caps|)
  }

  /** The outcomes of one pass. */
  ghost function Pass(env: Env, b: Node, g: nat, x: State): (ys: seq<State>)
    requires Loops(env, b, g, x)
    ensures Forward(env, ys, |x.caps|, x.end)
  {
    Outcomes(env, b, g, State(x.end, Unset(x.caps, g, Groups(b))))
  }

  /** The atom dawdles wherever a pass may start on this subject. */
  ghost predicate Reluctant(env: Env, b: Node, g: nat, n: nat) {
    forall x: State :: |x.caps| == n && Loops(env, b, g, x) ==> Dawdles(Pass(env, b, g, x), x.end, |env.input|)
  }

  function Min(a: nat, b: nat): nat { if a < b then a else b }

  lemma {:induction false} FirstOfSeq(env: Env, b: Node, g: nat, min: nat, max: Bound, xs: seq<State>, n: nat,
          from: nat)
    requires WellFormed(b, n) && g + Groups(b) <= n && Forward(env, xs, n, from) && from <= |env.input| + 1 && xs != []
    requires Repeat(env, b, g, min, max, true, xs[0]) != []
    ensures RepeatSeq(env, b, g, min, max, true, xs, n, from) != []
    ensures RepeatSeq(env, b, g, min, max, true, xs, n, from)[0] == Repeat(env, b, g, min, max, true, xs[0])[0]
  {
    hide Repeat;
  }

  /** The first outcome that moved comes first among those that moved. */
  lemma {:induction false} FirstMove(env: Env, ys: seq<State>, start: nat, n: nat, k: nat)
    requires Forward(env, ys, n, start) && k < |ys| && ys[k].end != start
    requires forall i :: 0 <= i < k ==> ys[i].end == start
    ensures Advancing(env, ys, start, n) != [] && Advancing(env, ys, start, n)[0] == ys[k]
    decreases k
  {
    if k > 0 {
      assert forall i :: 0 <= i < |ys[1..]| ==> ys[1..][i] == ys[i + 1];
      FirstMove(env, ys[1..], start, n, k - 1);
    }
  }

  lemma {:induction false} RepeatUnfold(env: Env, b: Node, g: nat, m: nat, v: nat, x: State)
    requires Loops(env, b, g, x) && v > 0
    ensures var ys, n := Pass(env, b, g, x), |x.caps|;
            Repeat(env, b, g, m, Fin(v), true, x)
            == if m > 0 then RepeatSeq(env, b, g, m - 1, Fin(v - 1), true, ys, n, x.end)
               else RepeatSeq(env, b, g, 0, Fin(v - 1), true, Advancing(env, ys, x.end, n), n, x.end + 1) + [x]
  {
    hide Outcomes, RepeatSeq, Advancing, ValidState;
  }

  lemma {:induction false} NoPass(env: Env, b: Node, g: nat, x: State)
    requires Loops(env, b, g, x)
    ensures Repeat(env, b, g, 0, Fin(0), true, x) == [x] && x.end <= |env.input|
  {}

  lemma LoopsFits(env: Env, b: Node, g: nat, x: State)
    requires Loops(env, b, g, x)
    ensures WellFormed(b, |x.caps|) && g + Groups(b) <= |x.caps| && x.end <= |env.input|
  {}

  lemma {:induction false} PassFits(env: Env, b: Node, g: nat, x: State, ys: seq<State>, from: nat, k: nat)
    requires Loops(env, b, g, x) && Forward(env, ys, |x.caps|, from) && k < |ys|
    ensures |ys[k].caps| == |x.caps| && Loops(env, b, g, ys[k])
  {}

  /** The first outcome of `b{m,v}`: the minimum is spent on empty passes, each further
      pass takes a character. */
  lemma {:induction false} FirstEnd(env: Env, b: Node, g: nat, m: nat, v: nat, x: State)
    requires Loops(env, b, g, x) && Reluctant(env, b, g, |x.caps|) && m <= v
    ensures var ys := Repeat(env, b, g, m, Fin(v), true, x);
            ys != [] && ys[0].end == Min(|env.input|, x.end + (v - m))
    decreases v, 1
  {
    hide Repeat, RepeatSeq, Pass, WellFormed, Advancing, Loops;
    if v == 0 {
      NoPass(env, b, g, x);
    } else {
      var ys := Pass(env, b, g, x);
      assert Dawdles(ys, x.end, |env.input|);
      RepeatUnfold(env, b, g, m, v, x);
      hide Reluctant;
      LoopsFits(env, b, g, x);
      if m > 0 {
        PassFits(env, b, g, x, ys, x.end, 0);
        FirstEnd(env, b, g, m - 1, v - 1, ys[0]);
        FirstOfSeq(env, b, g, m - 1, Fin(v - 1), ys, |x.caps|, x.end);
      } else {
        FirstFurther(env, b, g, v, x, ys);
      }
    }
  }

  lemma {:induction false} FirstFurther(env: Env, b: Node, g: nat, v: nat, x: State, ys: seq<State>)
    requires Loops(env, b, g, x) && Reluctant(env, b, g, |x.caps|) && v > 0
    requires ys == Pass(env, b, g, x) && Dawdles(ys, x.end, |env.input|)
    ensures var zs := Repeat(env, b, g, 0, Fin(v), true, x);
            zs != [] && zs[0].end == Min(|env.input|, x.end + v)
    decreases v, 0
  {
    hide Repeat, RepeatSeq, Advancing, Pass, Reluctant, WellFormed;
    var n := |x.caps|;
    var zs := Advancing(env, ys, x.end, n);
    RepeatUnfold(env, b, g, 0, v, x);
    if x.end < |env.input| {
      var k :| 0 < k < |ys| && ys[k].end == x.end + 1 && forall i :: 0 <= i < k ==> ys[i].end == x.end;
      FirstMove(env, ys, x.end, n, k);
      PassFits(env, b, g, x, zs, x.end + 1, 0);
      FirstEnd(env, b, g, 0, v - 1, zs[0]);
      FirstOfSeq(env, b, g, 0, Fin(v - 1), zs, n, x.end + 1);
    } else {
      ForwardInside(env, zs, n, x.end + 1);
      NoneRepeated(env, b, g, v - 1, n, x.end + 1);
    }
  }

  lemma {:induction false} NoneRepeated(env: Env, b: Node, g: nat, v: nat, n: nat, from: nat)
    requires WellFormed(b, n) && g + Groups(b) <= n && from <= |env.input| + 1
    ensures RepeatSeq(env, b, g, 0, Fin(v), true, [], n, from) == []
  {}

  /** Such an atom is compiled with the zero-advance check. */
  lemma {:induction false} ReluctantChecked(env: Env, b: Node, g: nat, x: State)
    requires Loops(env, b, g, x) && Reluctant(env, b, g, |x.caps|)
    ensures Checked(b, g)
  {
    hide Outcomes, Code;
    var xr := State(x.end, Unset(x.caps, g, Groups(b)));
    var ys := Pass(env, b, g, x);
    assert Dawdles(ys, x.end, |env.input|);
    if !Checked(b, g) {
      ScanSound(env, b, g, xr);
      assert false;
    }
  }

  /** Unbounded repetition consumes the rest of the subject. */
  lemma {:induction false} FirstUnbounded(env: Env, b: Node, g: nat, m: nat, x: State)
    requires Loops(env, b, g, x) && Reluctant(env, b, g, |x.caps|)
    ensures var ys := Repeat(env, b, g, m, Inf, true, x);
            ys != [] && ys[0].end == |env.input|
  {
    hide Repeat, Reluctant, Code;
    var v := m + (|env.input| - x.end);
    ReluctantChecked(env, b, g, x);
    FirstEnd(env, b, g, m, v, x);
    RepeatUnbounded(env, b, g, m, v, true, x);
  }

  /** The counted form the compiler emits and the standard's unbounded form have the
      same outcomes if and only if m plus the characters left is at most INT32_MAX. */
  lemma {:induction false} CounterExact(env: Env, b: Node, g: nat, m: nat, x: State)
    requires Loops(env, b, g, x) && Reluctant(env, b, g, |x.caps|) && m <= INT32_MAX
    ensures Repeat(env, b, g, m, Fin(INT32_MAX), true, x) == Repeat(env, b, g, m, Inf, true, x)
            <==> m + (|env.input| - x.end) <= INT32_MAX
  {
    hide Repeat, Code, Reluctant;
    if m + (|env.input| - x.end) <= INT32_MAX {
      ReluctantChecked(env, b, g, x);
      RepeatUnbounded(env, b, g, m, INT32_MAX, true, x);
    } else {
      FirstEnd(env, b, g, m, INT32_MAX, x);
      FirstUnbounded(env, b, g, m, x);
    }
  }

  // ----- the search -----

  /** `b{m,}` as a pattern. */
  function Many(b: Node, m: nat): Node { Quant(b, m, INT32_MAX, true) }

  /** A subject position with nothing captured yet. */
  function Fresh(b: Node, p: nat): State { State(p, Blank(1 + Groups(b))) }

  lemma {:induction false} FreshLoops(env: Env, b: Node, p: nat)
    requires WellFormed(b, 1 + Groups(b)) && p <= |env.input|
    ensures Loops(env, b, 1, Fresh(b, p)) && |Fresh(b, p).caps| == 1 + Groups(b)
  {}

  /** The search ends at its first position if the repetition succeeds there. */
  lemma {:induction false} SearchRepeat(env: Env, b: Node, m: nat, sticky: bool, p: nat)
    requires WellFormed(b, 1 + Groups(b)) && m <= INT32_MAX && p <= |env.input|
    ensures var ys := Repeat(env, b, 1, m, BoundOf(env, INT32_MAX), true, Fresh(b, p));
            ys != [] ==>
              Search(env, Many(b, m), sticky, p) == Some(State(ys[0].end, ys[0].caps[0 := Some((p, ys[0].end))]))
  {
    hide Repeat, Outcomes, Search, CloseGroup;
    var x := Fresh(b, p);
    SearchIsFirst(env, Many(b, m), sticky, p);
    GroupOutcomes(env, Many(b, m), 0, x);
    QuantOutcomes(env, b, m, INT32_MAX, true, 1, x);
    var ys := Outcomes(env, Many(b, m), 1, x);
    if ys != [] {
      var zs := CloseGroup(env, 0, p, ys, 1 + Groups(b));
      assert zs[0] == State(ys[0].end, ys[0].caps[0 := Some((p, ys[0].end))]);
      assert MatchesAt(env, Many(b, m), p) == zs;
    }
  }

  /** Where the match of `b{m,}` ends, with capped repetitions and without. */
  lemma {:induction false} SearchEnd(env: Env, b: Node, m: nat, sticky: bool, p: nat)
    requires WellFormed(b, 1 + Groups(b)) && Reluctant(env, b, 1, 1 + Groups(b)) && m <= INT32_MAX && p <= |env.input|
    ensures var r, end := Search(env, Many(b, m), sticky, p),
                          if env.capped then Min(|env.input|, p + (INT32_MAX - m)) else |env.input|;
            r.Some? && r.value.end == end && |r.value.caps| == 1 + Groups(b) && r.value.caps[0] == Some((p, end))
  {
    hide Repeat, Search, Reluctant, WellFormed, Loops;
    var x := Fresh(b, p);
    FreshLoops(env, b, p);
    SearchRepeat(env, b, m, sticky, p);
    if env.capped {
      FirstEnd(env, b, 1, m, INT32_MAX, x);
    } else {
      FirstUnbounded(env, b, 1, m, x);
    }
  }

  /** The condition under which the program is compiled correctly, for these patterns. */
  lemma {:induction false} SafeExact(env: Env, b: Node, m: nat)
    requires WellFormed(b, 1 + Groups(b)) && Reluctant(env, b, 1, 1 + Groups(b)) && CounterSafe(b, 1, |env.input|)
    requires m <= INT32_MAX && |env.input| <= INT32_MAX
    ensures CounterSafe(Group(Many(b, m)), 0, |env.input|) <==> m + |env.input| <= INT32_MAX
  {
    hide Code, Reluctant, Checked;
    var x := Fresh(b, 0);
    FreshLoops(env, b, 0);
    ReluctantChecked(env, b, 1, x);
  }

  /** The compiled pattern finds the standard's match if and only if m plus the characters
      left is at most INT32_MAX: the sufficient condition on counters is also necessary. */
  lemma {:induction false} SearchExact(env: Env, b: Node, m: nat, sticky: bool, p: nat)
    requires !env.capped && WellFormed(b, 1 + Groups(b)) && Reluctant(env, b, 1, 1 + Groups(b))
             && CounterSafe(b, 1, |env.input|)
    requires m <= INT32_MAX && p <= |env.input| <= INT32_MAX
    ensures Search(Capped(env), Many(b, m), sticky, p) == Search(env, Many(b, m), sticky, p)
            <==> m + (|env.input| - p) <= INT32_MAX
    ensures p == 0 ==> (Search(Capped(env), Many(b, m), sticky, p) == Search(env, Many(b, m), sticky, p)
                        <==> CounterSafe(Group(Many(b, m)), 0, |env.input|))
  {
    hide Repeat, Search, Reluctant, CounterSafe, WellFormed, Loops;
    var x := Fresh(b, p);
    FreshLoops(env, b, p);
    SafeExact(env, b, m);
    SearchRepeat(env, b, m, sticky, p);
    SearchRepeat(Capped(env), b, m, sticky, p);
    RepeatCapped(env, b, 1, m, Fin(INT32_MAX), true, x);
    FirstEnd(env, b, 1, m, INT32_MAX, x);
    FirstUnbounded(env, b, 1, m, x);
    CounterExact(env, b, 1, m, x);
  }

  // ----- such atoms -----

  /** The first outcome consumes one character wherever there is one. */
  ghost predicate TakesOne(env: Env, b: Node, g: nat, n: nat) {
    forall x: State :: |x.caps| == n && Loops(env, b, g, x) && x.end < |env.input| ==>
      Pass(env, b, g, x) != [] && Pass(env, b, g, x)[0].end == x.end + 1
  }

  /** `(?:|b)`. */
  lemma {:induction false} AltReluctant(env: Env, b: Node, g: nat, n: nat)
    requires TakesOne(env, b, g, n)
    ensures Reluctant(env, Alt(Empty, b), g, n)
  {
    hide Pass, Loops;
    forall x: State | |x.caps| == n && Loops(env, Alt(Empty, b), g, x)
      ensures Dawdles(Pass(env, Alt(Empty, b), g, x), x.end, |env.input|)
    {
      AltPass(env, b, g, x);
      var ys := Pass(env, Alt(Empty, b), g, x);
      if x.end < |env.input| {
        assert ys[1].end == x.end + 1;
      }
    }
  }

  lemma {:induction false} AltPass(env: Env, b: Node, g: nat, x: State)
    requires Loops(env, Alt(Empty, b), g, x)
    ensures Loops(env, b, g, x)
    ensures Pass(env, Alt(Empty, b), g, x) == [State(x.end, Unset(x.caps, g, Groups(b)))] + Pass(env, b, g, x)
  {
    hide Outcomes;
    var xr := State(x.end, Unset(x.caps, g, Groups(b)));
    AltOutcomes(env, Empty, b, g, xr);
    EmptyOutcome(env, g, xr);
  }

  lemma {:induction false} EmptyOutcome(env: Env, g: nat, x: State)
    requires g <= |x.caps| && ValidState(env, x, |x.caps|)
    ensures WellFormed(Empty, |x.caps|) && Outcomes(env, Empty, g, x) == [x]
  {}

  /** A group around such an atom. */
  lemma {:induction false} GroupReluctant(env: Env, b: Node, g: nat, n: nat)
    requires Reluctant(env, b, g + 1, n)
    ensures Reluctant(env, Group(b), g, n)
  {
    hide Pass, Loops;
    forall x: State | |x.caps| == n && Loops(env, Group(b), g, x)
      ensures Dawdles(Pass(env, Group(b), g, x), x.end, |env.input|)
    {
      var xr := GroupPass(env, b, g, x);
      SameEnds(Pass(env, b, g + 1, xr), Pass(env, Group(b), g, x), x.end, |env.input|);
    }
  }

  lemma {:induction false} SameEnds(ys: seq<State>, zs: seq<State>, start: nat, len: nat)
    requires Dawdles(ys, start, len) && |zs| == |ys| && forall i :: 0 <= i < |ys| ==> zs[i].end == ys[i].end
    ensures Dawdles(zs, start, len)
  {
    if start < len {
      var k :| 0 < k < |ys| && ys[k].end == start + 1 && forall i :: 0 <= i < k ==> ys[i].end == start;
      assert zs[k].end == start + 1;
    }
  }

  /** The group's outcomes end where the body's do, started with the group unset. */
  lemma {:induction false} GroupPass(env: Env, b: Node, g: nat, x: State) returns (xr: State)
    requires Loops(env, Group(b), g, x)
    ensures xr.end == x.end && |xr.caps| == |x.caps| && Loops(env, b, g + 1, xr)
    ensures var ys, zs := Pass(env, b, g + 1, xr), Pass(env, Group(b), g, x);
            |zs| == |ys| && forall i :: 0 <= i < |ys| ==> zs[i].end == ys[i].end
  {
    hide Outcomes, CloseGroup;
    xr := State(x.end, Unset(x.caps, g, Groups(Group(b))));
    GroupOutcomes(env, b, g, xr);
    assert Unset(xr.caps, g + 1, Groups(b)) == xr.caps;
  }

  /** `(?:|a)`: prefers to match nothing. */
  function LazyAtom(c: nat): (b: Node)
    ensures Groups(b) == 0 && forall n :: WellFormed(b, n)
  {
    assert forall n :: WellFormed(Empty, n) && WellFormed(Char(c), n);
    Alt(Empty, Char(c))
  }

  ghost predicate AllAre(env: Env, c: nat) {
    !env.utf16 && forall i :: 0 <= i < |env.input| ==> env.input[i] == c
  }

  lemma {:induction false} LazyReluctant(env: Env, c: nat, g: nat, n: nat)
    requires AllAre(env, c)
    ensures Reluctant(env, LazyAtom(c), g, n)
  {
    assert TakesOne(env, Char(c), g, n);
    AltReluctant(env, Char(c), g, n);
  }

  /** What the search for `(?:|a){m,}` finds at the start of a subject of a's. */
  lemma {:induction false} LazySearch(env: Env, c: nat, m: nat)
    requires AllAre(env, c) && m <= INT32_MAX
    ensures var end := if env.capped then Min(|env.input|, INT32_MAX - m) else |env.input|;
            Search(env, Many(LazyAtom(c), m), true, 0) == Some(State(end, [Some((0, end))]))
  {
    hide Search, Reluctant;
    LazyReluctant(env, c, 1, 1);
    SearchEnd(env, LazyAtom(c), m, true, 0);
    var caps := Search(env, Many(LazyAtom(c), m), true, 0).value.caps;
    assert caps == [caps[0]];
  }

  /** In particular `(?:|a){2147483647,}` on "a": the standard's match is "a", with
      capped repetitions, as compiled, it is empty. */
  lemma {:induction false} CounterFails()
    ensures var env, node := Env([97], false, false), Many(LazyAtom(97), INT32_MAX);
            && Search(env, node, true, 0) == Some(State(1, [Some((0, 1))]))
            && Search(Capped(env), node, true, 0) == Some(State(0, [Some((0, 0))]))
            && !CounterSafe(Group(node), 0, 1)
  {
    hide Search, Reluctant, CounterSafe;
    var env := Env([97], false, false);
    LazySearch(env, 97, INT32_MAX);
    LazySearch(Capped(env), 97, INT32_MAX);
    LazyReluctant(env, 97, 1, 1);
    LazySafe(97);
    SafeExact(env, LazyAtom(97), INT32_MAX);
  }

  lemma LazySafe(c: nat)
    ensures CounterSafe(LazyAtom(c), 1, 1)
  {}
}
