/** Capping repetitions at INT32_MAX passes, as the compiled counters do, changes
    nothing while the counters suffice. */
module RegexCapped {
  import opened Basics
  import opened RegexSyntax
  import opened RegexCode
  import opened RegexFrame
  import opened RegexAdvance
  import opened RegexProgram

  function Capped(env: Env): Env { env.(capped := true) }

  function Uncapped(env: Env): Env { env.(capped := false) }

  lemma {:induction false} ValidCapped(env: Env, x: State, n: nat)
    ensures ValidState(Capped(env), x, n) <==> ValidState(env, x, n)
  {}

  lemma {:induction false} ForwardCapped(env: Env, xs: seq<State>, n: nat, from: nat)
    ensures Forward(Capped(env), xs, n, from) <==> Forward(env, xs, n, from)
  {
    hide ValidState;
    if Forward(env, xs, n, from) {
      forall i | 0 <= i < |xs| ensures from <= xs[i].end && ValidState(Capped(env), xs[i], n) {
        ValidCapped(env, xs[i], n);
      }
    }
    if Forward(Capped(env), xs, n, from) {
      forall i | 0 <= i < |xs| ensures from <= xs[i].end && ValidState(env, xs[i], n) {
        ValidCapped(env, xs[i], n);
      }
    }
  }

  lemma {:induction false} RereadCapped(env: Env, p: nat, stop: nat, q: nat)
    requires p <= |env.input| && stop <= |env.input| && q <= |env.input|
    ensures Reread(Capped(env), p, stop, q) == Reread(env, p, stop, q)
    decreases stop - p
  {
    if p < stop && q < |env.input| {
      var (c1, p') := CharAt(env, p, stop);
      var (c2, q') := CharAt(env, q, |env.input|);
      if c1 == c2 {
        RereadCapped(env, p', stop, q');
      }
    }
  }

  lemma {:induction false} HoldsCapped(env: Env, kind: Assertion, pos: nat)
    requires pos <= |env.input|
    ensures Holds(Capped(env), kind, pos) == Holds(env, kind, pos)
    ensures pos < |env.input| ==> CharAt(Capped(env), pos, |env.input|) == CharAt(env, pos, |env.input|)
  {}

  lemma {:induction false} LeafCapped(env: Env, node: Node, g: nat, x: State)
    requires WellFormed(node, |x.caps|) && g + Groups(node) <= |x.caps| && ValidState(env, x, |x.caps|) && IsLeaf(node)
    ensures ValidState(Capped(env), x, |x.caps|) && Outcomes(Capped(env), node, g, x) == Outcomes(env, node, g, x)
  {
    hide Reread, Holds, CharAt, Accepts;
    ValidCapped(env, x, |x.caps|);
    HoldsCapped(env, if node.Assert? then node.kind else LineStart, x.end);
    if node.BackRef? && x.caps[node.k].Some? {
      RereadCapped(env, x.caps[node.k].value.0, x.caps[node.k].value.1, x.end);
    }
  }

  lemma {:induction false} OutcomesCapped(env: Env, node: Node, g: nat, x: State)
    requires WellFormed(node, |x.caps|) && g + Groups(node) <= |x.caps| && ValidState(env, x, |x.caps|)
    requires !env.capped && |env.input| <= INT32_MAX && CounterSafe(node, g, |env.input|)
    ensures ValidState(Capped(env), x, |x.caps|) && Outcomes(Capped(env), node, g, x) == Outcomes(env, node, g, x)
    decreases node, 0, 0, 0, 0
  {
    hide Outcomes, OutcomesSeq, CloseGroup, Repeat, ValidState, Code, Enough;
    var e, n := Capped(env), |x.caps|;
    ValidCapped(env, x, n);
    ValidSize(env, x, n);
    match node
    case Cat(a, b) =>
      CatOutcomes(env, a, b, g, x);
      CatOutcomes(e, a, b, g, x);
      OutcomesCapped(env, a, g, x);
      OutcomesSeqCapped(env, b, g + Groups(a), Outcomes(env, a, g, x), n, x.end);
    case Alt(a, b) =>
      AltOutcomes(env, a, b, g, x);
      AltOutcomes(e, a, b, g, x);
      OutcomesCapped(env, a, g, x);
      OutcomesCapped(env, b, g + Groups(a), x);
    case Group(b) =>
      GroupOutcomes(env, b, g, x);
      GroupOutcomes(e, b, g, x);
      OutcomesCapped(env, b, g + 1, x);
      CloseCapped(env, g, x.end, Outcomes(env, b, g + 1, x), n);
    case Look(neg, b) =>
      LookOutcomes(env, neg, b, g, x);
      LookOutcomes(e, neg, b, g, x);
      OutcomesCapped(env, b, g, x);
    case Quant(b, min, max, greedy) =>
      QuantOutcomes(env, b, min, max, greedy, g, x);
      QuantOutcomes(e, b, min, max, greedy, g, x);
      RepeatCapped(env, b, g, min, Fin(max), greedy, x);
      if max == INT32_MAX {
        LoopEnough(b, g, min, |env.input|);
        EnoughLess(!Checked(b, g), INT32_MAX, min, |env.input|, |env.input| - x.end);
        RepeatUnbounded(env, b, g, min, INT32_MAX, greedy, x);
      }
    case _ => LeafCapped(env, node, g, x);
  }

  lemma {:induction false} EnoughLess(advancing: bool, v: nat, min: nat, room: nat, less: int)
    requires Enough(advancing, v, min, room) && 0 <= less <= room
    ensures Enough(advancing, v, min, less)
  {}

  /** Whatever shape the loop takes, INT32_MAX passes are enough. */
  lemma {:induction false} LoopEnough(b: Node, g: nat, min: nat, len: nat)
    requires CounterSafe(Quant(b, min, INT32_MAX, true), g, len) && min <= INT32_MAX && len <= INT32_MAX
    ensures Enough(!Checked(b, g), INT32_MAX, min, len)
  {
    hide Code, Checked;
  }

  lemma {:induction false} CloseCapped(env: Env, g: nat, start: nat, ys: seq<State>, n: nat)
    requires g < n && Forward(env, ys, n, start)
    ensures Forward(Capped(env), ys, n, start) && CloseGroup(Capped(env), g, start, ys, n)
            == CloseGroup(env, g, start, ys, n)
  {
    ForwardCapped(env, ys, n, start);
    hide Forward;
  }

  lemma {:induction false} OutcomesSeqCapped(env: Env, node: Node, g: nat, xs: seq<State>, n: nat, from: nat)
    requires WellFormed(node, n) && g + Groups(node) <= n && Forward(env, xs, n, from)
    requires !env.capped && |env.input| <= INT32_MAX && CounterSafe(node, g, |env.input|)
    ensures Forward(Capped(env), xs, n, from)
    ensures OutcomesSeq(Capped(env), node, g, xs, n, from) == OutcomesSeq(env, node, g, xs, n, from)
    decreases node, 1, 0, 0, |xs|
  {
    hide Outcomes, CounterSafe;
    ForwardCapped(env, xs, n, from);
    if xs != [] {
      OutcomesCapped(env, node, g, xs[0]);
      assert forall i :: 0 <= i < |xs[1..]| ==> xs[1..][i] == xs[i + 1];
      OutcomesSeqCapped(env, node, g, xs[1..], n, from);
    }
  }

  /** The same bound under both readings. */
  lemma {:induction false} RepeatCapped(env: Env, b: Node, g: nat, min: nat, max: Bound, greedy: bool, x: State)
    requires WellFormed(b, |x.caps|) && g + Groups(b) <= |x.caps| && ValidState(env, x, |x.caps|)
    requires !env.capped && |env.input| <= INT32_MAX && CounterSafe(b, g, |env.input|)
    ensures ValidState(Capped(env), x, |x.caps|)
    ensures Repeat(Capped(env), b, g, min, max, greedy, x) == Repeat(env, b, g, min, max, greedy, x)
    decreases b, 2, min, |env.input| + 1 - x.end, 1
  {
    hide Outcomes, RepeatSeq, Advancing, CounterSafe, Forward;
    var n := |x.caps|;
    ValidCapped(env, x, n);
    if max != Fin(0) {
      var xr := State(x.end, Unset(x.caps, g, Groups(b)));
      OutcomesCapped(env, b, g, xr);
      var ys := Outcomes(env, b, g, xr);
      ForwardCapped(env, ys, n, x.end);
      if min > 0 {
        RepeatSeqCapped(env, b, g, min - 1, Pred(max), greedy, ys, n, x.end);
      } else {
        AdvancingCapped(env, ys, x.end, n);
        RepeatSeqCapped(env, b, g, 0, Pred(max), greedy, Advancing(env, ys, x.end, n), n, x.end + 1);
      }
    }
  }

  lemma {:induction false} AdvancingCapped(env: Env, ys: seq<State>, start: nat, n: nat)
    requires Forward(env, ys, n, start)
    ensures Forward(Capped(env), ys, n, start) && Advancing(Capped(env), ys, start, n) == Advancing(env, ys, start, n)
    decreases |ys|
  {
    ForwardCapped(env, ys, n, start);
    if ys != [] {
      assert forall i :: 0 <= i < |ys[1..]| ==> ys[1..][i] == ys[i + 1];
      AdvancingCapped(env, ys[1..], start, n);
    }
  }

  lemma {:induction false} RepeatSeqCapped(env: Env, b: Node, g: nat, min: nat, max: Bound, greedy: bool,
          xs: seq<State>,
                                           n: nat, from: nat)
    requires WellFormed(b, n) && g + Groups(b) <= n && Forward(env, xs, n, from) && from <= |env.input| + 1
    requires !env.capped && |env.input| <= INT32_MAX && CounterSafe(b, g, |env.input|)
    ensures Forward(Capped(env), xs, n, from)
    ensures RepeatSeq(Capped(env), b, g, min, max, greedy, xs, n, from)
            == RepeatSeq(env, b, g, min, max, greedy, xs, n, from)
    decreases b, 2, min, |env.input| + 1 - from, |xs| + 2
  {
    hide Repeat, CounterSafe;
    ForwardCapped(env, xs, n, from);
    if xs != [] {
      RepeatCapped(env, b, g, min, max, greedy, xs[0]);
      assert forall i :: 0 <= i < |xs[1..]| ==> xs[1..][i] == xs[i + 1];
      RepeatSeqCapped(env, b, g, min, max, greedy, xs[1..], n, from);
    }
  }

  lemma {:induction false} AllMatchesCapped(env: Env, node: Node, sticky: bool, p: nat)
    requires WellFormed(node, CaptureCount(node)) && p <= |env.input|
    requires !env.capped && |env.input| <= INT32_MAX && CounterSafe(Group(node), 0, |env.input|)
    ensures AllMatches(Capped(env), node, sticky, p) == AllMatches(env, node, sticky, p)
    decreases |env.input| - p
  {
    hide Outcomes, CounterSafe;
    OutcomesCapped(env, Group(node), 0, State(p, Blank(CaptureCount(node))));
    if !(sticky || p == |env.input|) {
      AllMatchesCapped(env, node, sticky, CharAt(env, p, |env.input|).1);
    }
  }

  /** While the counters suffice, the capped search is the standard's. */
  lemma {:induction false} SearchCapped(env: Env, node: Node, sticky: bool, p: nat)
    requires WellFormed(node, CaptureCount(node)) && p <= |env.input|
    requires |env.input| <= INT32_MAX && CounterSafe(Group(node), 0, |env.input|)
    ensures Search(Capped(env), node, sticky, p) == Search(Uncapped(env), node, sticky, p)
  {
    hide Search, AllMatches, CounterSafe;
    AllMatchesCapped(Uncapped(env), node, sticky, p);
    SearchIsFirst(Capped(env), node, sticky, p);
    SearchIsFirst(Uncapped(env), node, sticky, p);
    assert Capped(Uncapped(env)) == Capped(env);
  }
}
