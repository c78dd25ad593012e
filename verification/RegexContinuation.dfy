/** The matchers of section 22.2.2 of ECMA-262 as the standard writes them, with
    continuations, and the proof that `Outcomes` is their meaning. */
module RegexContinuation {
  import opened Basics
  import opened RegexSyntax
  import opened RegexFrame

  /** A MatcherContinuation: a state or failure. */
  type Continuation = State --> Option<State>

  /** c accepts every state a matcher started at `from` can hand it. */
  ghost predicate Defined(env: Env, c: Continuation, n: nat, from: nat) {
    forall y: State :: ValidState(env, y, n) && from <= y.end ==> c.requires(y)
  }

  ghost function Match(env: Env, node: Node, g: nat, x: State, c: Continuation): Option<State>
    requires WellFormed(node, |x.caps|) && g + Groups(node) <= |x.caps| && ValidState(env, x, |x.caps|)
    requires Defined(env, c, |x.caps|, x.end)
    decreases node, 0, 0, 0, 0
  {
    match node
    case Empty => c(x)
    case Assert(kind) => if Holds(env, kind, x.end) then c(x) else None
    case BackRef(k) =>
      if x.caps[k].None? then c(x)
      else
        var q := Reread(env, x.caps[k].value.0, x.caps[k].value.1, x.end);
        if q.Some? then c(State(q.value, x.caps)) else None
    case Cat(a, b) => Match(env, a, g, x, Then(env, b, g + Groups(a), |x.caps|, x.end, c))
    case Alt(a, b) =>
      var r := Match(env, a, g, x, c);
      if r.Some? then r else Match(env, b, g + Groups(a), x, c)
    case Group(b) => Match(env, b, g + 1, x, Close(env, g, |x.caps|, x.end, c))
    case Look(neg, b) =>
      var r := Match(env, b, g, x, Succeed());
      if neg then (if r.Some? then None else c(x))
      else if r.None? then None
      else LookResult(env, b, g, x, r.value, c)
    case Quant(b, min, max, greedy) => RepeatMatch(env, b, g, min, BoundOf(env, max), greedy, x, c)
    case _ =>
      if x.end < |env.input| && Accepts(node, CharAt(env, x.end, |env.input|).0)
      then c(State(CharAt(env, x.end, |env.input|).1, x.caps)) else None
  }

  /** The continuation of the first part of a sequence. */
  ghost function Then(env: Env, b: Node, g: nat, n: nat, from: nat, c: Continuation): (k: Continuation)
    requires WellFormed(b, n) && g + Groups(b) <= n && Defined(env, c, n, from)
    ensures Defined(env, k, n, from)
    decreases b, 1, 0, 0, 0
  {
    (y: State) requires ValidState(env, y, n) && from <= y.end => Match(env, b, g, y, c)
  }

  /** The continuation that records a capture. */
  ghost function Close(env: Env, g: nat, n: nat, start: nat, c: Continuation): (k: Continuation)
    requires g < n && Defined(env, c, n, start)
    ensures Defined(env, k, n, start)
  {
    (y: State) requires ValidState(env, y, n) && start <= y.end => c(State(y.end, y.caps[g := Some((start, y.end))]))
  }

  ghost function Succeed(): Continuation { (y: State) => Some(y) }

  /** After a positive lookahead: its captures, the old position.  (The captures
      come from a state its matcher produced, hence are valid.) */
  ghost function LookResult(env: Env, b: Node, g: nat, x: State, y: State, c: Continuation): Option<State>
    requires ValidState(env, x, |x.caps|) && Defined(env, c, |x.caps|, x.end)
  {
    var z := State(x.end, y.caps);
    if ValidState(env, z, |x.caps|) then c(z) else None
  }

  /** RepeatMatcher, section 22.2.2.3.1. */
  ghost function RepeatMatch(env: Env, b: Node, g: nat, min: nat, max: Bound, greedy: bool, x: State,
          c: Continuation): Option<State>
    requires WellFormed(b, |x.caps|) && g + Groups(b) <= |x.caps| && ValidState(env, x, |x.caps|)
    requires Defined(env, c, |x.caps|, x.end)
    decreases b, 2, min, |env.input| + 1 - x.end, 1
  {
    if max == Fin(0) then c(x)
    else
      var d := Again(env, b, g, min, max, greedy, |x.caps|, x.end, c);
      var xr := State(x.end, Unset(x.caps, g, Groups(b)));
      if min > 0 then Match(env, b, g, xr, d)
      else if greedy then
        var z := Match(env, b, g, xr, d);
        if z.Some? then z else c(x)
      else
        var z := c(x);
        if z.Some? then z else Match(env, b, g, xr, d)
  }

  /** The continuation of one pass: an empty optional pass fails. */
  ghost function Again(env: Env, b: Node, g: nat, min: nat, max: Bound, greedy: bool, n: nat, start: nat,
          c: Continuation): (d: Continuation)
    requires WellFormed(b, n) && g + Groups(b) <= n && Defined(env, c, n, start) && start <= |env.input|
    ensures Defined(env, d, n, start)
    decreases b, 2, min, |env.input| + 1 - start, 0
  {
    (y: State) requires ValidState(env, y, n) && start <= y.end =>
      if min == 0 && y.end == start then None
      else RepeatMatch(env, b, g, if min == 0 then 0 else min - 1, Pred(max), greedy, y, c)
  }

  // ----- equivalence -----

  /** Try the continuation on each outcome until it succeeds. */
  ghost function First(env: Env, c: Continuation, ys: seq<State>, n: nat, from: nat): Option<State>
    requires Defined(env, c, n, from) && Forward(env, ys, n, from)
    decreases |ys|
  {
    if ys == [] then None
    else
      var r := c(ys[0]);
      if r.Some? then r else First(env, c, ys[1..], n, from)
  }

  lemma {:induction false} FirstConcat(env: Env, c: Continuation, a: seq<State>, b: seq<State>, n: nat, from: nat)
    requires Defined(env, c, n, from) && Forward(env, a, n, from) && Forward(env, b, n, from)
    ensures Forward(env, a + b, n, from)
    ensures First(env, c, a + b, n, from) ==
            if First(env, c, a, n, from).Some? then First(env, c, a, n, from) else First(env, c, b, n, from)
    decreases |a|
  {
    hide ValidState;
    if a == [] {
      assert a + b == b;
    } else {
      assert (a + b)[0] == a[0] && (a + b)[1..] == a[1..] + b;
      FirstConcat(env, c, a[1..], b, n, from);
    }
  }

  /** The lower bound only says where the continuation is defined. */
  lemma {:induction false} FirstFrom(env: Env, c: Continuation, ys: seq<State>, n: nat, from: nat, from': nat)
    requires Defined(env, c, n, from) && Forward(env, ys, n, from) && from <= from' && Forward(env, ys, n, from')
    ensures First(env, c, ys, n, from) == First(env, c, ys, n, from')
    decreases |ys|
  {
    hide ValidState;
    if ys != [] {
      FirstFrom(env, c, ys[1..], n, from, from');
    }
  }

  lemma {:induction false} FirstOne(env: Env, c: Continuation, y: State, n: nat, from: nat)
    requires Defined(env, c, n, from) && ValidState(env, y, n) && from <= y.end
    ensures Forward(env, [y], n, from) && First(env, c, [y], n, from) == c(y)
  {
    hide ValidState;
    assert [y][1..] == [];
  }

  lemma {:induction false} MatchUnfold(env: Env, node: Node, g: nat, x: State, c: Continuation)
    requires WellFormed(node, |x.caps|) && g + Groups(node) <= |x.caps| && ValidState(env, x, |x.caps|)
    requires Defined(env, c, |x.caps|, x.end)
    ensures node.Cat? ==>
      Match(env, node, g, x, c) == Match(env, node.first, g, x,
        Then(env, node.second, g + Groups(node.first), |x.caps|, x.end, c))
    ensures node.Alt? ==>
      var r := Match(env, node.first, g, x, c);
      Match(env, node, g, x, c) == if r.Some? then r else Match(env, node.second, g + Groups(node.first), x, c)
    ensures node.Group? ==>
      Match(env, node, g, x, c) == Match(env, node.body, g + 1, x, Close(env, g, |x.caps|, x.end, c))
    ensures node.Quant? ==>
      Match(env, node, g, x, c) == RepeatMatch(env, node.body, g, node.min, BoundOf(env, node.max), node.greedy, x, c)
  {
    hide RepeatMatch, Then, Close, LookResult, Reread, Holds, Accepts;
  }

  /** The standard's matcher succeeds with the first outcome its continuation
      accepts: for every pattern, state and continuation. */
  lemma {:induction false} MatchIsFirst(env: Env, node: Node, g: nat, x: State, c: Continuation)
    requires WellFormed(node, |x.caps|) && g + Groups(node) <= |x.caps| && ValidState(env, x, |x.caps|)
    requires Defined(env, c, |x.caps|, x.end)
    ensures Match(env, node, g, x, c) == First(env, c, Outcomes(env, node, g, x), |x.caps|, x.end)
    decreases node, 0, 0, 0, 0
  {
    hide Outcomes, OutcomesSeq, CloseGroup, Repeat, RepeatMatch, ValidState, Match, First, Then, Close;
    var n := |x.caps|;
    match node
    case Cat(a, b) =>
      var k := Then(env, b, g + Groups(a), n, x.end, c);
      MatchIsFirst(env, a, g, x, k);
      CatOutcomes(env, a, b, g, x);
      MatchUnfold(env, node, g, x, c);
      ThenSeq(env, b, g + Groups(a), n, x.end, c, Outcomes(env, a, g, x));
    case Alt(a, b) =>
      MatchIsFirst(env, a, g, x, c);
      MatchIsFirst(env, b, g + Groups(a), x, c);
      AltOutcomes(env, a, b, g, x);
      MatchUnfold(env, node, g, x, c);
      FirstConcat(env, c, Outcomes(env, a, g, x), Outcomes(env, b, g + Groups(a), x), n, x.end);
    case Group(b) =>
      MatchIsFirst(env, b, g + 1, x, Close(env, g, n, x.end, c));
      GroupOutcomes(env, b, g, x);
      MatchUnfold(env, node, g, x, c);
      CloseSeq(env, g, n, x.end, c, Outcomes(env, b, g + 1, x));
    case Look(neg, b) =>
      MatchIsFirst(env, b, g, x, Succeed());
      LookOutcomes(env, neg, b, g, x);
      LookFirst(env, neg, b, g, x, c);
    case Quant(b, min, max, greedy) =>
      RepeatIsFirst(env, b, g, min, BoundOf(env, max), greedy, x, c);
      MatchUnfold(env, node, g, x, c);
      QuantOutcomes(env, b, min, max, greedy, g, x);
    case _ => LeafIsFirst(env, node, g, x, c);
  }

  lemma {:induction false} LeafIsFirst(env: Env, node: Node, g: nat, x: State, c: Continuation)
    requires WellFormed(node, |x.caps|) && g + Groups(node) <= |x.caps| && ValidState(env, x, |x.caps|)
    requires Defined(env, c, |x.caps|, x.end) && IsLeaf(node)
    ensures Match(env, node, g, x, c) == First(env, c, Outcomes(env, node, g, x), |x.caps|, x.end)
  {
    hide Repeat, RepeatMatch, OutcomesSeq, CloseGroup;
    var ys := Outcomes(env, node, g, x);
    LeafOutcomes(env, node, g, x);
    if ys != [] {
      assert ys == [ys[0]];
      FirstOne(env, c, ys[0], |x.caps|, x.end);
    }
  }

  lemma {:induction false} LookFirst(env: Env, neg: bool, b: Node, g: nat, x: State, c: Continuation)
    requires WellFormed(Look(neg, b), |x.caps|) && g + Groups(b) <= |x.caps| && ValidState(env, x, |x.caps|)
    requires Defined(env, c, |x.caps|, x.end)
    requires Match(env, b, g, x, Succeed()) == First(env, Succeed(), Outcomes(env, b, g, x), |x.caps|, x.end)
    requires var ys := Outcomes(env, b, g, x);
             Outcomes(env, Look(neg, b), g, x) == if neg != (ys == []) then [] else if neg then [x]
               else [State(x.end, ys[0].caps)]
    ensures Match(env, Look(neg, b), g, x, c) == First(env, c, Outcomes(env, Look(neg, b), g, x), |x.caps|, x.end)
  {
    hide Outcomes;
    var ys := Outcomes(env, b, g, x);
    if neg {
      FirstOne(env, c, x, |x.caps|, x.end);
    } else if ys != [] {
      FirstOne(env, c, State(x.end, ys[0].caps), |x.caps|, x.end);
    }
  }

  lemma {:induction false} ThenSeq(env: Env, b: Node, g: nat, n: nat, from: nat, c: Continuation, xs: seq<State>)
    requires WellFormed(b, n) && g + Groups(b) <= n && Defined(env, c, n, from) && Forward(env, xs, n, from)
    ensures First(env, Then(env, b, g, n, from, c), xs, n, from)
            == First(env, c, OutcomesSeq(env, b, g, xs, n, from), n, from)
    decreases b, 1, 0, 0, |xs|
  {
    hide Outcomes;
    if xs != [] {
      MatchIsFirst(env, b, g, xs[0], c);
      var ys := Outcomes(env, b, g, xs[0]);
      FirstFrom(env, c, ys, n, from, xs[0].end);
      ThenSeq(env, b, g, n, from, c, xs[1..]);
      FirstConcat(env, c, ys, OutcomesSeq(env, b, g, xs[1..], n, from), n, from);
    }
  }

  lemma {:induction false} CloseSeq(env: Env, g: nat, n: nat, start: nat, c: Continuation, ys: seq<State>)
    requires g < n && Defined(env, c, n, start) && Forward(env, ys, n, start)
    ensures First(env, Close(env, g, n, start, c), ys, n, start)
            == First(env, c, CloseGroup(env, g, start, ys, n), n, start)
    decreases |ys|
  {
    if ys != [] {
      CloseSeq(env, g, n, start, c, ys[1..]);
      assert CloseGroup(env, g, start, ys, n)[1..] == CloseGroup(env, g, start, ys[1..], n);
    }
  }

  lemma {:induction false} RepeatIsFirst(env: Env, b: Node, g: nat, min: nat, max: Bound, greedy: bool, x: State,
          c: Continuation)
    requires WellFormed(b, |x.caps|) && g + Groups(b) <= |x.caps| && ValidState(env, x, |x.caps|)
    requires Defined(env, c, |x.caps|, x.end)
    ensures RepeatMatch(env, b, g, min, max, greedy, x, c)
            == First(env, c, Repeat(env, b, g, min, max, greedy, x), |x.caps|, x.end)
    decreases b, 2, min, |env.input| + 1 - x.end, 1
  {
    hide Outcomes, RepeatSeq, Match, Again;
    var n := |x.caps|;
    FirstOne(env, c, x, n, x.end);
    if max != Fin(0) {
      var zs := Iterate(env, b, g, min, max, greedy, x);
      PassIsFirst(env, b, g, min, max, greedy, x, c);
      FirstConcat(env, c, zs, [x], n, x.end);
      FirstConcat(env, c, [x], zs, n, x.end);
    }
  }

  lemma {:induction false} PassIsFirst(env: Env, b: Node, g: nat, min: nat, max: Bound, greedy: bool, x: State,
          c: Continuation)
    requires WellFormed(b, |x.caps|) && g + Groups(b) <= |x.caps| && ValidState(env, x, |x.caps|)
    requires Defined(env, c, |x.caps|, x.end)
    ensures var xr := State(x.end, Unset(x.caps, g, Groups(b)));
            Match(env, b, g, xr, Again(env, b, g, min, max, greedy, |x.caps|, x.end, c))
            == First(env, c, Iterate(env, b, g, min, max, greedy, x), |x.caps|, x.end)
    decreases b, 2, min, |env.input| + 1 - x.end, 0
  {
    hide Outcomes, RepeatSeq, Match, Again, First;
    var n := |x.caps|;
    var xr := State(x.end, Unset(x.caps, g, Groups(b)));
    var d := Again(env, b, g, min, max, greedy, n, x.end, c);
    MatchIsFirst(env, b, g, xr, d);
    var ys := Outcomes(env, b, g, xr);
    if min > 0 {
      AgainSeq(env, b, g, min, max, greedy, n, x.end, c, ys);
    } else {
      AgainMoved(env, b, g, max, greedy, n, x.end, c, ys);
      FirstFrom(env, c, RepeatSeq(env, b, g, 0, Pred(max), greedy, Advancing(env, ys, x.end, n), n, x.end + 1), n,
        x.end, x.end + 1);
    }
  }

  lemma {:induction false} AgainSeq(env: Env, b: Node, g: nat, min: nat, max: Bound, greedy: bool, n: nat, start: nat,
          c: Continuation, ys: seq<State>)
    requires WellFormed(b, n) && g + Groups(b) <= n && Defined(env, c, n, start) && start <= |env.input|
             && Forward(env, ys, n, start) && min > 0
    ensures First(env, Again(env, b, g, min, max, greedy, n, start, c), ys, n, start)
            == First(env, c, RepeatSeq(env, b, g, min - 1, Pred(max), greedy, ys, n, start), n, start)
    decreases b, 2, min - 1, |env.input| + 1 - start, |ys| + 2
  {
    hide Repeat, RepeatMatch, ValidState;
    if ys != [] {
      ValidSize(env, ys[0], n);
      var zs := Repeat(env, b, g, min - 1, Pred(max), greedy, ys[0]);
      RepeatIsFirst(env, b, g, min - 1, Pred(max), greedy, ys[0], c);
      FirstFrom(env, c, zs, n, start, ys[0].end);
      AgainSeq(env, b, g, min, max, greedy, n, start, c, ys[1..]);
      FirstConcat(env, c, zs, RepeatSeq(env, b, g, min - 1, Pred(max), greedy, ys[1..], n, start), n, start);
    }
  }

  lemma {:induction false} AgainMoved(env: Env, b: Node, g: nat, max: Bound, greedy: bool, n: nat, start: nat,
          c: Continuation, ys: seq<State>)
    requires WellFormed(b, n) && g + Groups(b) <= n && Defined(env, c, n, start) && start <= |env.input|
             && Forward(env, ys, n, start)
    ensures First(env, Again(env, b, g, 0, max, greedy, n, start, c), ys, n, start)
            == First(env, c, RepeatSeq(env, b, g, 0, Pred(max), greedy, Advancing(env, ys, start, n), n, start + 1), n,
              start + 1)
    decreases b, 2, 0, |env.input| + 1 - (start + 1), |ys| + 2
  {
    hide Repeat, RepeatMatch, ValidState;
    if ys != [] {
      assert forall i :: 0 <= i < |ys[1..]| ==> ys[1..][i] == ys[i + 1];
      var rest := Advancing(env, ys[1..], start, n);
      AgainMoved(env, b, g, max, greedy, n, start, c, ys[1..]);
      if ys[0].end != start {
        ValidSize(env, ys[0], n);
        var zs := Repeat(env, b, g, 0, Pred(max), greedy, ys[0]);
        RepeatIsFirst(env, b, g, 0, Pred(max), greedy, ys[0], c);
        FirstFrom(env, c, zs, n, start + 1, ys[0].end);
        var all := [ys[0]] + rest;
        assert all[0] == ys[0] && all[1..] == rest;
        FirstConcat(env, c, zs, RepeatSeq(env, b, g, 0, Pred(max), greedy, rest, n, start + 1), n, start + 1);
      }
    }
  }
}
