/** Vocabulary of the compiler's correctness proof: when the threads leaving a
    block of code are exactly a list of pattern outcomes. */
module RegexExplore {
  import opened Basics
  import opened RegexSyntax
  import opened RegexCode
  import opened RegexEval

  ghost predicate Placed(v: Machine, s: int, code: seq<Instr>) {
    0 <= s && s + |code| <= |v.code| && v.code[s..s + |code|] == code
  }

  lemma {:induction false} PlacedPart(v: Machine, s: int, a: seq<Instr>, b: seq<Instr>, c: seq<Instr>)
    requires Placed(v, s, a + b + c)
    ensures Placed(v, s, a) && Placed(v, s + |a|, b) && Placed(v, s + |a| + |b|, c)
  {
    var all := a + b + c;
    assert a == all[..|a|] && b == all[|a|..|a| + |b|] && c == all[|a| + |b|..];
    assert v.code[s..s + |a|] == v.code[s..s + |all|][..|a|];
    assert v.code[s + |a|..s + |a| + |b|] == v.code[s..s + |all|][|a|..|a| + |b|];
    assert v.code[s + |a| + |b|..s + |all|] == v.code[s..s + |all|][|a| + |b|..];
  }

  lemma {:induction false} PlacedTwo(v: Machine, s: int, a: seq<Instr>, b: seq<Instr>)
    requires Placed(v, s, a + b)
    ensures Placed(v, s, a) && Placed(v, s + |a|, b)
  {
    assert a + b == a + b + [];
    PlacedPart(v, s, a, b, []);
  }

  lemma {:induction false} PlacedAt(v: Machine, s: int, i: Instr)
    requires Placed(v, s, [i])
    ensures 0 <= s < |v.code| && v.code[s] == i
  {
    assert v.code[s..s + 1][0] == i;
  }

  lemma {:induction false} PlacedIndex(v: Machine, s: int, code: seq<Instr>, i: nat)
    requires Placed(v, s, code) && i < |code|
    ensures 0 <= s + i < |v.code| && v.code[s + i] == code[i]
  {
    assert v.code[s..s + |code|][i] == code[i];
  }

  lemma {:induction false} PlacedSlice(v: Machine, s: int, code: seq<Instr>, i: nat, part: seq<Instr>)
    requires Placed(v, s, code) && i + |part| <= |code| && code[i..i + |part|] == part
    ensures Placed(v, s + i, part)
  {
    assert v.code[s + i..s + i + |part|] == v.code[s..s + |code|][i..i + |part|];
  }

  /** Capture k of the array holds the pattern capture. */
  ghost predicate RelAt(o: Option<(nat, nat)>, cap: seq<int>, k: nat)
    requires 2 * k + 1 < |cap|
  {
    if o.None? then cap[2 * k + 1] == NULL
    else cap[2 * k] == o.value.0 && cap[2 * k + 1] == o.value.1
  }

  ghost predicate Agree(x: State, m: MState, lo: nat, hi: nat) {
    && m.pos == x.end && 2 * hi <= |m.cap| && hi <= |x.caps|
    && (forall k: nat :: lo <= k < hi ==> RelAt(x.caps[k], m.cap, k))
  }

  /** What a block may touch: captures g .. g+cnt and registers from d on; and
      which captures lo .. hi its exits are known to agree on. */
  datatype Frame = Frame(n: nat, g: nat, cnt: nat, d: nat, lo: nat, hi: nat)

  ghost predicate Keeps(fr: Frame, c: seq<int>, c': seq<int>) {
    && |c'| == |c|
    && (forall i :: 0 <= i < |c| && (i < 2 * fr.g || 2 * (fr.g + fr.cnt) <= i < 2 * fr.n + fr.d) ==> c'[i] == c[i])
  }

  ghost predicate ExitsAs(t: Thread, y: State, e: int, c: seq<int>, fr: Frame) {
    t.pc == e && Agree(y, t.m, fr.lo, fr.hi) && Keeps(fr, c, t.m.cap)
  }

  ghost predicate Exits(ts: seq<Thread>, ys: seq<State>, e: int, c: seq<int>, fr: Frame) {
    |ts| == |ys| && forall i :: 0 <= i < |ts| ==> ExitsAs(ts[i], ys[i], e, c, fr)
  }

  /** Every thread leaves w at e, and they are the states ys in order. */
  ghost predicate Explores(v: Machine, w: Window, t: Thread, ys: seq<State>, e: int, c: seq<int>, fr: Frame) {
    exists f: nat :: Leaves(v, w, t, f).Some? && Exits(Leaves(v, w, t, f).value, ys, e, c, fr)
  }

  ghost predicate ExploresAll(v: Machine, w: Window, ts: seq<Thread>, ys: seq<State>, e: int, c: seq<int>, fr: Frame) {
    exists f: nat :: LeavesAll(v, w, ts, f).Some? && Exits(LeavesAll(v, w, ts, f).value, ys, e, c, fr)
  }

  lemma {:induction false} ExitsConcat(ts: seq<Thread>, us: seq<Thread>, ys: seq<State>, zs: seq<State>, e: int,
          c: seq<int>, fr: Frame)
    requires Exits(ts, ys, e, c, fr) && Exits(us, zs, e, c, fr)
    ensures Exits(ts + us, ys + zs, e, c, fr)
  {
    hide ExitsAs;
    var a, b := ts + us, ys + zs;
    forall i | 0 <= i < |a| ensures ExitsAs(a[i], b[i], e, c, fr) {
      if i < |ts| {
        assert a[i] == ts[i] && b[i] == ys[i];
      } else {
        assert a[i] == us[i - |ts|] && b[i] == zs[i - |ts|];
      }
    }
  }

  lemma {:induction false} ExploresNone(v: Machine, w: Window, e: int, c: seq<int>, fr: Frame)
    ensures ExploresAll(v, w, [], [], e, c, fr)
  {
    assert LeavesAll(v, w, [], 0) == Some([]);
  }

  lemma {:induction false} ExploresCons(v: Machine, w: Window, ts: seq<Thread>, ys: seq<State>, zs: seq<State>, e: int,
          c: seq<int>, fr: Frame)
    requires ts != []
    requires Explores(v, w, ts[0], ys, e, c, fr) && ExploresAll(v, w, ts[1..], zs, e, c, fr)
    ensures ExploresAll(v, w, ts, ys + zs, e, c, fr)
  {
    hide Exits;
    var f: nat :| Leaves(v, w, ts[0], f).Some? && Exits(Leaves(v, w, ts[0], f).value, ys, e, c, fr);
    var f2: nat :| LeavesAll(v, w, ts[1..], f2).Some? && Exits(LeavesAll(v, w, ts[1..], f2).value, zs, e, c, fr);
    LeavesMore(v, w, ts[0], f, f + f2);
    LeavesAllMore(v, w, ts[1..], f2, f + f2);
    ExitsConcat(Leaves(v, w, ts[0], f).value, LeavesAll(v, w, ts[1..], f2).value, ys, zs, e, c, fr);
    assert LeavesAll(v, w, ts, f + f2).Some?;
  }

  /** A thread that has already left. */
  lemma {:induction false} ExploresExit(v: Machine, w: Window, t: Thread, y: State, e: int, c: seq<int>, fr: Frame)
    requires !Inside(w, e) && ExitsAs(t, y, e, c, fr)
    ensures Explores(v, w, t, [y], e, c, fr)
  {
    assert Leaves(v, w, t, 0) == Some([t]);
  }

  lemma {:induction false} ExploresFail(v: Machine, w: Window, t: Thread, e: int, c: seq<int>, fr: Frame)
    requires Inside(w, t.pc) && ValidThread(v, t) && Act(v, t) == Fail
    ensures Explores(v, w, t, [], e, c, fr)
  {
    hide Act;
    assert Leaves(v, w, t, 1) == Some([]);
  }

  lemma {:induction false} ExploresNext(v: Machine, w: Window, t: Thread, u: Thread, ys: seq<State>, e: int,
          c: seq<int>, fr: Frame)
    requires Inside(w, t.pc) && ValidThread(v, t) && Act(v, t) == Next(u)
    requires Explores(v, w, u, ys, e, c, fr)
    ensures Explores(v, w, t, ys, e, c, fr)
  {
    hide Exits, Act;
    var f: nat :| Leaves(v, w, u, f).Some? && Exits(Leaves(v, w, u, f).value, ys, e, c, fr);
    assert Leaves(v, w, t, f + 1) == After(v, w, t, Next(u), f);
  }

  lemma {:induction false} ExploresFork(v: Machine, w: Window, t: Thread, a: Thread, b: Thread, ya: seq<State>,
          yb: seq<State>, e: int, c: seq<int>, fr: Frame)
    requires Inside(w, t.pc) && ValidThread(v, t) && Act(v, t) == Fork(a, b)
    requires Explores(v, w, a, ya, e, c, fr) && Explores(v, w, b, yb, e, c, fr)
    ensures Explores(v, w, t, ya + yb, e, c, fr)
  {
    hide Exits, Act;
    var f: nat :| Leaves(v, w, a, f).Some? && Exits(Leaves(v, w, a, f).value, ya, e, c, fr);
    var f2: nat :| Leaves(v, w, b, f2).Some? && Exits(Leaves(v, w, b, f2).value, yb, e, c, fr);
    LeavesMore(v, w, a, f, f + f2);
    LeavesMore(v, w, b, f2, f + f2);
    ExitsConcat(Leaves(v, w, a, f).value, Leaves(v, w, b, f2).value, ya, yb, e, c, fr);
    assert Leaves(v, w, t, f + f2 + 1) == After(v, w, t, Fork(a, b), f + f2);
  }

  /** A block followed by whatever its exits explore. */
  lemma {:induction false} ExploresBlock(v: Machine, inner: Window, w: Window, t: Thread, ts: seq<Thread>, f: nat,
          ys: seq<State>, e: int, c: seq<int>, fr: Frame)
    requires Within(inner, w)
    requires Leaves(v, inner, t, f) == Some(ts) && ExploresAll(v, w, ts, ys, e, c, fr)
    ensures Explores(v, w, t, ys, e, c, fr)
  {
    hide Exits;
    var f2: nat :| LeavesAll(v, w, ts, f2).Some? && Exits(LeavesAll(v, w, ts, f2).value, ys, e, c, fr);
    Compose(v, inner, w, t, f, f2);
  }

  lemma {:induction false} ExploresWiden(v: Machine, inner: Window, w: Window, t: Thread, ys: seq<State>, e: int,
          c: seq<int>, fr: Frame)
    requires Within(inner, w) && !Inside(w, e)
    requires Explores(v, inner, t, ys, e, c, fr)
    ensures Explores(v, w, t, ys, e, c, fr)
  {
    hide Agree, Keeps;
    var f: nat :| Leaves(v, inner, t, f).Some? && Exits(Leaves(v, inner, t, f).value, ys, e, c, fr);
    Widen(v, inner, w, t, f);
  }

  ghost predicate Covers(fr: Frame, fr': Frame) {
    fr.n == fr'.n && fr.g <= fr'.g && fr'.g + fr'.cnt <= fr.g + fr.cnt && fr.d <= fr'.d && fr.lo == fr'.lo
      && fr.hi == fr'.hi
  }

  lemma {:induction false} KeepsTrans(fr: Frame, fr': Frame, c: seq<int>, c1: seq<int>, c2: seq<int>)
    requires Covers(fr, fr') && Keeps(fr, c, c1) && Keeps(fr', c1, c2)
    ensures Keeps(fr, c, c2)
  {
  }

  /** The same exploration seen from an earlier state and a wider frame. */
  lemma {:induction false} ExploresFrom(v: Machine, w: Window, t: Thread, ys: seq<State>, e: int, c: seq<int>,
          c1: seq<int>, fr: Frame, fr': Frame)
    requires Explores(v, w, t, ys, e, c1, fr') && Covers(fr, fr') && Keeps(fr, c, c1)
    ensures Explores(v, w, t, ys, e, c, fr)
  {
    hide Agree, Keeps;
    var f: nat :| Leaves(v, w, t, f).Some? && Exits(Leaves(v, w, t, f).value, ys, e, c1, fr');
    var us := Leaves(v, w, t, f).value;
    forall i | 0 <= i < |us| ensures ExitsAs(us[i], ys[i], e, c, fr) {
      assert ExitsAs(us[i], ys[i], e, c1, fr');
      KeepsTrans(fr, fr', c, c1, us[i].m.cap);
    }
    assert Exits(us, ys, e, c, fr);
  }

  // ----- lists of continuations -----

  lemma {:induction false} ExploresOutcomesSeq(v: Machine, w: Window, b: Node, g: nat, xs: seq<State>, ts: seq<Thread>,
          n: nat, from: nat, e: int, c: seq<int>, fr: Frame)
    requires WellFormed(b, n) && g + Groups(b) <= n && Forward(v.env, xs, n, from) && |ts| == |xs|
    requires forall i :: 0 <= i < |ts| ==> Explores(v, w, ts[i], Outcomes(v.env, b, g, xs[i]), e, c, fr)
    ensures ExploresAll(v, w, ts, OutcomesSeq(v.env, b, g, xs, n, from), e, c, fr)
    decreases |ts|
  {
    hide Outcomes, Explores, ExploresAll;
    if ts == [] {
      ExploresNone(v, w, e, c, fr);
    } else {
      assert forall i :: 0 <= i < |ts[1..]| ==> ts[1..][i] == ts[i + 1] && xs[1..][i] == xs[i + 1];
      ExploresOutcomesSeq(v, w, b, g, xs[1..], ts[1..], n, from, e, c, fr);
      assert Explores(v, w, ts[0], Outcomes(v.env, b, g, xs[0]), e, c, fr);
      ExploresCons(v, w, ts, Outcomes(v.env, b, g, xs[0]), OutcomesSeq(v.env, b, g, xs[1..], n, from), e, c, fr);
    }
  }

  lemma {:induction false} ExploresRepeatSeq(v: Machine, w: Window, b: Node, g: nat, min: nat, max: Bound, greedy: bool,
          xs: seq<State>, ts: seq<Thread>, n: nat, from: nat, e: int, c: seq<int>, fr: Frame)
    requires WellFormed(b, n) && g + Groups(b) <= n && Forward(v.env, xs, n, from) && from <= |v.env.input| + 1
             && |ts| == |xs|
    requires forall i :: 0 <= i < |ts| ==> Explores(v, w, ts[i], Repeat(v.env, b, g, min, max, greedy, xs[i]), e, c, fr)
    ensures ExploresAll(v, w, ts, RepeatSeq(v.env, b, g, min, max, greedy, xs, n, from), e, c, fr)
    decreases |ts|
  {
    hide Repeat, Explores, ExploresAll;
    if ts == [] {
      ExploresNone(v, w, e, c, fr);
    } else {
      assert forall i :: 0 <= i < |ts[1..]| ==> ts[1..][i] == ts[i + 1] && xs[1..][i] == xs[i + 1];
      ExploresRepeatSeq(v, w, b, g, min, max, greedy, xs[1..], ts[1..], n, from, e, c, fr);
      assert Explores(v, w, ts[0], Repeat(v.env, b, g, min, max, greedy, xs[0]), e, c, fr);
      ExploresCons(v, w, ts, Repeat(v.env, b, g, min, max, greedy, xs[0]),
        RepeatSeq(v.env, b, g, min, max, greedy, xs[1..], n, from), e, c, fr);
    }
  }

  /** The list after a pass once the minimum is reached: a pass that did not
      move contributes nothing. */
  ghost function MovedRepeat(env: Env, b: Node, g: nat, max: Bound, greedy: bool, start: nat, y: State): seq<State>
    requires WellFormed(b, |y.caps|) && g + Groups(b) <= |y.caps| && ValidState(env, y, |y.caps|)
  {
    if y.end == start then [] else Repeat(env, b, g, 0, max, greedy, y)
  }

  lemma {:induction false} ExploresMoved(v: Machine, w: Window, b: Node, g: nat, max: Bound, greedy: bool,
          xs: seq<State>, ts: seq<Thread>, n: nat, start: nat, e: int, c: seq<int>, fr: Frame)
    requires WellFormed(b, n) && g + Groups(b) <= n && Forward(v.env, xs, n, start) && start <= |v.env.input|
             && |ts| == |xs|
    requires forall i :: 0 <= i < |ts| ==> Explores(v, w, ts[i], MovedRepeat(v.env, b, g, max, greedy, start, xs[i]), e,
             c, fr)
    ensures ExploresAll(v, w, ts, RepeatSeq(v.env, b, g, 0, max, greedy, Advancing(v.env, xs, start, n), n, start + 1),
            e, c, fr)
    decreases |ts|
  {
    hide Repeat, Explores, ExploresAll;
    if ts == [] {
      ExploresNone(v, w, e, c, fr);
    } else {
      assert forall i :: 0 <= i < |ts[1..]| ==> ts[1..][i] == ts[i + 1] && xs[1..][i] == xs[i + 1];
      ExploresMoved(v, w, b, g, max, greedy, xs[1..], ts[1..], n, start, e, c, fr);
      assert Explores(v, w, ts[0], MovedRepeat(v.env, b, g, max, greedy, start, xs[0]), e, c, fr);
      var rest := Advancing(v.env, xs[1..], start, n);
      var tail := RepeatSeq(v.env, b, g, 0, max, greedy, rest, n, start + 1);
      ExploresCons(v, w, ts, MovedRepeat(v.env, b, g, max, greedy, start, xs[0]), tail, e, c, fr);
      if xs[0].end == start {
        assert [] + tail == tail;
      } else {
        var all := [xs[0]] + rest;
        assert all[0] == xs[0] && all[1..] == rest;
      }
    }
  }
}
