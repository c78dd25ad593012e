/** Compilation preserves meaning: the code emitted for a pattern explores
    exactly the pattern's outcomes, in the same order and with the same
    captures, from every state and at every place in a program. */
module RegexCompile {
  import opened Basics
  import opened RegexSyntax
  import opened RegexCode
  import opened RegexEval
  import opened RegexFrame
  import opened RegexAdvance
  import opened RegexExplore
  import opened RegexSteps
  import opened RegexLoops

  lemma {:induction false} CatSound(v: Machine, a: Node, b: Node, g: nat, d: nat, s: int, x: State, m: MState)
    requires Ready(v, Cat(a, b), g, d, s, x, m)
    ensures Sound(v, Cat(a, b), g, d, s, x, m)
    decreases Cat(a, b), 2
  {
    hide Code, Outcomes, OutcomesSeq, Explores, ExploresAll, Placed, Registers, CounterSafe, SubjectOk, Keeps, Tame,
         Agree;
    var ca, cb := Code(a, g, d, false), Code(b, g + Groups(a), d, false);
    CatUnfold(a, b, g, d, false);
    CatOutcomes(v.env, a, b, g, x);
    PlacedTwo(v, s, ca, cb);
    var mid, e := s + |ca|, s + |ca| + |cb|;
    FitPart(v, Cat(a, b), g, d, x, m, a, g, x, m);
    NodeSound(v, a, g, d, s, x, m);
    var ys := Outcomes(v.env, a, g, x);
    var f, ts := ExitList(v, Window(s, mid), Thread(s, m), ys, mid, m.cap, Own(v, a, g, d));
    OutcomesTame(v.env, a, g, x);
    forall i | 0 <= i < |ts|
      ensures Explores(v, Window(s, e), ts[i], Outcomes(v.env, b, g + Groups(a), ys[i]), e, m.cap,
              Own(v, Cat(a, b), g, d))
    {
      CatNext(v, a, b, g, d, s, x, m, mid, e, ts[i], ys[i]);
    }
    ExploresOutcomesSeq(v, Window(s, e), b, g + Groups(a), ys, ts, v.n, x.end, e, m.cap, Own(v, Cat(a, b), g, d));
    ExploresBlock(v, Window(s, mid), Window(s, e), Thread(s, m), ts, f, Outcomes(v.env, Cat(a, b), g, x), e, m.cap,
      Own(v, Cat(a, b), g, d));
  }

  lemma {:induction false} CatNext(v: Machine, a: Node, b: Node, g: nat, d: nat, s: int, x: State, m: MState, mid: int,
          e: int, t: Thread, y: State)
    requires Fit(v, Cat(a, b), g, d, x, m) && UnsetFrom(x, g, Groups(Cat(a, b)))
    requires s <= mid && Placed(v, mid, Code(b, g + Groups(a), d, false))
             && e == mid + |Code(b, g + Groups(a), d, false)|
    requires ExitsAs(t, y, mid, m.cap, Own(v, a, g, d)) && Tame(a, g, x.caps, y.caps) && ValidState(v.env, y, v.n)
    ensures Explores(v, Window(s, e), t, Outcomes(v.env, b, g + Groups(a), y), e, m.cap, Own(v, Cat(a, b), g, d))
    decreases Cat(a, b), 0
  {
    hide Code, Outcomes, Explores, Placed;
    FitPart(v, Cat(a, b), g, d, x, m, b, g + Groups(a), y, t.m);
    NodeSound(v, b, g + Groups(a), d, mid, y, t.m);
    ExploresWiden(v, Window(mid, e), Window(s, e), t, Outcomes(v.env, b, g + Groups(a), y), e, t.m.cap,
      Own(v, b, g + Groups(a), d));
    ExploresFrom(v, Window(s, e), t, Outcomes(v.env, b, g + Groups(a), y), e, m.cap, t.m.cap, Own(v, Cat(a, b), g, d),
      Own(v, b, g + Groups(a), d));
  }

  /** The first alternative, and the jump over the second. */
  lemma {:induction false} AltFirst(v: Machine, a: Node, b: Node, g: nat, d: nat, s: int, x: State, m: MState, rel: nat,
          w: Window)
    requires Fit(v, Alt(a, b), g, d, x, m) && UnsetFrom(x, g, Groups(a)) && Placed(v, s + 1, Code(a, g, d, false))
             && 0 <= s
    requires var p := s + 1 + |Code(a, g, d, false)|;
             p < |v.code| && v.code[p] == IGoto(rel) && w == Window(s, p + 1 + rel)
    ensures Explores(v, w, Thread(s + 1, m), Outcomes(v.env, a, g, x), s + 2 + |Code(a, g, d, false)| + rel, m.cap,
            Own(v, Alt(a, b), g, d))
    decreases Alt(a, b), 1
  {
    hide Code, Outcomes, Explores, ExploresAll, Placed, Act, Agree, Registers, CounterSafe, SubjectOk, Keeps, ExitsAs;
    var p := s + 1 + |Code(a, g, d, false)|;
    var e, fr := p + 1 + rel, Own(v, Alt(a, b), g, d);
    FitPart(v, Alt(a, b), g, d, x, m, a, g, x, m);
    NodeSound(v, a, g, d, s + 1, x, m);
    var ya := Outcomes(v.env, a, g, x);
    KeepsSame(fr, m.cap);
    ExploresFrom(v, Window(s + 1, p), Thread(s + 1, m), ya, p, m.cap, m.cap, fr, Own(v, a, g, d));
    var f, ts := ExitList(v, Window(s + 1, p), Thread(s + 1, m), ya, p, m.cap, fr);
    ExploresJump(v, w, ts, ya, p, rel, e, m.cap, fr);
    ExploresBlock(v, Window(s + 1, p), w, Thread(s + 1, m), ts, f, ya, e, m.cap, fr);
  }

  lemma {:induction false} AltSecond(v: Machine, a: Node, b: Node, g: nat, d: nat, s: int, p: int, x: State, m: MState)
    requires Fit(v, Alt(a, b), g, d, x, m) && UnsetFrom(x, g + Groups(a), Groups(b))
             && Placed(v, p, Code(b, g + Groups(a), d, false)) && s <= p
    ensures var e := p + |Code(b, g + Groups(a), d, false)|;
            Explores(v, Window(s, e), Thread(p, m), Outcomes(v.env, b, g + Groups(a), x), e, m.cap,
              Own(v, Alt(a, b), g, d))
    decreases Alt(a, b), 1
  {
    hide Code, Outcomes, Explores, Placed, Agree, Registers, CounterSafe, SubjectOk, Keeps, ValidState, Forward;
    var e := p + |Code(b, g + Groups(a), d, false)|;
    var yb := Outcomes(v.env, b, g + Groups(a), x);
    FitPart(v, Alt(a, b), g, d, x, m, b, g + Groups(a), x, m);
    NodeSound(v, b, g + Groups(a), d, p, x, m);
    KeepsSame(Own(v, Alt(a, b), g, d), m.cap);
    ExploresWiden(v, Window(p, e), Window(s, e), Thread(p, m), yb, e, m.cap, Own(v, b, g + Groups(a), d));
    ExploresFrom(v, Window(s, e), Thread(p, m), yb, e, m.cap, m.cap, Own(v, Alt(a, b), g, d),
      Own(v, b, g + Groups(a), d));
  }

  lemma {:induction false} AltPlaced(v: Machine, s: int, ca: seq<Instr>, cb: seq<Instr>)
    requires Placed(v, s, AltCode(ca, cb))
    ensures 0 <= s && s + 1 + |ca| < |v.code| && v.code[s] == ISplit(true, |ca| + 1)
            && v.code[s + 1 + |ca|] == IGoto(|cb|)
    ensures Placed(v, s + 1, ca) && Placed(v, s + 2 + |ca|, cb) && |AltCode(ca, cb)| == |ca| + |cb| + 2
  {
    var split, jump := ISplit(true, |ca| + 1), IGoto(|cb|);
    assert AltCode(ca, cb) == [split] + ca + ([jump] + cb);
    hide Placed;
    PlacedPart(v, s, [split], ca, [jump] + cb);
    PlacedTwo(v, s + 1 + |ca|, [jump], cb);
    PlacedAt(v, s, split);
    PlacedAt(v, s + 1 + |ca|, jump);
  }

  lemma {:induction false} AltSound(v: Machine, a: Node, b: Node, g: nat, d: nat, s: int, x: State, m: MState)
    requires Ready(v, Alt(a, b), g, d, s, x, m)
    ensures Sound(v, Alt(a, b), g, d, s, x, m)
    decreases Alt(a, b), 2
  {
    hide Code, Outcomes, Explores, Placed, Act, Agree, Registers, CounterSafe, SubjectOk, Keeps, AltCode, ValidState,
         Forward;
    var ca, cb := Code(a, g, d, false), Code(b, g + Groups(a), d, false);
    AltUnfold(a, b, g, d, false);
    AltOutcomes(v.env, a, b, g, x);
    AltPlaced(v, s, ca, cb);
    var p, e := s + 1 + |ca|, s + 2 + |ca| + |cb|;
    PosOk(v, Alt(a, b), g, d, x, m);
    ActSplit(v, Thread(s, m), true, |ca| + 1);
    AltFirst(v, a, b, g, d, s, x, m, |cb|, Window(s, e));
    AltSecond(v, a, b, g, d, s, p + 1, x, m);
    ExploresFork(v, Window(s, e), Thread(s, m), Thread(s + 1, m), Thread(p + 1, m),
                 Outcomes(v.env, a, g, x), Outcomes(v.env, b, g + Groups(a), x), e, m.cap, Own(v, Alt(a, b), g, d));
  }

  // the group's start is written before its body, its end after every exit

  lemma {:induction false} GroupOpen(v: Machine, b: Node, g: nat, d: nat, x: State, m: MState)
    requires Fit(v, Group(b), g, d, x, m) && UnsetFrom(x, g, Groups(Group(b)))
    ensures Fit(v, b, g + 1, d, x, MState(m.pos, m.cap[2 * g := m.pos])) && UnsetFrom(x, g + 1, Groups(b))
  {
    var m1 := MState(m.pos, m.cap[2 * g := m.pos]);
    forall k: nat | k < v.n ensures RelAt(x.caps[k], m1.cap, k) {
      assert RelAt(x.caps[k], m.cap, k);
      assert 2 * k + 1 != 2 * g;
    }
    FitPart(v, Group(b), g, d, x, m, b, g + 1, x, m1);
  }

  lemma {:induction false} GroupClose(v: Machine, b: Node, g: nat, d: nat, m: MState, start: nat, t: Thread, y: State,
          p: int, e: int)
    requires g + 1 + Groups(b) <= v.n == |y.caps| && start == m.pos && 2 * v.n + d <= |m.cap|
    requires ExitsAs(t, y, p, m.cap[2 * g := m.pos], Own(v, b, g + 1, d))
    ensures ExitsAs(Thread(e, MState(t.m.pos, t.m.cap[2 * g + 1 := t.m.pos])),
            State(y.end, y.caps[g := Some((start, y.end))]),
                    e, m.cap, Own(v, Group(b), g, d))
  {
    var c := t.m.cap[2 * g + 1 := t.m.pos];
    var z := State(y.end, y.caps[g := Some((start, y.end))]);
    assert t.m.cap[2 * g] == m.pos;
    forall k: nat | k < v.n ensures RelAt(z.caps[k], c, k) {
      assert RelAt(y.caps[k], t.m.cap, k);
      assert 2 * k != 2 * g + 1;
    }
  }

  lemma {:induction false} GroupExits(v: Machine, w: Window, b: Node, g: nat, d: nat, m: MState, n: nat,
          ts: seq<Thread>, ys: seq<State>, p: int)
    requires g + 1 + Groups(b) <= v.n == n && 2 * v.n + d <= |m.cap| && Forward(v.env, ys, n, m.pos)
    requires Exits(ts, ys, p, m.cap[2 * g := m.pos], Own(v, b, g + 1, d))
    requires Inside(w, p) && !Inside(w, p + 1) && 0 <= p < |v.code| && v.code[p] == ISaveEnd(g)
    ensures ExploresAll(v, w, ts, CloseGroup(v.env, g, m.pos, ys, n), p + 1, m.cap, Own(v, Group(b), g, d))
    decreases |ts|
  {
    hide Explores, ExploresAll, Act, Agree, Keeps;
    var zs := CloseGroup(v.env, g, m.pos, ys, n);
    var fr := Own(v, Group(b), g, d);
    if ts == [] {
      ExploresNone(v, w, p + 1, m.cap, fr);
    } else {
      assert ExitsAs(ts[0], ys[0], p, m.cap[2 * g := m.pos], Own(v, b, g + 1, d));
      JumpPos(ts[0], ys[0], p, m.cap[2 * g := m.pos], Own(v, b, g + 1, d));
      ExitSize(ts[0], ys[0], p, m.cap[2 * g := m.pos], Own(v, b, g + 1, d));
      ActSave(v, ts[0], g);
      GroupClose(v, b, g, d, m, m.pos, ts[0], ys[0], p, p + 1);
      var u := Thread(p + 1, MState(ts[0].m.pos, ts[0].m.cap[2 * g + 1 := ts[0].m.pos]));
      ExploresExit(v, w, u, zs[0], p + 1, m.cap, fr);
      ExploresNext(v, w, ts[0], u, [zs[0]], p + 1, m.cap, fr);
      assert forall i :: 0 <= i < |ts[1..]| ==> ts[1..][i] == ts[i + 1] && ys[1..][i] == ys[i + 1];
      GroupExits(v, w, b, g, d, m, n, ts[1..], ys[1..], p);
      assert CloseGroup(v.env, g, m.pos, ys[1..], n) == zs[1..];
      ExploresCons(v, w, ts, [zs[0]], zs[1..], p + 1, m.cap, fr);
      assert [zs[0]] + zs[1..] == zs;
    }
  }

  lemma {:induction false} GroupSound(v: Machine, b: Node, g: nat, d: nat, s: int, x: State, m: MState)
    requires Ready(v, Group(b), g, d, s, x, m)
    ensures Sound(v, Group(b), g, d, s, x, m)
    decreases Group(b), 2
  {
    hide Code, Outcomes, Explores, ExploresAll, Placed, Act, Agree, Registers, CounterSafe, SubjectOk, Keeps, ExitsAs;
    var cb := Code(b, g + 1, d, false);
    AroundUnfold(b, false, g, d, false);
    GroupOutcomes(v.env, b, g, x);
    PlacedPart(v, s, [ISaveStart(g)], cb, [ISaveEnd(g)]);
    var p := s + 1 + |cb|;
    PlacedAt(v, s, ISaveStart(g));
    PlacedAt(v, p, ISaveEnd(g));
    PosOk(v, Group(b), g, d, x, m);
    var m1 := MState(m.pos, m.cap[2 * g := m.pos]);
    ActSave(v, Thread(s, m), g);
    GroupOpen(v, b, g, d, x, m);
    NodeSound(v, b, g + 1, d, s + 1, x, m1);
    var ys := Outcomes(v.env, b, g + 1, x);
    var w, fr := Window(s, p + 1), Own(v, Group(b), g, d);
    var f, ts := ExitList(v, Window(s + 1, p), Thread(s + 1, m1), ys, p, m1.cap, Own(v, b, g + 1, d));
    GroupExits(v, w, b, g, d, m, v.n, ts, ys, p);
    ExploresBlock(v, Window(s + 1, p), w, Thread(s + 1, m1), ts, f, Outcomes(v.env, Group(b), g, x), p + 1, m.cap, fr);
    ExploresNext(v, w, Thread(s, m), Thread(s + 1, m1), Outcomes(v.env, Group(b), g, x), p + 1, m.cap, fr);
  }

  // a lookahead runs its body to the matching instruction in the whole program

  lemma {:induction false} StopsHere(v: Machine, ts: seq<Thread>, ys: seq<State>, p: int, neg: bool, c: seq<int>,
          fr: Frame)
    requires Exits(ts, ys, p, c, fr) && (forall i :: 0 <= i < |ys| ==> ys[i].end <= |v.env.input|)
    requires 0 <= p < |v.code| && v.code[p] == ILookMatch(neg)
    ensures LeavesAll(v, Whole(v), ts, 1) == Some(ts)
    decreases |ts|
  {
    hide Act, Agree, Keeps;
    if ts != [] {
      assert ExitsAs(ts[0], ys[0], p, c, fr);
      JumpPos(ts[0], ys[0], p, c, fr);
      ActLook(v, ts[0], neg, 0);
      assert Leaves(v, Whole(v), ts[0], 1) == Some([ts[0]]);
      assert forall i :: 0 <= i < |ts[1..]| ==> ts[1..][i] == ts[i + 1] && ys[1..][i] == ys[i + 1];
      StopsHere(v, ts[1..], ys[1..], p, neg, c, fr);
      assert [ts[0]] + ts[1..] == ts;
    }
  }

  lemma {:induction false} LookResume(v: Machine, w: Window, t: Thread, neg: bool, s: int, e: int, inner: seq<Thread>,
          f: nat, z: State, c: seq<int>, fr: Frame)
    requires Inside(w, t.pc) && ValidThread(v, t) && Act(v, t) == Enter(neg, Thread(s + 1, t.m), e) && !Inside(w, e)
    requires Leaves(v, Whole(v), Thread(s + 1, t.m), f) == Some(inner) && AllLookMatch(v, inner, neg)
    requires neg == (inner == []) ==> ExitsAs(Thread(e, Resumed(t.m, neg, inner)), z, e, c, fr)
    ensures Explores(v, w, t, if neg != (inner == []) then [] else [z], e, c, fr)
  {
    hide Act, ExitsAs, AllLookMatch;
    assert Leaves(v, w, t, f + 1) == After(v, w, t, Enter(neg, Thread(s + 1, t.m), e), f);
    var r := Leaves(v, w, t, f + 1);
    if neg == (inner == []) {
      assert r == Some([Thread(e, Resumed(t.m, neg, inner))]);
    } else {
      assert r == Some([]);
    }
  }

  lemma {:induction false} LookSound(v: Machine, neg: bool, b: Node, g: nat, d: nat, s: int, x: State, m: MState)
    requires Ready(v, Look(neg, b), g, d, s, x, m)
    ensures Sound(v, Look(neg, b), g, d, s, x, m)
    decreases Look(neg, b), 2
  {
    hide Code, Outcomes, Explores, ExploresAll, Placed, Act, Agree, Registers, CounterSafe, SubjectOk, Keeps, ExitsAs;
    var cb := Code(b, g, d, false);
    AroundUnfold(b, neg, g, d, false);
    LookOutcomes(v.env, neg, b, g, x);
    PlacedPart(v, s, [ILook(neg, |cb| + 1)], cb, [ILookMatch(neg)]);
    var p, e := s + 1 + |cb|, s + 2 + |cb|;
    PlacedAt(v, s, ILook(neg, |cb| + 1));
    PlacedAt(v, p, ILookMatch(neg));
    PosOk(v, Look(neg, b), g, d, x, m);
    ActLook(v, Thread(s, m), neg, |cb| + 1);
    FitPart(v, Look(neg, b), g, d, x, m, b, g, x, m);
    NodeSound(v, b, g, d, s + 1, x, m);
    var ys := Outcomes(v.env, b, g, x);
    var fr := Own(v, Look(neg, b), g, d);
    var f, ts := ExitList(v, Window(s + 1, p), Thread(s + 1, m), ys, p, m.cap, Own(v, b, g, d));
    StopsHere(v, ts, ys, p, neg, m.cap, Own(v, b, g, d));
    Compose(v, Window(s + 1, p), Whole(v), Thread(s + 1, m), f, 1);
    AtMatch(v, ts, ys, p, neg, m.cap, fr);
    var z := if neg || ts == [] then x else State(x.end, ys[0].caps);
    if neg == (ts == []) {
      LookState(x, m, neg, ts, ys, p, e, fr);
    }
    LookResume(v, Window(s, e), Thread(s, m), neg, s, e, ts, f + 1, z, m.cap, fr);
  }

  lemma {:induction false} AtMatch(v: Machine, ts: seq<Thread>, ys: seq<State>, p: int, neg: bool, c: seq<int>,
          fr: Frame)
    requires Exits(ts, ys, p, c, fr) && 0 <= p < |v.code| && v.code[p] == ILookMatch(neg)
    requires forall i :: 0 <= i < |ys| ==> ys[i].end <= |v.env.input|
    ensures AllLookMatch(v, ts, neg)
  {
    hide Agree, Keeps;
    forall i | 0 <= i < |ts| ensures ts[i].pc == p && ts[i].m.pos == ys[i].end {
      assert ExitsAs(ts[i], ys[i], p, c, fr);
      JumpPos(ts[i], ys[i], p, c, fr);
    }
  }

  lemma {:induction false} LookState(x: State, m: MState, neg: bool, ts: seq<Thread>, ys: seq<State>, p: int, e: int,
          fr: Frame)
    requires Agree(x, m, fr.lo, fr.hi) && Exits(ts, ys, p, m.cap, fr) && neg == (ts == [])
    ensures ExitsAs(Thread(e, Resumed(m, neg, ts)), if neg then x else State(x.end, ys[0].caps), e, m.cap, fr)
  {
    if !neg {
      assert ExitsAs(ts[0], ys[0], p, m.cap, fr);
      var y, r := State(x.end, ys[0].caps), Resumed(m, neg, ts);
      forall k: nat | fr.lo <= k < fr.hi ensures RelAt(y.caps[k], r.cap, k) {
        assert RelAt(ys[0].caps[k], ts[0].m.cap, k);
      }
    }
  }

  lemma {:induction false} QuantSound(v: Machine, b: Node, min: nat, max: nat, greedy: bool, g: nat, d: nat, s: int,
          x: State, m: MState)
    requires Ready(v, Quant(b, min, max, greedy), g, d, s, x, m)
    ensures Sound(v, Quant(b, min, max, greedy), g, d, s, x, m)
    decreases Quant(b, min, max, greedy), 2
  {
    hide Code, Outcomes, Explores, Placed, Act, Agree, Registers, CounterSafe, SubjectOk, Keeps, ValidState, Repeat,
         CoreOf, QuantCode, Initialized, NodeOk, LoopRegs;
    var node := Quant(b, min, max, greedy);
    var shape := ShapeOf(b, g, min, max);
    var pre, core := Preset(b, g, min), CoreOf(b, min, max, greedy, g, d);
    QuantLayout(b, min, max, greedy, g, d);
    QuantOutcomes(v.env, b, min, max, greedy, g, x);
    PlacedTwo(v, s, pre, core);
    var p, e := s + |pre|, s + |pre| + |core|;
    var fr, zs := Own(v, b, g, d), Repeat(v.env, b, g, min, BoundOf(v.env, max), greedy, x);
    QuantBodyOk(v, b, min, max, greedy, g, d);
    if pre == [] {
      CoreAll(v, b, min, max, greedy, g, d, s, x, m);
    } else {
      PlacedAt(v, s, pre[0]);
      PosOk(v, node, g, d, x, m);
      ActReset(v, Thread(s, m), g, g + Groups(b) - 1);
      PresetFits(v, node, g, d, x, m);
      var m1 := MState(m.pos, ResetCaps(m.cap, g, g + Groups(b) - 1));
      CoreAll(v, b, min, max, greedy, g, d, p, x, m1);
      ExploresWiden(v, Window(p, e), Window(s, e), Thread(p, m1), zs, e, m1.cap, fr);
      ExploresFrom(v, Window(s, e), Thread(p, m1), zs, e, m.cap, m1.cap, fr, fr);
      ExploresNext(v, Window(s, e), Thread(s, m), Thread(p, m1), zs, e, m.cap, fr);
    }
  }

  lemma {:induction false} QuantBodyOk(v: Machine, b: Node, min: nat, max: nat, greedy: bool, g: nat, d: nat)
    ensures NodeOk(v, b, g, d + LoopRegs(b, g, ShapeOf(b, g, min, max)))
    decreases Quant(b, min, max, greedy), 1
  {
    hide Ready, Sound, ShapeOf, LoopRegs;
    var d' := d + LoopRegs(b, g, ShapeOf(b, g, min, max));
    forall s: int, x: State, m: MState | Ready(v, b, g, d', s, x, m) ensures Sound(v, b, g, d', s, x, m) {
      NodeSound(v, b, g, d', s, x, m);
    }
  }

  lemma {:induction false} QuantLayout(b: Node, min: nat, max: nat, greedy: bool, g: nat, d: nat)
    ensures Code(Quant(b, min, max, greedy), g, d, false) == Preset(b, g, min) + CoreOf(b, min, max, greedy, g, d)
  {
    hide Code, Body, LoopRegs, LoopCheck, Initialized, QuantCode;
    QuantUnfold(b, min, max, greedy, g, d, false);
    var shape := ShapeOf(b, g, min, max);
    PresetFirst(shape, LoopCheck(b, g, shape), Preset(b, g, min), Body(b, g, d + LoopRegs(b, g, shape), false), min,
      max, greedy, d, d + 1);
  }

  lemma {:induction false} NodeSound(v: Machine, node: Node, g: nat, d: nat, s: int, x: State, m: MState)
    requires Ready(v, node, g, d, s, x, m)
    ensures Sound(v, node, g, d, s, x, m)
    decreases node, 3
  {
    hide Code, Outcomes, Explores, Placed, Agree, Fit, UnsetFrom;
    match node
    case Cat(a, b) => CatSound(v, a, b, g, d, s, x, m);
    case Alt(a, b) => AltSound(v, a, b, g, d, s, x, m);
    case Group(b) => GroupSound(v, b, g, d, s, x, m);
    case Look(neg, b) => LookSound(v, neg, b, g, d, s, x, m);
    case Quant(b, min, max, greedy) => QuantSound(v, b, min, max, greedy, g, d, s, x, m);
    case _ => LeafSound(v, node, g, d, s, x, m);
  }
}
