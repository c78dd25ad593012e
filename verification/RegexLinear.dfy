/** Atoms compiled to code without jumps: one pass sets every live capture, so
    the compiler need not reset captures before it. */
module RegexLinear {
  import opened Basics
  import opened RegexSyntax
  import opened RegexCode
  import opened RegexEval
  import opened RegexFrame
  import opened RegexAdvance
  import opened RegexExplore
  import opened RegexSteps

  // ----- one pass of an atom whose captures are not reset -----

  /** Code without jumps or back references: every live capture is written, so
      stale values from an earlier pass do not show. */
  ghost predicate Linear(code: seq<Instr>) { !NeedsInit(code) }

  lemma {:induction false} LinearParts(a: seq<Instr>, b: seq<Instr>)
    requires Linear(a + b)
    ensures Linear(a) && Linear(b)
  {
    var c := a + b;
    forall i | 0 <= i < |a| ensures !IsOpaque(a[i]) && !a[i].IBackRef? { assert a[i] == c[i]; }
    forall i | 0 <= i < |b| ensures !IsOpaque(b[i]) && !b[i].IBackRef? { assert b[i] == c[i + |a|]; }
  }

  lemma {:induction false} NotLinear(code: seq<Instr>, i: nat)
    requires i < |code| && IsOpaque(code[i])
    ensures !Linear(code)
  {
  }

  /** Nothing is asked of the captures of the node, except that dead ones are
      unset in the array too. */
  ghost predicate Stale(v: Machine, node: Node, g: nat, d: nat, x: State, m: MState) {
    && v.n == |x.caps| && WellFormed(node, v.n) && g + Groups(node) <= v.n
    && ValidState(v.env, x, v.n) && m.pos == x.end && SubjectOk(v.env)
    && 2 * v.n + d <= |m.cap|
    && UnsetFrom(x, g, Groups(node))
    && (forall k :: g <= k < g + Groups(node) && Dead(node, g, k) ==> m.cap[2 * k + 1] == NULL)
  }

  function Within0(v: Machine, node: Node, g: nat, d: nat): Frame {
    Frame(v.n, g, Groups(node), d, g, g + Groups(node))
  }

  ghost predicate LinearSound(v: Machine, node: Node, g: nat, d: nat, s: int, x: State, m: MState)
    requires Stale(v, node, g, d, x, m)
  {
    var e := s + |Code(node, g, d, false)|;
    var ys := Outcomes(v.env, node, g, x);
    |ys| <= 1 && Explores(v, Window(s, e), Thread(s, m), ys, e, m.cap, Within0(v, node, g, d))
  }

  lemma {:induction false} LinearLeaf(v: Machine, node: Node, g: nat, d: nat, s: int, x: State, m: MState)
    requires Stale(v, node, g, d, x, m) && Placed(v, s, Code(node, g, d, false)) && Linear(Code(node, g, d, false))
    requires IsLeaf(node)
    ensures LinearSound(v, node, g, d, s, x, m)
  {
    hide Code, Outcomes, Explores, Placed, Act, SubjectOk, Encode;
    LeafCode(v, node, g, d);
    var code := Code(node, g, d, false);
    var e := s + |code|;
    var w, t, fr := Window(s, e), Thread(s, m), Within0(v, node, g, d);
    KeepsSame(fr, m.cap);
    if node.Empty? {
      EmptyOutcomes(v.env, g, x);
      ExploresExit(v, w, t, x, e, m.cap, fr);
    } else {
      // a leaf without a back reference reads no capture: use any array that agrees
      var m' := MState(m.pos, Encode(x.caps));
      EncodeAgrees(x, m');
      assert code == [code[0]];
      PlacedAt(v, s, code[0]);
      LeafStep(v, node, g, s, x, m', code[0]);
      LeafCapFree(v, s, m, m');
      var ys := Outcomes(v.env, node, g, x);
      if ys == [] {
        ExploresFail(v, w, t, e, m.cap, fr);
      } else {
        var u := Thread(s + 1, MState(ys[0].end, m.cap));
        ExploresExit(v, w, u, ys[0], e, m.cap, fr);
        ExploresNext(v, w, t, u, [ys[0]], e, m.cap, fr);
        assert ys == [ys[0]];
      }
    }
  }

  function Encode(caps: Captures): (c: seq<int>)
    ensures |c| == 2 * |caps|
    ensures forall k: nat :: k < |caps| ==> RelAt(caps[k], c, k)
  {
    seq(2 * |caps|, i requires 0 <= i < 2 * |caps| =>
      var o := caps[i / 2]; if o.None? then NULL else if i % 2 == 0 then o.value.0 else o.value.1)
  }

  lemma {:induction false} EncodeAgrees(x: State, m: MState)
    requires m.pos == x.end && m.cap == Encode(x.caps)
    ensures Agree(x, m, 0, |x.caps|)
  {
  }

  lemma {:induction false} LeafCapFree(v: Machine, s: int, m: MState, m': MState)
    requires 0 <= s < |v.code| && (IsAdvancing(v.code[s]) || v.code[s].IAssert?) && m.pos == m'.pos <= |v.env.input|
    ensures Act(v, Thread(s, m')) == Fail ==> Act(v, Thread(s, m)) == Fail
    ensures forall q :: Act(v, Thread(s, m')) == Next(Thread(s + 1, MState(q, m'.cap))) ==>
                        Act(v, Thread(s, m)) == Next(Thread(s + 1, MState(q, m.cap)))
  {
    if IsAdvancing(v.code[s]) {
      ActChar(v, Thread(s, m));
      ActChar(v, Thread(s, m'));
    } else {
      ActAssert(v, Thread(s, m), v.code[s].kind);
      ActAssert(v, Thread(s, m'), v.code[s].kind);
    }
  }

  /** A run known on its own captures is known on all captures that agreed
      before, since it leaves the others alone. */
  lemma {:induction false} ExploresExtend(v: Machine, w: Window, t: Thread, zs: seq<State>, e: int, c: seq<int>,
          c1: seq<int>, fr: Frame, b: Node, g: nat, d: nat, y: State)
    requires Explores(v, w, t, zs, e, c1, Within0(v, b, g, d)) && AllTame(b, g, y.caps, zs)
    requires g + Groups(b) <= v.n == |y.caps| && fr.hi <= v.n && 2 * v.n <= |c1|
    requires forall k: nat :: fr.lo <= k < fr.hi && !(g <= k < g + Groups(b)) ==> RelAt(y.caps[k], c1, k)
    requires fr.n == v.n && fr.g <= g && g + Groups(b) <= fr.g + fr.cnt && fr.d <= d && Keeps(fr, c, c1)
    ensures Explores(v, w, t, zs, e, c, fr)
  {
    var f, us := ExitList(v, w, t, zs, e, c1, Within0(v, b, g, d));
    forall i | 0 <= i < |us| ensures ExitsAs(us[i], zs[i], e, c, fr) {
      assert ExitsAs(us[i], zs[i], e, c1, Within0(v, b, g, d));
      assert Tame(b, g, y.caps, zs[i].caps);
      var c2 := us[i].m.cap;
      forall k: nat | fr.lo <= k < fr.hi ensures RelAt(zs[i].caps[k], c2, k) {
        if !(g <= k < g + Groups(b)) {
          assert RelAt(y.caps[k], c1, k);
          assert c2[2 * k] == c1[2 * k] && c2[2 * k + 1] == c1[2 * k + 1];
        }
      }
    }
    assert Exits(us, zs, e, c, fr);
  }

  lemma {:induction false} LinearCatNext(v: Machine, a: Node, b: Node, g: nat, d: nat, x: State, m: MState, s: int,
          mid: int, e: int, t: Thread, y: State)
    requires Stale(v, Cat(a, b), g, d, x, m) && s <= mid
    requires Placed(v, mid, Code(b, g + Groups(a), d, false)) && e == mid + |Code(b, g + Groups(a), d, false)|
             && Linear(Code(b, g + Groups(a), d, false))
    requires ExitsAs(t, y, mid, m.cap, Within0(v, a, g, d)) && Tame(a, g, x.caps, y.caps) && ValidState(v.env, y, v.n)
    ensures |Outcomes(v.env, b, g + Groups(a), y)| <= 1
    ensures Explores(v, Window(s, e), t, Outcomes(v.env, b, g + Groups(a), y), e, m.cap, Within0(v, Cat(a, b), g, d))
    decreases Cat(a, b), 0
  {
    hide Code, Outcomes, Explores, Placed, Linear;
    var g2 := g + Groups(a);
    var zs := Outcomes(v.env, b, g2, y);
    assert Stale(v, b, g2, d, y, t.m) by {
      forall k | g2 <= k < g2 + Groups(b) && Dead(b, g2, k) ensures t.m.cap[2 * k + 1] == NULL {
        assert Dead(Cat(a, b), g, k);
        assert m.cap[2 * k + 1] == NULL;
      }
    }
    LinearNode(v, b, g2, d, mid, y, t.m);
    OutcomesTame(v.env, b, g2, y);
    ExploresWiden(v, Window(mid, e), Window(s, e), t, zs, e, t.m.cap, Within0(v, b, g2, d));
    ExploresExtend(v, Window(s, e), t, zs, e, m.cap, t.m.cap, Within0(v, Cat(a, b), g, d), b, g2, d, y);
  }

  lemma {:induction false} LinearCat(v: Machine, a: Node, b: Node, g: nat, d: nat, s: int, x: State, m: MState)
    requires Stale(v, Cat(a, b), g, d, x, m) && Placed(v, s, Code(Cat(a, b), g, d, false))
             && Linear(Code(Cat(a, b), g, d, false))
    ensures LinearSound(v, Cat(a, b), g, d, s, x, m)
    decreases Cat(a, b), 1
  {
    hide Code, Outcomes, Explores, ExploresAll, Placed, Linear, Tame, Keeps, Agree, ValidState, ExitsAs;
    var ca, cb := Code(a, g, d, false), Code(b, g + Groups(a), d, false);
    CatUnfold(a, b, g, d, false);
    CatOutcomes(v.env, a, b, g, x);
    PlacedTwo(v, s, ca, cb);
    LinearParts(ca, cb);
    var mid, e := s + |ca|, s + |ca| + |cb|;
    assert Stale(v, a, g, d, x, m) by {
      forall k | g <= k < g + Groups(a) && Dead(a, g, k)
        ensures m.cap[2 * k + 1] == NULL { assert Dead(Cat(a, b), g, k); }
    }
    LinearNode(v, a, g, d, s, x, m);
    var ys := Outcomes(v.env, a, g, x);
    OutcomesTame(v.env, a, g, x);
    var w, fr := Window(s, e), Within0(v, Cat(a, b), g, d);
    var f, ts := ExitList(v, Window(s, mid), Thread(s, m), ys, mid, m.cap, Within0(v, a, g, d));
    if ts == [] {
      ExploresNone(v, w, e, m.cap, fr);
    } else {
      LinearCatNext(v, a, b, g, d, x, m, s, mid, e, ts[0], ys[0]);
      ExploresNone(v, w, e, m.cap, fr);
      assert ts[1..] == [] && ys[1..] == [];
      ValidSize(v.env, ys[0], v.n);
      var zs := Outcomes(v.env, b, g + Groups(a), ys[0]);
      ExploresCons(v, w, ts, zs, [], e, m.cap, fr);
      assert zs + [] == zs;
    }
    ExploresBlock(v, Window(s, mid), w, Thread(s, m), ts, f, Outcomes(v.env, Cat(a, b), g, x), e, m.cap, fr);
  }

  lemma {:induction false} LinearClose(v: Machine, b: Node, g: nat, d: nat, m: MState, t: Thread, y: State, p: int,
          e: int)
    requires g + 1 + Groups(b) <= v.n == |y.caps| && 2 * v.n + d <= |m.cap|
    requires ExitsAs(t, y, p, m.cap[2 * g := m.pos], Within0(v, b, g + 1, d))
    ensures ExitsAs(Thread(e, MState(t.m.pos, t.m.cap[2 * g + 1 := t.m.pos])),
            State(y.end, y.caps[g := Some((m.pos, y.end))]),
                    e, m.cap, Within0(v, Group(b), g, d))
  {
    var c := t.m.cap[2 * g + 1 := t.m.pos];
    var z := State(y.end, y.caps[g := Some((m.pos, y.end))]);
    assert t.m.cap[2 * g] == m.pos;
    forall k: nat | g <= k < g + 1 + Groups(b) ensures RelAt(z.caps[k], c, k) {
      if k > g {
        assert RelAt(y.caps[k], t.m.cap, k);
      }
    }
  }

  lemma {:induction false} LinearGroupExit(v: Machine, w: Window, b: Node, g: nat, d: nat, m: MState, ts: seq<Thread>,
          ys: seq<State>, p: int)
    requires g + 1 + Groups(b) <= v.n && 2 * v.n + d <= |m.cap| && Forward(v.env, ys, v.n, m.pos) && |ys| <= 1
    requires Exits(ts, ys, p, m.cap[2 * g := m.pos], Within0(v, b, g + 1, d))
    requires Inside(w, p) && !Inside(w, p + 1) && 0 <= p < |v.code| && v.code[p] == ISaveEnd(g)
    ensures ExploresAll(v, w, ts, CloseGroup(v.env, g, m.pos, ys, v.n), p + 1, m.cap, Within0(v, Group(b), g, d))
  {
    hide Explores, ExploresAll, Keeps, Agree, Act;
    var zs := CloseGroup(v.env, g, m.pos, ys, v.n);
    var fr := Within0(v, Group(b), g, d);
    ExploresNone(v, w, p + 1, m.cap, fr);
    if ts != [] {
      assert ExitsAs(ts[0], ys[0], p, m.cap[2 * g := m.pos], Within0(v, b, g + 1, d));
      JumpPos(ts[0], ys[0], p, m.cap[2 * g := m.pos], Within0(v, b, g + 1, d));
      ExitSize(ts[0], ys[0], p, m.cap[2 * g := m.pos], Within0(v, b, g + 1, d));
      ActSave(v, ts[0], g);
      LinearClose(v, b, g, d, m, ts[0], ys[0], p, p + 1);
      var u := Thread(p + 1, MState(ts[0].m.pos, ts[0].m.cap[2 * g + 1 := ts[0].m.pos]));
      ExploresExit(v, w, u, zs[0], p + 1, m.cap, fr);
      ExploresNext(v, w, ts[0], u, [zs[0]], p + 1, m.cap, fr);
      assert ts[1..] == [];
      ExploresCons(v, w, ts, [zs[0]], [], p + 1, m.cap, fr);
      assert [zs[0]] + [] == zs;
    }
  }

  lemma {:induction false} LinearGroup(v: Machine, b: Node, g: nat, d: nat, s: int, x: State, m: MState)
    requires Stale(v, Group(b), g, d, x, m) && Placed(v, s, Code(Group(b), g, d, false))
             && Linear(Code(Group(b), g, d, false))
    ensures LinearSound(v, Group(b), g, d, s, x, m)
    decreases Group(b), 1
  {
    hide Code, Outcomes, Explores, ExploresAll, Placed, Linear, Keeps, Agree, Act;
    var cb := Code(b, g + 1, d, false);
    AroundUnfold(b, false, g, d, false);
    GroupOutcomes(v.env, b, g, x);
    PlacedPart(v, s, [ISaveStart(g)], cb, [ISaveEnd(g)]);
    LinearParts([ISaveStart(g)] + cb, [ISaveEnd(g)]);
    LinearParts([ISaveStart(g)], cb);
    var p := s + 1 + |cb|;
    PlacedAt(v, s, ISaveStart(g));
    PlacedAt(v, p, ISaveEnd(g));
    var m1 := MState(m.pos, m.cap[2 * g := m.pos]);
    ActSave(v, Thread(s, m), g);
    assert Stale(v, b, g + 1, d, x, m1) by {
      forall k | g + 1 <= k < g + 1 + Groups(b) && Dead(b, g + 1, k)
        ensures m1.cap[2 * k + 1] == NULL { assert Dead(Group(b), g, k); }
    }
    LinearNode(v, b, g + 1, d, s + 1, x, m1);
    var ys := Outcomes(v.env, b, g + 1, x);
    var zs := CloseGroup(v.env, g, x.end, ys, v.n);
    var w, fr := Window(s, p + 1), Within0(v, Group(b), g, d);
    var f, ts := ExitList(v, Window(s + 1, p), Thread(s + 1, m1), ys, p, m1.cap, Within0(v, b, g + 1, d));
    LinearGroupExit(v, w, b, g, d, m, ts, ys, p);
    ExploresBlock(v, Window(s + 1, p), w, Thread(s + 1, m1), ts, f, zs, p + 1, m.cap, fr);
    ExploresNext(v, w, Thread(s, m), Thread(s + 1, m1), zs, p + 1, m.cap, fr);
  }

  /** The only quantifier that compiles to jump-free code is `{0}`. */
  lemma {:induction false} LinearQuant(v: Machine, b: Node, min: nat, max: nat, greedy: bool, g: nat, d: nat, s: int,
          x: State, m: MState)
    requires Stale(v, Quant(b, min, max, greedy), g, d, x, m)
    requires Placed(v, s, Code(Quant(b, min, max, greedy), g, d, false))
             && Linear(Code(Quant(b, min, max, greedy), g, d, false))
    ensures LinearSound(v, Quant(b, min, max, greedy), g, d, s, x, m)
  {
    hide Code, Outcomes, Explores, Placed, Body, LoopCheck, LoopRegs, Act;
    QuantUnfold(b, min, max, greedy, g, d, false);
    QuantOutcomes(v.env, b, min, max, greedy, g, x);
    var shape := ShapeOf(b, g, min, max);
    var body := Body(b, g, d + LoopRegs(b, g, shape), false);
    var chk := LoopCheck(b, g, shape);
    var code := Code(Quant(b, min, max, greedy), g, d, false);
    var pre := Preset(b, g, min);
    LinearIsNever(shape, chk, pre, body, min, max, greedy, d, d + 1);
    assert code == pre;
    RepeatNever(v.env, b, g, greedy, x);
    var e, fr := s + |pre|, Within0(v, Quant(b, min, max, greedy), g, d);
    var w := Window(s, e);
    if pre == [] {
      forall k: nat | g <= k < g + Groups(b) ensures RelAt(x.caps[k], m.cap, k) {
        assert Dead(Quant(b, min, max, greedy), g, k);
      }
      ExploresExit(v, w, Thread(s, m), x, e, m.cap, fr);
    } else {
      PlacedAt(v, s, pre[0]);
      ActReset(v, Thread(s, m), g, g + Groups(b) - 1);
      var m1 := MState(m.pos, ResetCaps(m.cap, g, g + Groups(b) - 1));
      ExploresExit(v, w, Thread(e, m1), x, e, m.cap, fr);
      ExploresNext(v, w, Thread(s, m), Thread(e, m1), [x], e, m.cap, fr);
    }
  }

  lemma {:induction false} LinearIsNever(shape: Shape, chk: bool, pre: seq<Instr>, body: seq<Instr>, min: nat, max: nat,
          greedy: bool, r: nat, r1: nat)
    requires Linear(QuantCode(shape, chk, pre, body, min, max, greedy, r, r1))
    ensures shape.Never?
  {
    var code := QuantCode(shape, chk, pre, body, min, max, greedy, r, r1);
    match shape
    case Never =>
    case Optional(star) => NotLinear(code, |pre|);
    case OptionalCounted => NotLinear(code, |pre|);
    case Plus => NotLinear(code, |body|);
    case Counted(simple) => NotLinear(code, |code| - 1);
  }

  lemma {:induction false} LinearNode(v: Machine, node: Node, g: nat, d: nat, s: int, x: State, m: MState)
    requires Stale(v, node, g, d, x, m) && Placed(v, s, Code(node, g, d, false)) && Linear(Code(node, g, d, false))
    ensures LinearSound(v, node, g, d, s, x, m)
    decreases node, 2
  {
    hide Code, Outcomes, Explores, Placed, Stale, Linear;
    match node
    case Cat(a, b) => LinearCat(v, a, b, g, d, s, x, m);
    case Alt(a, b) =>
      AltUnfold(a, b, g, d, false);
      NotLinear(AltCode(Code(a, g, d, false), Code(b, g + Groups(a), d, false)), 0);
    case Group(b) => LinearGroup(v, b, g, d, s, x, m);
    case Look(neg, b) =>
      AroundUnfold(b, neg, g, d, false);
      NotLinear(LookCode(neg, Code(b, g, d, false)), 0);
    case Quant(b, min, max, greedy) => LinearQuant(v, b, min, max, greedy, g, d, s, x, m);
    case _ => LinearLeaf(v, node, g, d, s, x, m);
  }
}
