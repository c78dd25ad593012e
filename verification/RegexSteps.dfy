/** Single instructions, and the statement proved of every node's code. */
module RegexSteps {
  import opened Basics
  import opened RegexSyntax
  import opened RegexCode
  import opened RegexEval
  import opened RegexFrame
  import opened RegexAdvance
  import opened RegexExplore

  // ----- one instruction at a time -----

  lemma {:induction false} ActSplit(v: Machine, t: Thread, nf: bool, rel: int)
    requires ValidThread(v, t) && v.code[t.pc] == ISplit(nf, rel)
    ensures Act(v, t) == ForkTo(nf, t.pc + 1, rel, t.m)
  {
  }

  lemma {:induction false} ActGoto(v: Machine, t: Thread, rel: int)
    requires ValidThread(v, t) && v.code[t.pc] == IGoto(rel)
    ensures Act(v, t) == Next(Thread(t.pc + 1 + rel, t.m))
  {
  }

  lemma {:induction false} ActSave(v: Machine, t: Thread, k: nat)
    requires ValidThread(v, t) && 2 * k < |t.m.cap| && (v.code[t.pc].ISaveEnd? ==> 2 * k + 1 < |t.m.cap|)
    ensures v.code[t.pc] == ISaveStart(k) ==>
            Act(v, t) == Next(Thread(t.pc + 1, MState(t.m.pos, t.m.cap[2 * k := t.m.pos])))
    ensures v.code[t.pc] == ISaveEnd(k) ==>
            Act(v, t) == Next(Thread(t.pc + 1, MState(t.m.pos, t.m.cap[2 * k + 1 := t.m.pos])))
  {
  }

  lemma {:induction false} ActReset(v: Machine, t: Thread, lo: nat, hi: nat)
    requires ValidThread(v, t) && v.code[t.pc] == ISaveReset(lo, hi) && 2 * hi + 1 < |t.m.cap|
    ensures Act(v, t) == Next(Thread(t.pc + 1, MState(t.m.pos, ResetCaps(t.m.cap, lo, hi))))
  {
  }

  lemma {:induction false} ActRegister(v: Machine, t: Thread, r: nat, value: nat)
    requires ValidThread(v, t) && 2 * v.n + r < |t.m.cap|
    ensures v.code[t.pc] == ISetI32(r, value) ==>
            Act(v, t) == Next(Thread(t.pc + 1, MState(t.m.pos, t.m.cap[2 * v.n + r := value])))
    ensures v.code[t.pc] == ISetCharPos(r) ==>
            Act(v, t) == Next(Thread(t.pc + 1, MState(t.m.pos, t.m.cap[2 * v.n + r := t.m.pos])))
    ensures v.code[t.pc] == ICheckAdvance(r) ==>
      Act(v, t) == if t.m.cap[2 * v.n + r] == t.m.pos then Fail else Next(Thread(t.pc + 1, t.m))
  {
  }

  lemma {:induction false} ActLoop(v: Machine, t: Thread, r: nat)
    requires ValidThread(v, t) && 2 * v.n + r < |t.m.cap|
    requires (v.code[t.pc].ILoop? || v.code[t.pc].ILoopSplit?) && v.code[t.pc].reg == r
    ensures Act(v, t) == LoopAction(v.code[t.pc], t.pc, t.m, 2 * v.n + r)
  {
  }

  lemma {:induction false} ActLook(v: Machine, t: Thread, neg: bool, rel: int)
    requires ValidThread(v, t)
    ensures v.code[t.pc] == ILook(neg, rel) ==> Act(v, t) == Enter(neg, Thread(t.pc + 1, t.m), t.pc + 1 + rel)
    ensures v.code[t.pc] == ILookMatch(neg) ==> Act(v, t) == Stop
  {
  }

  lemma {:induction false} ActChar(v: Machine, t: Thread)
    requires ValidThread(v, t) && IsAdvancing(v.code[t.pc])
    ensures Act(v, t) ==
            if t.m.pos < |v.env.input| && Hits(v.code[t.pc], CharAt(v.env, t.m.pos, |v.env.input|).0)
            then Next(Thread(t.pc + 1, MState(CharAt(v.env, t.m.pos, |v.env.input|).1, t.m.cap))) else Fail
  {
  }

  lemma {:induction false} ActAssert(v: Machine, t: Thread, kind: Assertion)
    requires ValidThread(v, t) && v.code[t.pc] == IAssert(kind)
    ensures Act(v, t) == if Holds(v.env, kind, t.m.pos) then Next(Thread(t.pc + 1, t.m)) else Fail
  {
  }

  lemma {:induction false} ActBackRef(v: Machine, t: Thread, k: nat)
    requires ValidThread(v, t) && v.code[t.pc] == IBackRef(k)
    ensures Act(v, t) == BackRefAction(v, k, t.pc, t.m)
  {
  }

  // ----- preconditions -----

  /** Code units of the subject fit 16 bits. */
  ghost predicate SubjectOk(env: Env) {
    forall i :: 0 <= i < |env.input| ==> env.input[i] <= 0xffff
  }

  lemma {:induction false} CharFits(env: Env, pos: nat)
    requires SubjectOk(env) && pos < |env.input|
    ensures CharAt(env, pos, |env.input|).0 <= CHAR_MAX
  {
  }

  ghost predicate UnsetFrom(x: State, g: nat, cnt: nat)
    requires g + cnt <= |x.caps|
  {
    forall k :: g <= k < g + cnt ==> x.caps[k].None?
  }

  /** All that does not depend on where the code stands. */
  ghost predicate Fit(v: Machine, node: Node, g: nat, d: nat, x: State, m: MState) {
    && v.n == |x.caps| && WellFormed(node, v.n) && g + Groups(node) <= v.n
    && ValidState(v.env, x, v.n) && Agree(x, m, 0, v.n) && SubjectOk(v.env)
    && 2 * v.n + d + Registers(node, g) <= |m.cap|
    && CountersOk(v.env, node, g)
  }

  ghost predicate Ready(v: Machine, node: Node, g: nat, d: nat, s: int, x: State, m: MState) {
    Fit(v, node, g, d, x, m) && Placed(v, s, Code(node, g, d, false)) && UnsetFrom(x, g, Groups(node))
  }

  function Own(v: Machine, node: Node, g: nat, d: nat): Frame {
    Frame(v.n, g, Groups(node), d, 0, v.n)
  }

  /** The statement proved of every node. */
  ghost predicate Sound(v: Machine, node: Node, g: nat, d: nat, s: int, x: State, m: MState)
    requires Ready(v, node, g, d, s, x, m)
  {
    var e := s + |Code(node, g, d, false)|;
    Explores(v, Window(s, e), Thread(s, m), Outcomes(v.env, node, g, x), e, m.cap, Own(v, node, g, d))
  }

  /** The block's exits as a list, for use with `ExploresBlock`. */
  lemma {:induction false} ExitList(v: Machine, w: Window, t: Thread, ys: seq<State>, e: int, c: seq<int>, fr: Frame)
    returns (f: nat, ts: seq<Thread>)
    requires Explores(v, w, t, ys, e, c, fr)
    ensures Leaves(v, w, t, f) == Some(ts) && Exits(ts, ys, e, c, fr)
  {
    f :| Leaves(v, w, t, f).Some? && Exits(Leaves(v, w, t, f).value, ys, e, c, fr);
    ts := Leaves(v, w, t, f).value;
  }

  // ----- leaves -----

  /** A leaf other than the empty pattern is one instruction. */
  lemma {:induction false} LeafCode(v: Machine, node: Node, g: nat, d: nat)
    requires WellFormed(node, v.n) && IsLeaf(node)
    ensures node.Empty? ==> Code(node, g, d, false) == []
    ensures !node.Empty? ==> |Code(node, g, d, false)| == 1 && Code(node, g, 0, false) == Code(node, g, d, false)
    ensures !node.Empty? ==> var i := Code(node, g, d, false)[0]; i.IBackRef? || IsAdvancing(i) || i.IAssert?
  {
    hide QuantCode, AltCode, GroupCode, LookCode, Body, ShapeOf, LoopRegs, LoopCheck, Preset;
  }

  lemma {:induction false} EmptyOutcomes(env: Env, g: nat, x: State)
    requires ValidState(env, x, |x.caps|) && g <= |x.caps|
    ensures Outcomes(env, Empty, g, x) == [x]
  {
  }

  lemma {:induction false} LeafSound(v: Machine, node: Node, g: nat, d: nat, s: int, x: State, m: MState)
    requires Ready(v, node, g, d, s, x, m) && IsLeaf(node)
    ensures Sound(v, node, g, d, s, x, m)
  {
    hide Code, Outcomes, Explores, Placed, Act, Agree, Registers, CounterSafe, SubjectOk, ValidState;
    LeafCode(v, node, g, d);
    var code := Code(node, g, d, false);
    var e := s + |code|;
    var w, t, fr := Window(s, e), Thread(s, m), Own(v, node, g, d);
    KeepsSame(fr, m.cap);
    PosOk(v, node, g, d, x, m);
    if node.Empty? {
      EmptyOutcomes(v.env, g, x);
      ExploresExit(v, w, t, x, e, m.cap, fr);
    } else {
      assert code == [code[0]];
      PlacedAt(v, s, code[0]);
      LeafStep(v, node, g, s, x, m, code[0]);
      var ys := Outcomes(v.env, node, g, x);
      if ys == [] {
        ExploresFail(v, w, t, e, m.cap, fr);
      } else {
        var u := Thread(s + 1, MState(ys[0].end, m.cap));
        AgreeMoved(x, m, ys[0], 0, v.n);
        ExploresExit(v, w, u, ys[0], e, m.cap, fr);
        ExploresNext(v, w, t, u, [ys[0]], e, m.cap, fr);
        assert ys == [ys[0]];
      }
    }
  }

  lemma {:induction false} AgreeMoved(x: State, m: MState, y: State, lo: nat, hi: nat)
    requires Agree(x, m, lo, hi) && y.caps == x.caps
    ensures Agree(y, MState(y.end, m.cap), lo, hi)
  {
  }

  lemma {:induction false} LeafStep(v: Machine, node: Node, g: nat, s: int, x: State, m: MState, i: Instr)
    requires v.n == |x.caps| && WellFormed(node, v.n) && g + Groups(node) <= v.n && ValidState(v.env, x, v.n)
    requires Agree(x, m, 0, v.n) && SubjectOk(v.env)
    requires IsLeaf(node) && !node.Empty? && Code(node, g, 0, false) == [i]
    requires 0 <= s < |v.code| && v.code[s] == i
    ensures var ys := Outcomes(v.env, node, g, x);
            |ys| <= 1 && Act(v, Thread(s, m)) == if ys == [] then Fail
              else Next(Thread(s + 1, MState(ys[0].end, m.cap)))
    ensures forall y <- Outcomes(v.env, node, g, x) :: y.caps == x.caps
  {
    var t := Thread(s, m);
    assert Code(node, g, 0, false)[0] == i;
    if node.Assert? {
      ActAssert(v, t, node.kind);
    } else if node.BackRef? {
      ActBackRef(v, t, node.k);
      assert RelAt(x.caps[node.k], m.cap, node.k);
    } else {
      if x.end < |v.env.input| {
        CharFits(v.env, x.end);
        if node.Class? {
          RangeInstrExact(node.points, CharAt(v.env, x.end, |v.env.input|).0);
        }
      }
      LeafChar(node, g, i);
      ActChar(v, t);
    }
  }

  lemma {:induction false} LeafChar(node: Node, g: nat, i: Instr)
    requires node.Char? || node.Dot? || node.Any? || (node.Class? && IsBoundaryList(node.points))
    requires Code(node, g, 0, false)[..] == [i]
    ensures IsAdvancing(i) && (node.Class? ==> i == RangeInstr(node.points))
    ensures node.Char? ==> i == IChar(node.c)
    ensures node.Dot? ==> i == IDot
    ensures node.Any? ==> i == IAny
  {
    assert Code(node, g, 0, false)[0] == i;
  }

  // ----- concatenation, alternation, groups, lookahead -----

  /** A part of a node fits wherever the node did, in any later state. */
  lemma {:induction false} FitPart(v: Machine, node: Node, g: nat, d: nat, x: State, m: MState, part: Node, g': nat,
          y: State, m': MState)
    requires Fit(v, node, g, d, x, m)
    requires match node
             case Cat(a, b) => (part == a && g' == g) || (part == b && g' == g + Groups(a))
             case Alt(a, b) => (part == a && g' == g) || (part == b && g' == g + Groups(a))
             case Group(b) => part == b && g' == g + 1
             case Look(_, b) => part == b && g' == g
             case _ => false
    requires ValidState(v.env, y, v.n) && Agree(y, m', 0, v.n) && |m'.cap| == |m.cap|
    ensures Fit(v, part, g', d, y, m')
  {
    hide Agree, SubjectOk;
  }

  lemma {:induction false} ExploresJump(v: Machine, w: Window, ts: seq<Thread>, ys: seq<State>, p: int, rel: int,
          e: int, c: seq<int>, fr: Frame)
    requires Inside(w, p) && 0 <= p < |v.code| && v.code[p] == IGoto(rel) && e == p + 1 + rel && !Inside(w, e)
    requires Exits(ts, ys, p, c, fr) && (forall i :: 0 <= i < |ys| ==> ys[i].end <= |v.env.input|)
    ensures ExploresAll(v, w, ts, ys, e, c, fr)
    decreases |ts|
  {
    hide Explores, ExploresAll, Act, Agree, Keeps;
    if ts == [] {
      ExploresNone(v, w, e, c, fr);
    } else {
      assert ExitsAs(ts[0], ys[0], p, c, fr);
      assert ts[0].m.pos == ys[0].end by { JumpPos(ts[0], ys[0], p, c, fr); }
      ActGoto(v, ts[0], rel);
      var u := Thread(e, ts[0].m);
      ExploresExit(v, w, u, ys[0], e, c, fr);
      ExploresNext(v, w, ts[0], u, [ys[0]], e, c, fr);
      assert forall i :: 0 <= i < |ts[1..]| ==> ts[1..][i] == ts[i + 1] && ys[1..][i] == ys[i + 1];
      ExploresJump(v, w, ts[1..], ys[1..], p, rel, e, c, fr);
      ExploresCons(v, w, ts, [ys[0]], ys[1..], e, c, fr);
      assert [ys[0]] + ys[1..] == ys;
    }
  }

  lemma {:induction false} JumpPos(t: Thread, y: State, e: int, c: seq<int>, fr: Frame)
    requires ExitsAs(t, y, e, c, fr)
    ensures t.m.pos == y.end
  {
  }

  lemma {:induction false} PosOk(v: Machine, node: Node, g: nat, d: nat, x: State, m: MState)
    requires Fit(v, node, g, d, x, m)
    ensures m.pos <= |v.env.input| && m.pos == x.end && 2 * v.n + d <= |m.cap|
  {
  }

  lemma {:induction false} KeepsSame(fr: Frame, c: seq<int>)
    ensures Keeps(fr, c, c)
  {
  }

  lemma {:induction false} ExitSize(t: Thread, y: State, e: int, c: seq<int>, fr: Frame)
    requires ExitsAs(t, y, e, c, fr)
    ensures |t.m.cap| == |c|
  {
  }
}
