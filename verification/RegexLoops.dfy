/** Quantifiers: each compiled shape explores the RepeatMatcher of section
    22.2.2.3.1 of ECMA-262, given that the atom's code is right. */
module RegexLoops {
  import opened Basics
  import opened RegexSyntax
  import opened RegexCode
  import opened RegexEval
  import opened RegexFrame
  import opened RegexAdvance
  import opened RegexExplore
  import opened RegexSteps
  import opened RegexLinear

  // ----- loops -----

  /** The state between two passes: captures agree, and dead ones are unset. */
  ghost predicate Between(v: Machine, b: Node, g: nat, d: nat, x: State, m: MState) {
    && Fit(v, b, g, d, x, m)
    && (forall k :: g <= k < g + Groups(b) && Dead(b, g, k) ==> x.caps[k].None?)
  }

  /** The induction hypothesis a loop needs of its body. */
  ghost predicate NodeOk(v: Machine, b: Node, g: nat, d: nat) {
    forall s: int, x: State, m: MState :: Ready(v, b, g, d, s, x, m) ==> Sound(v, b, g, d, s, x, m)
  }

  lemma {:induction false} NodeApply(v: Machine, b: Node, g: nat, d: nat, s: int, x: State, m: MState)
    requires NodeOk(v, b, g, d) && Ready(v, b, g, d, s, x, m)
    ensures Sound(v, b, g, d, s, x, m)
  {
    hide Ready, Sound;
  }

  function Cleared(x: State, b: Node, g: nat): State {
    State(x.end, Unset(x.caps, g, Groups(b)))
  }

  /** One pass of the loop body explores the atom's outcomes on unset captures,
      whether or not the code resets them. */
  lemma {:induction false} BodyPass(v: Machine, b: Node, g: nat, d: nat, s: int, x: State, m: MState)
    requires NodeOk(v, b, g, d) && Between(v, b, g, d, x, m) && Placed(v, s, Body(b, g, d, false))
    ensures var e := s + |Body(b, g, d, false)|;
            Explores(v, Window(s, e), Thread(s, m), Outcomes(v.env, b, g, Cleared(x, b, g)), e, m.cap, Own(v, b, g, d))
  {
    hide Code, Outcomes, Explores, Placed, Registers, CounterSafe, SubjectOk, Tame, Initialized, NodeOk, Forward, Keeps;
    var xr := Cleared(x, b, g);
    var code := Code(b, g, d, false);
    var fr := Own(v, b, g, d);
    if !Initialized(b, g) {
      assert [] + code == code;
      LinearBody(v, b, g, d, s, x, m);
    } else if Groups(b) == 0 {
      assert [] + code == code;
      assert xr == x;
      NodeApply(v, b, g, d, s, x, m);
    } else {
      var reset := ISaveReset(g, g + Groups(b) - 1);
      PlacedTwo(v, s, [reset], code);
      PlacedAt(v, s, reset);
      ActReset(v, Thread(s, m), g, g + Groups(b) - 1);
      var m1 := MState(m.pos, ResetCaps(m.cap, g, g + Groups(b) - 1));
      ResetFits(v, b, g, d, x, m);
      NodeApply(v, b, g, d, s + 1, xr, m1);
      var e := s + 1 + |code|;
      ExploresWiden(v, Window(s + 1, e), Window(s, e), Thread(s + 1, m1), Outcomes(v.env, b, g, xr), e, m1.cap, fr);
      ExploresFrom(v, Window(s, e), Thread(s + 1, m1), Outcomes(v.env, b, g, xr), e, m.cap, m1.cap, fr, fr);
      hide Act;
      ExploresNext(v, Window(s, e), Thread(s, m), Thread(s + 1, m1), Outcomes(v.env, b, g, xr), e, m.cap, fr);
    }
  }

  lemma {:induction false} ResetFits(v: Machine, b: Node, g: nat, d: nat, x: State, m: MState)
    requires Fit(v, b, g, d, x, m) && Groups(b) > 0
    ensures Fit(v, b, g, d, Cleared(x, b, g), MState(m.pos, ResetCaps(m.cap, g, g + Groups(b) - 1)))
    ensures UnsetFrom(Cleared(x, b, g), g, Groups(b))
    ensures Keeps(Own(v, b, g, d), m.cap, ResetCaps(m.cap, g, g + Groups(b) - 1))
  {
    var xr, m1 := Cleared(x, b, g), MState(m.pos, ResetCaps(m.cap, g, g + Groups(b) - 1));
    forall k: nat | k < v.n ensures RelAt(xr.caps[k], m1.cap, k) {
      assert RelAt(x.caps[k], m.cap, k);
    }
  }

  lemma {:induction false} LinearBody(v: Machine, b: Node, g: nat, d: nat, s: int, x: State, m: MState)
    requires Between(v, b, g, d, x, m) && Placed(v, s, Code(b, g, d, false)) && !Initialized(b, g)
    ensures var e := s + |Code(b, g, d, false)|;
            Explores(v, Window(s, e), Thread(s, m), Outcomes(v.env, b, g, Cleared(x, b, g)), e, m.cap, Own(v, b, g, d))
  {
    hide Code, Outcomes, Explores, Placed, Registers, CounterSafe, SubjectOk;
    var xr := Cleared(x, b, g);
    var e := s + |Code(b, g, d, false)|;
    var fr := Own(v, b, g, d);
    ScanIgnoresRegisters(b, g, d);
    assert Stale(v, b, g, d, xr, m) by {
      forall k | g <= k < g + Groups(b) && Dead(b, g, k)
        ensures m.cap[2 * k + 1] == NULL { assert RelAt(x.caps[k], m.cap, k); }
    }
    LinearNode(v, b, g, d, s, xr, m);
    OutcomesTame(v.env, b, g, xr);
    KeepsSame(fr, m.cap);
    forall k: nat | k < v.n && !(g <= k < g + Groups(b)) ensures RelAt(xr.caps[k], m.cap, k) {
      assert RelAt(x.caps[k], m.cap, k);
    }
    ExploresExtend(v, Window(s, e), Thread(s, m), Outcomes(v.env, b, g, xr), e, m.cap, m.cap, fr, b, g, d, xr);
  }

  /** After a pass the loop is between passes again. */
  lemma {:induction false} StillBetween(v: Machine, b: Node, g: nat, d: nat, x: State, m: MState, y: State, t: Thread,
          e: int, c: seq<int>)
    requires Between(v, b, g, d, x, m) && |c| == |m.cap|
    requires ExitsAs(t, y, e, c, Own(v, b, g, d)) && ValidState(v.env, y, v.n)
    requires Tame(b, g, Cleared(x, b, g).caps, y.caps)
    ensures Between(v, b, g, d, y, t.m)
  {
    hide Registers, CounterSafe, SubjectOk;
    var xr := Cleared(x, b, g);
    forall k | g <= k < g + Groups(b) && Dead(b, g, k) ensures y.caps[k].None? {
      assert xr.caps[k].None?;
    }
  }

  // `?` and `*`

  lemma {:induction false} OptionalLayout(body: seq<Instr>, chk: bool, star: bool, greedy: bool, r: nat)
    ensures var code := OptionalCode(body, chk, star, greedy, r);
            && |code| == |body| + 1 + 2 * One(chk) + One(star)
            && code[0] == ISplit(greedy, |body| + 2 * One(chk) + One(star))
            && code[1 + One(chk)..1 + One(chk) + |body|] == body
            && (chk ==> code[1] == ISetCharPos(r) && code[2 + |body|] == ICheckAdvance(r))
            && (star ==> code[|code| - 1] == IGoto(-(|body| + 2 * One(chk) + 2)))
  {
  }

  lemma {:induction false} OptionalPlaced(v: Machine, s: int, body: seq<Instr>, chk: bool, star: bool, greedy: bool,
          r: nat)
    requires Placed(v, s, OptionalCode(body, chk, star, greedy, r))
    ensures 0 <= s < |v.code| && v.code[s] == ISplit(greedy, |body| + 2 * One(chk) + One(star))
    ensures s + 1 + 2 * One(chk) + |body| + One(star) <= |v.code|
    ensures chk ==> v.code[s + 1] == ISetCharPos(r)
    ensures chk ==> v.code[s + 2 + |body|] == ICheckAdvance(r)
    ensures Placed(v, s + 1 + One(chk), body)
    ensures star ==> v.code[s + 1 + 2 * One(chk) + |body|] == IGoto(-(|body| + 2 * One(chk) + 2))
  {
    var code := OptionalCode(body, chk, star, greedy, r);
    OptionalLayout(body, chk, star, greedy, r);
    PlacedSize(v, s, code);
    hide Placed, OptionalCode;
    PlacedIndex(v, s, code, 0);
    PlacedSlice(v, s, code, 1 + One(chk), body);
    if chk {
      PlacedIndex(v, s, code, 1);
      PlacedIndex(v, s, code, 2 + |body|);
    }
    if star {
      PlacedIndex(v, s, code, |code| - 1);
    }
  }

  lemma {:induction false} PlacedSize(v: Machine, s: int, code: seq<Instr>)
    requires Placed(v, s, code)
    ensures 0 <= s && s + |code| <= |v.code|
  {
  }

  ghost predicate OptionalAt(v: Machine, b: Node, g: nat, d: nat, s: int, star: bool, greedy: bool, x: State,
          m: MState) {
    && Between(v, b, g, d + One(Checked(b, g)), x, m) && NodeOk(v, b, g, d + One(Checked(b, g)))
    && Placed(v, s, OptionalCode(Body(b, g, d + One(Checked(b, g)), false), Checked(b, g), star, greedy, d))
  }

  ghost function OptionalEnd(b: Node, g: nat, d: nat, s: int, star: bool): int {
    s + 1 + 2 * One(Checked(b, g)) + |Body(b, g, d + One(Checked(b, g)), false)| + One(star)
  }

  function StarBound(star: bool): Bound { if star then Inf else Fin(1) }

  lemma {:induction false} OptionalLoop(v: Machine, b: Node, g: nat, d: nat, s: int, star: bool, greedy: bool, x: State,
          m: MState)
    requires OptionalAt(v, b, g, d, s, star, greedy, x, m)
    ensures var e := OptionalEnd(b, g, d, s, star);
            Explores(v, Window(s, e), Thread(s, m), Repeat(v.env, b, g, 0, StarBound(star), greedy, x), e, m.cap,
              Own(v, b, g, d))
    decreases |v.env.input| - x.end, 3
  {
    var e, fr := OptionalEnd(b, g, d, s, star), Own(v, b, g, d);
    hide NodeOk, Body, Explores, Placed, Act, Agree, Registers, CounterSafe, SubjectOk, Keeps, Checked, Iterate;
    var chk := Checked(b, g);
    var body := Body(b, g, d + One(chk), false);
    OptionalPlaced(v, s, body, chk, star, greedy, d);
    PosOk(v, b, g, d + One(chk), x, m);
    OptionalPass(v, b, g, d, s, star, greedy, x, m);
    KeepsSame(fr, m.cap);
    ExploresExit(v, Window(s, e), Thread(e, m), x, e, m.cap, fr);
    ActSplit(v, Thread(s, m), greedy, |body| + 2 * One(chk) + One(star));
    var zs := Iterate(v.env, b, g, 0, StarBound(star), greedy, x);
    if greedy {
      ExploresFork(v, Window(s, e), Thread(s, m), Thread(s + 1, m), Thread(e, m), zs, [x], e, m.cap, fr);
    } else {
      ExploresFork(v, Window(s, e), Thread(s, m), Thread(e, m), Thread(s + 1, m), [x], zs, e, m.cap, fr);
    }
  }

  lemma {:induction false} OptionalPass(v: Machine, b: Node, g: nat, d: nat, s: int, star: bool, greedy: bool, x: State,
          m: MState)
    requires OptionalAt(v, b, g, d, s, star, greedy, x, m)
    ensures var e := OptionalEnd(b, g, d, s, star);
            Explores(v, Window(s, e), Thread(s + 1, m), Iterate(v.env, b, g, 0, StarBound(star), greedy, x), e, m.cap,
              Own(v, b, g, d))
    decreases |v.env.input| - x.end, 2
  {
    hide NodeOk, Body, Explores, Placed, Act, Agree, Registers, CounterSafe, SubjectOk, Keeps, Checked, Iterate;
    var e, fr := OptionalEnd(b, g, d, s, star), Own(v, b, g, d);
    var chk := Checked(b, g);
    OptionalPlaced(v, s, Body(b, g, d + One(chk), false), chk, star, greedy, d);
    PosOk(v, b, g, d + One(chk), x, m);
    if chk {
      var m1 := MState(m.pos, m.cap[2 * v.n + d := m.pos]);
      SetRegister(v, b, g, d + 1, x, m, d, m.pos);
      OptionalRun(v, b, g, d, s, star, greedy, x, m, m1);
      ActRegister(v, Thread(s + 1, m), d, 0);
      var zs := Iterate(v.env, b, g, 0, StarBound(star), greedy, x);
      ExploresNext(v, Window(s, e), Thread(s + 1, m), Thread(s + 2, m1), zs, e, m.cap, fr);
    } else {
      OptionalRun(v, b, g, d, s, star, greedy, x, m, m);
    }
  }

  /** The same from the first instruction of the body, the position saved. */
  lemma {:induction false} OptionalRun(v: Machine, b: Node, g: nat, d: nat, s: int, star: bool, greedy: bool, x: State,
          m: MState, m1: MState)
    requires OptionalAt(v, b, g, d, s, star, greedy, x, m)
    requires m1 == if Checked(b, g) then MState(m.pos, m.cap[2 * v.n + d := m.pos]) else m
    requires Between(v, b, g, d + One(Checked(b, g)), x, m1)
    ensures var e := OptionalEnd(b, g, d, s, star);
            Explores(v, Window(s, e), Thread(s + 1 + One(Checked(b, g)), m1),
              Iterate(v.env, b, g, 0, StarBound(star), greedy, x), e, m.cap, Own(v, b, g, d))
    decreases |v.env.input| - x.end, 1
  {
    hide NodeOk, Body, Explores, ExploresAll, Placed, Act, Agree, Registers, CounterSafe, SubjectOk, Keeps, Checked,
         Outcomes, RepeatSeq, ExitsAs, Advancing;
    var e, fr, chk := OptionalEnd(b, g, d, s, star), Own(v, b, g, d), Checked(b, g);
    var body := Body(b, g, d + One(chk), false);
    var s1, s2 := s + 1 + One(chk), s + 1 + One(chk) + |body|;
    OptionalPlaced(v, s, body, chk, star, greedy, d);
    BodyPass(v, b, g, d + One(chk), s1, x, m1);
    var xr := Cleared(x, b, g);
    var ys := Outcomes(v.env, b, g, xr);
    OutcomesTame(v.env, b, g, xr);
    var f, ts := ExitList(v, Window(s1, s2), Thread(s1, m1), ys, s2, m1.cap, Own(v, b, g, d + One(chk)));
    forall i | 0 <= i < |ts|
      ensures Explores(v, Window(s, e), ts[i], MovedRepeat(v.env, b, g, Pred(StarBound(star)), greedy, x.end, ys[i]), e,
              m.cap, fr)
    {
      OptionalTail(v, b, g, d, s, star, greedy, x, m, m1, ts[i], ys[i]);
    }
    ExploresMoved(v, Window(s, e), b, g, Pred(StarBound(star)), greedy, ys, ts, v.n, x.end, e, m.cap, fr);
    var zs := Iterate(v.env, b, g, 0, StarBound(star), greedy, x);
    ExploresBlock(v, Window(s1, s2), Window(s, e), Thread(s1, m1), ts, f, zs, e, m.cap, fr);
  }

  /** Writing a register below the body's own. */
  lemma {:induction false} SetRegister(v: Machine, b: Node, g: nat, d: nat, x: State, m: MState, r: nat, value: int)
    requires Between(v, b, g, d, x, m) && r < d
    ensures 2 * v.n + r < |m.cap| && Between(v, b, g, d, x, MState(m.pos, m.cap[2 * v.n + r := value]))
  {
    hide Registers, CounterSafe, SubjectOk;
    var c := m.cap[2 * v.n + r := value];
    forall k: nat | k < v.n ensures RelAt(x.caps[k], c, k) {
      assert RelAt(x.caps[k], m.cap, k);
    }
  }

  /** What a pass of the body keeps of the loop's own registers. */
  lemma {:induction false} PassKeeps(v: Machine, b: Node, g: nat, d: nat, k: nat, c: seq<int>, c1: seq<int>,
          c2: seq<int>)
    requires g + Groups(b) <= v.n && 2 * v.n + d + k <= |c1| == |c|
    requires forall i :: 0 <= i < |c| && i < 2 * v.n + d ==> c1[i] == c[i]
    requires Keeps(Own(v, b, g, d + k), c1, c2)
    ensures Keeps(Own(v, b, g, d), c, c2)
    ensures forall i :: 2 * v.n <= i < 2 * v.n + d + k ==> c2[i] == c1[i]
  {
  }

  lemma {:induction false} OptionalTail(v: Machine, b: Node, g: nat, d: nat, s: int, star: bool, greedy: bool, x: State,
          m: MState, m1: MState, t: Thread, y: State)
    requires OptionalAt(v, b, g, d, s, star, greedy, x, m)
    requires m1 == if Checked(b, g) then MState(m.pos, m.cap[2 * v.n + d := m.pos]) else m
    requires ExitsAs(t, y, s + 1 + One(Checked(b, g)) + |Body(b, g, d + One(Checked(b, g)), false)|, m1.cap,
             Own(v, b, g, d + One(Checked(b, g))))
    requires ValidState(v.env, y, v.n) && y in Outcomes(v.env, b, g, Cleared(x, b, g))
             && Tame(b, g, Cleared(x, b, g).caps, y.caps)
    ensures var e := OptionalEnd(b, g, d, s, star);
            Explores(v, Window(s, e), t, MovedRepeat(v.env, b, g, Pred(StarBound(star)), greedy, x.end, y), e, m.cap,
              Own(v, b, g, d))
    decreases |v.env.input| - x.end, 0
  {
    hide NodeOk, Body, Explores, Placed, Agree, Registers, CounterSafe, SubjectOk, Keeps, Outcomes, Tame, Code, Checked,
         Repeat, OptionalCode;
    var k := One(Checked(b, g));
    var e, fr := OptionalEnd(b, g, d, s, star), Own(v, b, g, d);
    PosOk(v, b, g, d + k, x, m);
    StillBetween(v, b, g, d + k, x, m, y, t, t.pc, m1.cap);
    PassKeeps(v, b, g, d, k, m.cap, m1.cap, t.m.cap);
    PassMoves(v.env, b, g, x, y);
    var zs := MovedRepeat(v.env, b, g, Pred(StarBound(star)), greedy, x.end, y);
    if y.end != x.end {
      OptionalBack(v, b, g, d, s, star, greedy, y, t.m);
      ExploresFrom(v, Window(s, e), Thread(e - One(star), t.m), zs, e, m.cap, t.m.cap, fr, fr);
    }
    if Checked(b, g) {
      OptionalCheck(v, b, g, d, s, star, greedy, y, t, x.end, m.cap, zs);
    }
  }

  /** The zero-advance check on an exit of the body. */
  lemma {:induction false} OptionalCheck(v: Machine, b: Node, g: nat, d: nat, s: int, star: bool, greedy: bool,
          y: State, t: Thread, start: nat, c: seq<int>, zs: seq<State>)
    requires Checked(b, g) && OptionalAt(v, b, g, d, s, star, greedy, y, t.m)
             && t.pc == OptionalEnd(b, g, d, s, star) - One(star) - 1
    requires 2 * v.n + d < |t.m.cap| && t.m.cap[2 * v.n + d] == start
    requires y.end == start ==> zs == []
    requires var e := OptionalEnd(b, g, d, s, star);
             y.end != start ==> Explores(v, Window(s, e), Thread(e - One(star), t.m), zs, e, c, Own(v, b, g, d))
    ensures var e := OptionalEnd(b, g, d, s, star); Explores(v, Window(s, e), t, zs, e, c, Own(v, b, g, d))
  {
    hide NodeOk, Body, Explores, Placed, Act, Agree, Registers, CounterSafe, SubjectOk, Checked;
    var e, fr := OptionalEnd(b, g, d, s, star), Own(v, b, g, d);
    OptionalPlaced(v, s, Body(b, g, d + 1, false), true, star, greedy, d);
    PosOk(v, b, g, d + 1, y, t.m);
    ActRegister(v, t, d, 0);
    if y.end == start {
      ExploresFail(v, Window(s, e), t, e, c, fr);
    } else {
      ExploresNext(v, Window(s, e), t, Thread(e - One(star), t.m), zs, e, c, fr);
    }
  }

  /** A pass never moves back, and moves when the compiler omits the check. */
  lemma {:induction false} PassMoves(env: Env, b: Node, g: nat, x: State, y: State)
    requires WellFormed(b, |x.caps|) && g + Groups(b) <= |x.caps| && ValidState(env, x, |x.caps|)
    requires y in Outcomes(env, b, g, Cleared(x, b, g))
    ensures x.end <= y.end && (!Checked(b, g) ==> x.end < y.end)
  {
    hide Outcomes, Code;
    if !Checked(b, g) {
      ScanSound(env, b, g, Cleared(x, b, g));
    }
  }

  /** After the check: back to the split for `*`, out for `?`. */
  lemma {:induction false} OptionalBack(v: Machine, b: Node, g: nat, d: nat, s: int, star: bool, greedy: bool, y: State,
          m: MState)
    requires OptionalAt(v, b, g, d, s, star, greedy, y, m)
    ensures var e := OptionalEnd(b, g, d, s, star);
            Explores(v, Window(s, e), Thread(e - One(star), m),
              Repeat(v.env, b, g, 0, Pred(StarBound(star)), greedy, y), e, m.cap, Own(v, b, g, d))
    decreases |v.env.input| - y.end, 4
  {
    var e, fr := OptionalEnd(b, g, d, s, star), Own(v, b, g, d);
    hide NodeOk, Body, Explores, Placed, Act, Agree, Registers, CounterSafe, SubjectOk, Keeps, Repeat, Code, Checked;
    var k := One(Checked(b, g));
    var body := Body(b, g, d + k, false);
    OptionalPlaced(v, s, body, Checked(b, g), star, greedy, d);
    PosOk(v, b, g, d + k, y, m);
    if star {
      OptionalLoop(v, b, g, d, s, star, greedy, y, m);
      ActGoto(v, Thread(e - 1, m), -(|body| + 2 * k + 2));
      ExploresNext(v, Window(s, e), Thread(e - 1, m), Thread(s, m), Repeat(v.env, b, g, 0, Inf, greedy, y), e, m.cap,
        fr);
    } else {
      RepeatNever(v.env, b, g, greedy, y);
      KeepsSame(fr, m.cap);
      ExploresExit(v, Window(s, e), Thread(e, m), y, e, m.cap, fr);
    }
  }

  // counted loops

  function LoopInstr(size: nat, chk: bool, simple: bool, greedy: bool, r: nat, limit: nat): Instr {
    if simple then ILoop(r, -(size + One(chk) + 1)) else ILoopSplit(chk, !greedy, r, limit, -(size + One(chk) + 1))
  }

  function LoopBlock(body: seq<Instr>, chk: bool, simple: bool, greedy: bool, r: nat, limit: nat): seq<Instr> {
    CharPos(chk, r + 1) + body + [LoopInstr(|body|, chk, simple, greedy, r, limit)]
  }

  lemma {:induction false} LoopPlaced(v: Machine, h: int, body: seq<Instr>, chk: bool, simple: bool, greedy: bool,
          r: nat, limit: nat)
    requires Placed(v, h, LoopBlock(body, chk, simple, greedy, r, limit))
    ensures 0 <= h && h + One(chk) + |body| < |v.code|
    ensures chk ==> v.code[h] == ISetCharPos(r + 1)
    ensures Placed(v, h + One(chk), body)
    ensures v.code[h + One(chk) + |body|] == LoopInstr(|body|, chk, simple, greedy, r, limit)
  {
    var i := LoopInstr(|body|, chk, simple, greedy, r, limit);
    hide Placed, LoopInstr;
    PlacedPart(v, h, CharPos(chk, r + 1), body, [i]);
    PlacedAt(v, h + One(chk) + |body|, i);
    if chk {
      PlacedAt(v, h, ISetCharPos(r + 1));
    }
    PlacedSize(v, h, LoopBlock(body, chk, simple, greedy, r, limit));
  }

  /** Passes still required when the counter stands at cnt. */
  function Mins(cnt: nat, limit: nat): nat { if cnt > limit then cnt - limit else 0 }

  /** A counted loop's shape; where it keeps no position register, no pass can
      both be optional and stay in place. */
  datatype Counter = Counter(b: Node, g: nat, d: nat, h: int, chk: bool, simple: bool, greedy: bool, limit: nat)

  ghost function CounterBody(l: Counter): seq<Instr> { Body(l.b, l.g, l.d + 1 + One(l.chk), false) }

  ghost function CounterEnd(l: Counter): int { l.h + One(l.chk) + |CounterBody(l)| + 1 }

  ghost predicate CounterOk(v: Machine, l: Counter, lo: int) {
    && lo <= l.h && NodeOk(v, l.b, l.g, l.d + 1 + One(l.chk))
    && Placed(v, l.h, LoopBlock(CounterBody(l), l.chk, l.simple, l.greedy, l.d, l.limit))
    && (l.simple ==> l.limit == 0 && !l.chk)
    && (!l.chk && !l.simple ==> !Checked(l.b, l.g))
  }

  ghost predicate CounterAt(v: Machine, l: Counter, x: State, m: MState, cnt: nat) {
    && Between(v, l.b, l.g, l.d + 1 + One(l.chk), x, m)
    && 1 <= cnt <= INT32_MAX && m.cap[2 * v.n + l.d] == cnt
  }

  lemma {:induction false} CountedLoop(v: Machine, l: Counter, lo: int, x: State, m: MState, cnt: nat)
    requires CounterOk(v, l, lo) && CounterAt(v, l, x, m, cnt)
    ensures Explores(v, Window(lo, CounterEnd(l)), Thread(l.h, m),
                     Iterate(v.env, l.b, l.g, Mins(cnt, l.limit), Fin(cnt), l.greedy, x), CounterEnd(l), m.cap,
                       Own(v, l.b, l.g, l.d))
    decreases cnt, 2
  {
    hide NodeOk, Body, Explores, ExploresAll, Placed, Act, Agree, Registers, CounterSafe, SubjectOk, Keeps, Checked,
         Outcomes, RepeatSeq, ExitsAs, Advancing, LoopBlock, LoopInstr, ValidState;
    var Counter(b, g, d, h, chk, simple, greedy, limit) := l;
    var k := 1 + One(chk);
    var body, e, fr := CounterBody(l), CounterEnd(l), Own(v, b, g, d);
    LoopPlaced(v, h, body, chk, simple, greedy, d, limit);
    PosOk(v, b, g, d + k, x, m);
    var m1 := if chk then MState(m.pos, m.cap[2 * v.n + (d + 1) := m.pos]) else m;
    if chk {
      SetRegister(v, b, g, d + k, x, m, d + 1, m.pos);
    }
    var s1 := h + One(chk);
    BodyPass(v, b, g, d + k, s1, x, m1);
    var xr := Cleared(x, b, g);
    ClearedValid(v.env, x, b, g);
    var ys := Outcomes(v.env, b, g, xr);
    var f, ts := ExitList(v, Window(s1, e - 1), Thread(s1, m1), ys, e - 1, m1.cap, Own(v, b, g, d + k));
    CountedTails(v, l, lo, x, m, m1, cnt, ts, ys);
    var mins := Mins(cnt, limit);
    var zs := Iterate(v.env, b, g, mins, Fin(cnt), greedy, x);
    ExploresBlock(v, Window(s1, e - 1), Window(lo, e), Thread(s1, m1), ts, f, zs, e, m.cap, fr);
    if chk {
      ActRegister(v, Thread(h, m), d + 1, 0);
      ExploresNext(v, Window(lo, e), Thread(h, m), Thread(s1, m1), zs, e, m.cap, fr);
    }
  }

  lemma {:induction false} ClearedValid(env: Env, x: State, b: Node, g: nat)
    requires ValidState(env, x, |x.caps|)
    ensures ValidState(env, Cleared(x, b, g), |x.caps|) && |Cleared(x, b, g).caps| == |x.caps|
  {
  }

  lemma {:induction false} CountedTails(v: Machine, l: Counter, lo: int, x: State, m: MState, m1: MState, cnt: nat,
          ts: seq<Thread>, ys: seq<State>)
    requires CounterOk(v, l, lo) && CounterAt(v, l, x, m, cnt)
    requires m1 == if l.chk then MState(m.pos, m.cap[2 * v.n + (l.d + 1) := m.pos]) else m
    requires ys == Outcomes(v.env, l.b, l.g, Cleared(x, l.b, l.g))
    requires Exits(ts, ys, CounterEnd(l) - 1, m1.cap, Own(v, l.b, l.g, l.d + 1 + One(l.chk)))
    ensures ExploresAll(v, Window(lo, CounterEnd(l)), ts,
                        Iterate(v.env, l.b, l.g, Mins(cnt, l.limit), Fin(cnt), l.greedy, x), CounterEnd(l), m.cap,
                          Own(v, l.b, l.g, l.d))
    decreases cnt, 1
  {
    hide NodeOk, Body, Explores, ExploresAll, Placed, Agree, Registers, CounterSafe, SubjectOk, Keeps, Checked,
         Outcomes, RepeatSeq, ExitsAs, Advancing, LoopBlock, LoopInstr, Tame, Repeat;
    var Counter(b, g, d, h, chk, simple, greedy, limit) := l;
    var e, fr, mins := CounterEnd(l), Own(v, b, g, d), Mins(cnt, limit);
    OutcomesTame(v.env, b, g, Cleared(x, b, g));
    forall i | 0 <= i < |ts|
      ensures mins > 0 ==> Explores(v, Window(lo, e), ts[i], Repeat(v.env, b, g, mins - 1, Fin(cnt - 1), greedy, ys[i]),
              e, m.cap, fr)
      ensures mins == 0 ==> Explores(v, Window(lo, e), ts[i],
              MovedRepeat(v.env, b, g, Fin(cnt - 1), greedy, x.end, ys[i]), e, m.cap, fr)
    {
      CountedTail(v, l, lo, x, m, m1, cnt, ts[i], ys[i]);
    }
    if mins > 0 {
      ExploresRepeatSeq(v, Window(lo, e), b, g, mins - 1, Fin(cnt - 1), greedy, ys, ts, v.n, x.end, e, m.cap, fr);
    } else {
      ExploresMoved(v, Window(lo, e), b, g, Fin(cnt - 1), greedy, ys, ts, v.n, x.end, e, m.cap, fr);
    }
  }

  lemma {:induction false} CountedTail(v: Machine, l: Counter, lo: int, x: State, m: MState, m1: MState, cnt: nat,
          t: Thread, y: State)
    requires CounterOk(v, l, lo) && CounterAt(v, l, x, m, cnt)
    requires m1 == if l.chk then MState(m.pos, m.cap[2 * v.n + (l.d + 1) := m.pos]) else m
    requires ExitsAs(t, y, CounterEnd(l) - 1, m1.cap, Own(v, l.b, l.g, l.d + 1 + One(l.chk)))
    requires ValidState(v.env, y, v.n) && y in Outcomes(v.env, l.b, l.g, Cleared(x, l.b, l.g))
             && Tame(l.b, l.g, Cleared(x, l.b, l.g).caps, y.caps)
    ensures Mins(cnt, l.limit) > 0 ==>
      Explores(v, Window(lo, CounterEnd(l)), t, Repeat(v.env, l.b, l.g, Mins(cnt, l.limit) - 1, Fin(cnt - 1), l.greedy,
        y), CounterEnd(l), m.cap, Own(v, l.b, l.g, l.d))
    ensures Mins(cnt, l.limit) == 0 ==>
      Explores(v, Window(lo, CounterEnd(l)), t, MovedRepeat(v.env, l.b, l.g, Fin(cnt - 1), l.greedy, x.end, y),
        CounterEnd(l), m.cap, Own(v, l.b, l.g, l.d))
    decreases cnt, 0
  {
    hide NodeOk, Body, Explores, Placed, Agree, Registers, CounterSafe, SubjectOk, Keeps, Outcomes, Tame, Code, Checked,
         Repeat, LoopBlock, LoopInstr;
    var Counter(b, g, d, h, chk, simple, greedy, limit) := l;
    var k := 1 + One(chk);
    var e, fr := CounterEnd(l), Own(v, b, g, d);
    PosOk(v, b, g, d + k, x, m);
    StillBetween(v, b, g, d + k, x, m, y, t, t.pc, m1.cap);
    PassKeeps(v, b, g, d, k, m.cap, m1.cap, t.m.cap);
    assert t.m.cap[2 * v.n + d] == cnt;
    assert chk ==> t.m.cap[2 * v.n + d + 1] == x.end;
    PassMoves(v.env, b, g, x, y);
    PosOk(v, b, g, d + k, y, t.m);
    var m' := MState(t.m.pos, t.m.cap[2 * v.n + d := cnt - 1]);
    SetRegister(v, b, g, d + k, y, t.m, d, cnt - 1);
    KeepsCounter(v, b, g, d, m.cap, t.m.cap, cnt - 1);
    LoopBack(v, l, lo, x.end, y, t, cnt);
    var val := cnt - 1;
    var again := Iterate(v.env, b, g, Mins(val, limit), Fin(val), greedy, y);
    if val > 0 {
      CountedLoop(v, l, lo, y, m', val);
      ExploresFrom(v, Window(lo, e), Thread(h, m'), again, e, m.cap, m'.cap, fr, fr);
    }
    LeaveLoop(v, l, lo, y, m', m.cap);
    CountedChoice(v, l, lo, x.end, y, t, m', m.cap, cnt);
  }

  lemma {:induction false} KeepsCounter(v: Machine, b: Node, g: nat, d: nat, c: seq<int>, c1: seq<int>, value: int)
    requires Keeps(Own(v, b, g, d), c, c1) && 2 * v.n + d < |c1| && g + Groups(b) <= v.n
    ensures Keeps(Own(v, b, g, d), c, c1[2 * v.n + d := value])
  {
  }

  lemma {:induction false} LeaveLoop(v: Machine, l: Counter, lo: int, y: State, m: MState, c: seq<int>)
    requires Between(v, l.b, l.g, l.d + 1 + One(l.chk), y, m) && Keeps(Own(v, l.b, l.g, l.d), c, m.cap)
    ensures Explores(v, Window(lo, CounterEnd(l)), Thread(CounterEnd(l), m), [y], CounterEnd(l), c,
            Own(v, l.b, l.g, l.d))
  {
    hide NodeOk, Body, Explores, Registers, CounterSafe, SubjectOk, Keeps, Agree;
    ExploresExit(v, Window(lo, CounterEnd(l)), Thread(CounterEnd(l), m), y, CounterEnd(l), c, Own(v, l.b, l.g, l.d));
  }

  /** What the loop instruction does with the counter. */
  lemma {:induction false} LoopBack(v: Machine, l: Counter, lo: int, start: nat, y: State, t: Thread, cnt: nat)
    requires CounterOk(v, l, lo) && t.pc == CounterEnd(l) - 1 && t.m.pos == y.end <= |v.env.input|
             && 1 <= cnt <= INT32_MAX
    requires 2 * v.n + l.d + One(l.chk) < |t.m.cap| && t.m.cap[2 * v.n + l.d] == cnt
    requires l.chk ==> t.m.cap[2 * v.n + l.d + 1] == start
    ensures ValidThread(v, t) && lo <= t.pc
    ensures var m', e, val := MState(t.m.pos, t.m.cap[2 * v.n + l.d := cnt - 1]), CounterEnd(l), cnt - 1;
            Act(v, t) ==
              if val > l.limit then Next(Thread(l.h, m'))
              else if l.chk && y.end == start && val != l.limit then Fail
              else if val == 0 then Next(Thread(e, m'))
              else if l.greedy then Fork(Thread(l.h, m'), Thread(e, m')) else Fork(Thread(e, m'), Thread(l.h, m'))
  {
    hide NodeOk, Body, Placed, Checked, LoopBlock;
    LoopPlaced(v, l.h, CounterBody(l), l.chk, l.simple, l.greedy, l.d, l.limit);
    ActLoop(v, t, l.d);
    hide Act;
    assert Decrement(cnt) == cnt - 1;
  }

  lemma {:induction false} CountedChoice(v: Machine, l: Counter, lo: int, start: nat, y: State, t: Thread, m': MState,
          c: seq<int>, cnt: nat)
    requires WellFormed(l.b, v.n) && l.g + Groups(l.b) <= v.n == |y.caps| && ValidState(v.env, y, v.n)
    requires ValidThread(v, t) && lo <= t.pc == CounterEnd(l) - 1 && 1 <= cnt
    requires (l.simple ==> l.limit == 0 && !l.chk) && (!l.chk && !l.simple ==> y.end != start)
    requires var e, val := CounterEnd(l), cnt - 1;
             Act(v, t) ==
               if val > l.limit then Next(Thread(l.h, m'))
               else if l.chk && y.end == start && val != l.limit then Fail
               else if val == 0 then Next(Thread(e, m'))
               else if l.greedy then Fork(Thread(l.h, m'), Thread(e, m')) else Fork(Thread(e, m'), Thread(l.h, m'))
    requires cnt > 1 ==>
      Explores(v, Window(lo, CounterEnd(l)), Thread(l.h, m'),
        Iterate(v.env, l.b, l.g, Mins(cnt - 1, l.limit), Fin(cnt - 1), l.greedy, y), CounterEnd(l), c,
        Own(v, l.b, l.g, l.d))
    requires Explores(v, Window(lo, CounterEnd(l)), Thread(CounterEnd(l), m'), [y], CounterEnd(l), c,
             Own(v, l.b, l.g, l.d))
    ensures Mins(cnt, l.limit) > 0 ==>
      Explores(v, Window(lo, CounterEnd(l)), t, Repeat(v.env, l.b, l.g, Mins(cnt, l.limit) - 1, Fin(cnt - 1), l.greedy,
        y), CounterEnd(l), c, Own(v, l.b, l.g, l.d))
    ensures Mins(cnt, l.limit) == 0 ==>
      Explores(v, Window(lo, CounterEnd(l)), t, MovedRepeat(v.env, l.b, l.g, Fin(cnt - 1), l.greedy, start, y),
        CounterEnd(l), c, Own(v, l.b, l.g, l.d))
  {
    hide NodeOk, Body, Explores, Act, Iterate, ValidState, Forward;
    var e, val, w, fr := CounterEnd(l), cnt - 1, Window(lo, CounterEnd(l)), Own(v, l.b, l.g, l.d);
    var again := Iterate(v.env, l.b, l.g, Mins(val, l.limit), Fin(val), l.greedy, y);
    if val > l.limit {
      ExploresNext(v, w, t, Thread(l.h, m'), again, e, c, fr);
    } else if l.chk && y.end == start && val != l.limit {
      ExploresFail(v, w, t, e, c, fr);
    } else if val == 0 {
      ExploresNext(v, w, t, Thread(e, m'), [y], e, c, fr);
    } else if l.greedy {
      ExploresFork(v, w, t, Thread(l.h, m'), Thread(e, m'), again, [y], e, c, fr);
    } else {
      ExploresFork(v, w, t, Thread(e, m'), Thread(l.h, m'), [y], again, e, c, fr);
    }
  }

  // `+` on an atom that always advances

  ghost predicate PlusAt(v: Machine, b: Node, g: nat, d: nat, s: int, greedy: bool, x: State, m: MState) {
    && Between(v, b, g, d, x, m) && !Checked(b, g) && NodeOk(v, b, g, d)
    && Placed(v, s, Body(b, g, d, false) + [ISplit(!greedy, -(|Body(b, g, d, false)| + 1))])
  }

  lemma {:induction false} PlusLoop(v: Machine, b: Node, g: nat, d: nat, s: int, greedy: bool, x: State, m: MState,
          min: nat)
    requires PlusAt(v, b, g, d, s, greedy, x, m) && min <= 1
    ensures var e := s + |Body(b, g, d, false)| + 1;
            Explores(v, Window(s, e), Thread(s, m), Iterate(v.env, b, g, min, Inf, greedy, x), e, m.cap,
              Own(v, b, g, d))
    decreases |v.env.input| - x.end, 1
  {
    hide NodeOk, Body, Explores, ExploresAll, Placed, Agree, Registers, CounterSafe, SubjectOk, Keeps, Checked,
         Outcomes, RepeatSeq, ExitsAs, Advancing, Tame;
    var body, fr := Body(b, g, d, false), Own(v, b, g, d);
    var p, e := s + |body|, s + |body| + 1;
    PlacedTwo(v, s, body, [ISplit(!greedy, -(|body| + 1))]);
    BodyPass(v, b, g, d, s, x, m);
    var ys := Outcomes(v.env, b, g, Cleared(x, b, g));
    OutcomesTame(v.env, b, g, Cleared(x, b, g));
    var f, ts := ExitList(v, Window(s, p), Thread(s, m), ys, p, m.cap, fr);
    forall i | 0 <= i < |ts|
      ensures x.end < ys[i].end && Explores(v, Window(s, e), ts[i], Repeat(v.env, b, g, 0, Inf, greedy, ys[i]), e,
              m.cap, fr)
    {
      PlusTail(v, b, g, d, s, greedy, x, m, ts[i], ys[i]);
    }
    if min == 1 {
      ExploresRepeatSeq(v, Window(s, e), b, g, 0, Inf, greedy, ys, ts, v.n, x.end, e, m.cap, fr);
    } else {
      ExploresMoved(v, Window(s, e), b, g, Inf, greedy, ys, ts, v.n, x.end, e, m.cap, fr);
    }
    ExploresBlock(v, Window(s, p), Window(s, e), Thread(s, m), ts, f, Iterate(v.env, b, g, min, Inf, greedy, x), e,
      m.cap, fr);
  }

  lemma {:induction false} PlusTail(v: Machine, b: Node, g: nat, d: nat, s: int, greedy: bool, x: State, m: MState,
          t: Thread, y: State)
    requires PlusAt(v, b, g, d, s, greedy, x, m)
    requires ExitsAs(t, y, s + |Body(b, g, d, false)|, m.cap, Own(v, b, g, d))
    requires ValidState(v.env, y, v.n) && y in Outcomes(v.env, b, g, Cleared(x, b, g))
             && Tame(b, g, Cleared(x, b, g).caps, y.caps)
    ensures x.end < y.end
    ensures var e := s + |Body(b, g, d, false)| + 1;
            Explores(v, Window(s, e), t, Repeat(v.env, b, g, 0, Inf, greedy, y), e, m.cap, Own(v, b, g, d))
    decreases |v.env.input| - x.end, 0
  {
    hide NodeOk, Body, Explores, Placed, Act, Agree, Registers, CounterSafe, SubjectOk, Keeps, Outcomes, Tame, Code,
         Checked, Iterate;
    var body, fr := Body(b, g, d, false), Own(v, b, g, d);
    var split := ISplit(!greedy, -(|body| + 1));
    var p, e := s + |body|, s + |body| + 1;
    PlacedTwo(v, s, body, [split]);
    PlacedAt(v, p, split);
    PlacedSize(v, s, body);
    StillBetween(v, b, g, d, x, m, y, t, p, m.cap);
    PassMoves(v.env, b, g, x, y);
    PosOk(v, b, g, d, y, t.m);
    PlusLoop(v, b, g, d, s, greedy, y, t.m, 0);
    var again := Iterate(v.env, b, g, 0, Inf, greedy, y);
    ExploresFrom(v, Window(s, e), Thread(s, t.m), again, e, m.cap, t.m.cap, fr, fr);
    ExploresExit(v, Window(s, e), Thread(e, t.m), y, e, m.cap, fr);
    ActSplit(v, t, !greedy, -(|body| + 1));
    if greedy {
      ExploresFork(v, Window(s, e), t, Thread(s, t.m), Thread(e, t.m), again, [y], e, m.cap, fr);
    } else {
      ExploresFork(v, Window(s, e), t, Thread(e, t.m), Thread(s, t.m), [y], again, e, m.cap, fr);
    }
  }

  // ----- quantifiers -----

  lemma {:induction false} FitBody(v: Machine, b: Node, min: nat, max: nat, greedy: bool, g: nat, d: nat, x: State,
          m: MState)
    requires Fit(v, Quant(b, min, max, greedy), g, d, x, m) && UnsetFrom(x, g, Groups(b)) && max > 0
    ensures Between(v, b, g, d + LoopRegs(b, g, ShapeOf(b, g, min, max)), x, m)
  {
    hide NodeOk, Agree, ValidState, SubjectOk, LoopRegs;
  }

  /** Resetting captures that are unset changes nothing the pattern can see. */
  lemma {:induction false} PresetFits(v: Machine, node: Node, g: nat, d: nat, x: State, m: MState)
    requires Fit(v, node, g, d, x, m) && UnsetFrom(x, g, Groups(node)) && Groups(node) > 0
    ensures Fit(v, node, g, d, x, MState(m.pos, ResetCaps(m.cap, g, g + Groups(node) - 1)))
    ensures Keeps(Own(v, node, g, d), m.cap, ResetCaps(m.cap, g, g + Groups(node) - 1))
  {
    hide Registers, CounterSafe, SubjectOk, ValidState;
    var m1 := MState(m.pos, ResetCaps(m.cap, g, g + Groups(node) - 1));
    forall k: nat | k < v.n ensures RelAt(x.caps[k], m1.cap, k) {
      assert RelAt(x.caps[k], m.cap, k);
    }
  }

  /** The code of a quantifier after its optional leading reset. */
  function QuantCore(shape: Shape, chk: bool, body: seq<Instr>, min: nat, max: nat, greedy: bool, r: nat,
          r1: nat): seq<Instr> {
    QuantCode(shape, chk, [], body, min, max, greedy, r, r1)
  }

  lemma {:induction false} PresetFirst(shape: Shape, chk: bool, pre: seq<Instr>, body: seq<Instr>, min: nat, max: nat,
          greedy: bool, r: nat, r1: nat)
    requires shape.Plus? || shape.Counted? ==> pre == []
    ensures QuantCode(shape, chk, pre, body, min, max, greedy, r, r1)
            == pre + QuantCore(shape, chk, body, min, max, greedy, r, r1)
  {
    hide OptionalCode, CountedCode;
    match shape
    case Never => assert pre + [] == pre;
    case Optional(star) =>
      var c := OptionalCode(body, chk, star, greedy, r);
      assert [] + c == c;
    case OptionalCounted =>
      var c := [ISplit(greedy, |body| + One(chk) + 2)] + CountedCode(body, chk, false, greedy, r, r1, max, max);
      assert [] + c == c;
    case Plus =>
      var c := body + [ISplit(!greedy, -(|body| + 1))];
      assert [] + c == c;
    case Counted(simple) =>
      var c := QuantCode(shape, chk, pre, body, min, max, greedy, r, r1);
      assert [] + c == c;
  }

  ghost function CoreOf(b: Node, min: nat, max: nat, greedy: bool, g: nat, d: nat): seq<Instr> {
    var shape := ShapeOf(b, g, min, max);
    QuantCore(shape, LoopCheck(b, g, shape), Body(b, g, d + LoopRegs(b, g, shape), false), min, max, greedy, d, d + 1)
  }

  ghost predicate CoreAt(v: Machine, b: Node, min: nat, max: nat, greedy: bool, g: nat, d: nat, s: int, x: State,
          m: MState) {
    && Fit(v, Quant(b, min, max, greedy), g, d, x, m) && UnsetFrom(x, g, Groups(b))
    && NodeOk(v, b, g, d + LoopRegs(b, g, ShapeOf(b, g, min, max))) && Placed(v, s, CoreOf(b, min, max, greedy, g, d))
  }

  ghost predicate CoreSound(v: Machine, b: Node, min: nat, max: nat, greedy: bool, g: nat, d: nat, s: int, x: State,
          m: MState)
    requires CoreAt(v, b, min, max, greedy, g, d, s, x, m)
  {
    var e := s + |CoreOf(b, min, max, greedy, g, d)|;
    Explores(v, Window(s, e), Thread(s, m), Repeat(v.env, b, g, min, BoundOf(v.env, max), greedy, x), e, m.cap,
      Own(v, b, g, d))
  }

  lemma {:induction false} CoreNever(v: Machine, b: Node, greedy: bool, g: nat, d: nat, s: int, x: State, m: MState)
    requires CoreAt(v, b, 0, 0, greedy, g, d, s, x, m)
    ensures CoreSound(v, b, 0, 0, greedy, g, d, s, x, m)
  {
    hide NodeOk, Body, Explores, LoopCheck, LoopRegs;
    RepeatNever(v.env, b, g, greedy, x);
    KeepsSame(Own(v, b, g, d), m.cap);
    ExploresExit(v, Window(s, s), Thread(s, m), x, s, m.cap, Own(v, b, g, d));
  }

  // the four shapes, spelled out

  lemma {:induction false} CoreIsOptional(b: Node, max: nat, greedy: bool, g: nat, d: nat)
    requires max == 1 || max == INT32_MAX
    ensures LoopRegs(b, g, ShapeOf(b, g, 0, max)) == One(Checked(b, g))
    ensures CoreOf(b, 0, max, greedy, g, d) ==
            OptionalCode(Body(b, g, d + One(Checked(b, g)), false), Checked(b, g), max == INT32_MAX, greedy, d)
  {
    hide Body, Checked, OptionalCode;
    var c := OptionalCode(Body(b, g, d + One(Checked(b, g)), false), Checked(b, g), max == INT32_MAX, greedy, d);
    assert [] + c == c;
  }

  lemma {:induction false} CoreIsPlus(b: Node, greedy: bool, g: nat, d: nat)
    requires !Checked(b, g)
    ensures LoopRegs(b, g, ShapeOf(b, g, 1, INT32_MAX)) == 0
    ensures CoreOf(b, 1, INT32_MAX, greedy, g, d)
            == Body(b, g, d, false) + [ISplit(!greedy, -(|Body(b, g, d, false)| + 1))]
  {
    hide Body, Checked, CountedCode, OptionalCode;
  }

  lemma {:induction false} CoreIsOptionalCounted(b: Node, max: nat, greedy: bool, g: nat, d: nat)
    requires 1 < max < INT32_MAX
    ensures LoopRegs(b, g, ShapeOf(b, g, 0, max)) == 1 + One(Checked(b, g))
    ensures var body := Body(b, g, d + 1 + One(Checked(b, g)), false);
            CoreOf(b, 0, max, greedy, g, d) == [ISplit(greedy, |body| + One(Checked(b, g)) + 2)]
              + CountedCode(body, Checked(b, g), false, greedy, d, d + 1, max, max)
  {
    hide Body, Checked, CountedCode, OptionalCode;
    var body := Body(b, g, d + (1 + One(Checked(b, g))), false);
    var c := [ISplit(greedy, |body| + One(Checked(b, g)) + 2)]
      + CountedCode(body, Checked(b, g), false, greedy, d, d + 1, max, max);
    assert [] + c == c;
    assert d + (1 + One(Checked(b, g))) == d + 1 + One(Checked(b, g));
  }

  lemma {:induction false} CoreIsCounted(b: Node, min: nat, max: nat, greedy: bool, g: nat, d: nat, chk: bool)
    requires 0 < min <= max && ShapeOf(b, g, min, max).Counted? && chk == (Checked(b, g) && min != max)
    ensures LoopRegs(b, g, ShapeOf(b, g, min, max)) == 1 + One(chk)
    ensures CoreOf(b, min, max, greedy, g, d) ==
            CountedCode(Body(b, g, d + 1 + One(chk), false), chk, min == max, greedy, d, d + 1, max, max - min)
  {
    hide Body, Checked, CountedCode, OptionalCode;
    assert d + (1 + One(chk)) == d + 1 + One(chk);
  }

  lemma {:induction false} CoreOptional(v: Machine, b: Node, max: nat, greedy: bool, g: nat, d: nat, s: int, x: State,
          m: MState)
    requires CoreAt(v, b, 0, max, greedy, g, d, s, x, m) && (max == 1 || max == INT32_MAX)
    ensures CoreSound(v, b, 0, max, greedy, g, d, s, x, m)
  {
    hide NodeOk, Body, Explores, Placed, Fit, UnsetFrom, Repeat, Checked, CoreOf, LoopRegs, ShapeOf, OptionalCode,
         ValidState, Forward;
    FitBody(v, b, 0, max, greedy, g, d, x, m);
    CoreIsOptional(b, max, greedy, g, d);
    OptionalLayout(Body(b, g, d + One(Checked(b, g)), false), Checked(b, g), max == INT32_MAX, greedy, d);
    OptionalLoop(v, b, g, d, s, max == INT32_MAX, greedy, x, m);
    StarBoundOk(v, b, max, greedy, g, d, x, m);
  }

  /** Without a minimum, INT32_MAX passes are enough for every subject. */
  lemma {:induction false} StarBoundOk(v: Machine, b: Node, max: nat, greedy: bool, g: nat, d: nat, x: State, m: MState)
    requires Fit(v, Quant(b, 0, max, greedy), g, d, x, m) && (max == 1 || max == INT32_MAX)
    ensures Repeat(v.env, b, g, 0, StarBound(max == INT32_MAX), greedy, x)
            == Repeat(v.env, b, g, 0, BoundOf(v.env, max), greedy, x)
  {
    hide Repeat, Code, Registers, CounterSafe, Agree;
    if v.env.capped && max == INT32_MAX {
      RepeatUnbounded(v.env, b, g, 0, max, greedy, x);
    }
  }

  lemma {:induction false} CorePlus(v: Machine, b: Node, greedy: bool, g: nat, d: nat, s: int, x: State, m: MState)
    requires CoreAt(v, b, 1, INT32_MAX, greedy, g, d, s, x, m) && !Checked(b, g)
    ensures CoreSound(v, b, 1, INT32_MAX, greedy, g, d, s, x, m)
  {
    hide NodeOk, Body, Explores, Placed, Fit, UnsetFrom, Checked, Iterate, CoreOf, LoopRegs, ShapeOf;
    FitBody(v, b, 1, INT32_MAX, greedy, g, d, x, m);
    CoreIsPlus(b, greedy, g, d);
    PlusLoop(v, b, g, d, s, greedy, x, m, 1);
    PlusBoundOk(v, b, greedy, g, d, x, m);
  }

  /** And so they are for an atom that advances. */
  lemma {:induction false} PlusBoundOk(v: Machine, b: Node, greedy: bool, g: nat, d: nat, x: State, m: MState)
    requires Fit(v, Quant(b, 1, INT32_MAX, greedy), g, d, x, m) && !Checked(b, g)
    ensures Repeat(v.env, b, g, 1, BoundOf(v.env, INT32_MAX), greedy, x) == Iterate(v.env, b, g, 1, Inf, greedy, x)
  {
    hide Code, Outcomes, RepeatSeq, Iterate, Registers, CounterSafe, Agree;
    if v.env.capped {
      RepeatUnbounded(v.env, b, g, 1, INT32_MAX, greedy, x);
    }
  }

  /** The counter is set, then the loop runs. */
  lemma {:induction false} CountedStart(v: Machine, b: Node, g: nat, d: nat, s: int, lo: int, chk: bool, simple: bool,
          greedy: bool, limit: nat, max: nat, x: State, m: MState)
    requires NodeOk(v, b, g, d + 1 + One(chk)) && Between(v, b, g, d + 1 + One(chk), x, m) && lo <= s
             && 1 <= max <= INT32_MAX
    requires Placed(v, s, CountedCode(Body(b, g, d + 1 + One(chk), false), chk, simple, greedy, d, d + 1, max, limit))
    requires (simple ==> limit == 0 && !chk) && (!chk && !simple ==> !Checked(b, g))
    ensures var e := s + |Body(b, g, d + 1 + One(chk), false)| + One(chk) + 2;
            Explores(v, Window(lo, e), Thread(s, m), Iterate(v.env, b, g, Mins(max, limit), Fin(max), greedy, x), e,
              m.cap, Own(v, b, g, d))
  {
    hide NodeOk, Body, Explores, Placed, Act, Agree, Registers, CounterSafe, SubjectOk, Keeps, Checked, Iterate,
         LoopInstr;
    var body := Body(b, g, d + 1 + One(chk), false);
    var l := Counter(b, g, d, s + 1, chk, simple, greedy, limit);
    var block := LoopBlock(body, chk, simple, greedy, d, limit);
    var init := ISetI32(d, max);
    CountedSplit(body, chk, simple, greedy, d, max, limit);
    PlacedTwo(v, s, [init], block);
    PlacedAt(v, s, init);
    PosOk(v, b, g, d + 1 + One(chk), x, m);
    SetRegister(v, b, g, d + 1 + One(chk), x, m, d, max);
    var m1 := MState(m.pos, m.cap[2 * v.n + d := max]);
    CountedLoop(v, l, lo, x, m1, max);
    var e, fr, zs := CounterEnd(l), Own(v, b, g, d), Iterate(v.env, b, g, Mins(max, limit), Fin(max), greedy, x);
    KeepsSame(fr, m.cap);
    KeepsCounter(v, b, g, d, m.cap, m.cap, max);
    ExploresFrom(v, Window(lo, e), Thread(s + 1, m1), zs, e, m.cap, m1.cap, fr, fr);
    ActRegister(v, Thread(s, m), d, max);
    ExploresNext(v, Window(lo, e), Thread(s, m), Thread(s + 1, m1), zs, e, m.cap, fr);
  }

  lemma {:induction false} CountedSplit(body: seq<Instr>, chk: bool, simple: bool, greedy: bool, d: nat, max: nat,
          limit: nat)
    ensures CountedCode(body, chk, simple, greedy, d, d + 1, max, limit)
            == [ISetI32(d, max)] + LoopBlock(body, chk, simple, greedy, d, limit)
  {
    var i := LoopInstr(|body|, chk, simple, greedy, d, limit);
    assert [ISetI32(d, max)] + CharPos(chk, d + 1) + body + [i]
      == [ISetI32(d, max)] + (CharPos(chk, d + 1) + body + [i]);
  }

  lemma {:induction false} CoreOptionalCounted(v: Machine, b: Node, max: nat, greedy: bool, g: nat, d: nat, s: int,
          x: State, m: MState)
    requires CoreAt(v, b, 0, max, greedy, g, d, s, x, m) && 1 < max < INT32_MAX
    ensures CoreSound(v, b, 0, max, greedy, g, d, s, x, m)
  {
    hide NodeOk, Body, Explores, Placed, Act, Agree, Registers, CounterSafe, SubjectOk, Keeps, Checked, Iterate,
         CountedCode, UnsetFrom, ValidState, CoreOf, LoopRegs, ShapeOf;
    FitBody(v, b, 0, max, greedy, g, d, x, m);
    CoreIsOptionalCounted(b, max, greedy, g, d);
    var chk := Checked(b, g);
    var body, fr := Body(b, g, d + 1 + One(chk), false), Own(v, b, g, d);
    var split := ISplit(greedy, |body| + One(chk) + 2);
    var rest := CountedCode(body, chk, false, greedy, d, d + 1, max, max);
    CountedSize(body, chk, false, greedy, d, d + 1, max, max);
    PlacedTwo(v, s, [split], rest);
    PlacedAt(v, s, split);
    assert d + (1 + One(chk)) == d + 1 + One(chk);
    PosOk(v, b, g, d + 1 + One(chk), x, m);
    var e := s + 1 + |rest|;
    CountedStart(v, b, g, d, s + 1, s, chk, false, greedy, max, max, x, m);
    KeepsSame(fr, m.cap);
    ExploresExit(v, Window(s, e), Thread(e, m), x, e, m.cap, fr);
    ActSplit(v, Thread(s, m), greedy, |body| + One(chk) + 2);
    var zs := Iterate(v.env, b, g, 0, Fin(max), greedy, x);
    if greedy {
      ExploresFork(v, Window(s, e), Thread(s, m), Thread(s + 1, m), Thread(e, m), zs, [x], e, m.cap, fr);
    } else {
      ExploresFork(v, Window(s, e), Thread(s, m), Thread(e, m), Thread(s + 1, m), [x], zs, e, m.cap, fr);
    }
  }

  lemma {:induction false} CountedSize(body: seq<Instr>, chk: bool, simple: bool, greedy: bool, r: nat, r1: nat,
          count: nat, limit: nat)
    ensures |CountedCode(body, chk, simple, greedy, r, r1, count, limit)| == |body| + One(chk) + 2
  {
  }

  lemma {:induction false} CoreCounted(v: Machine, b: Node, min: nat, max: nat, greedy: bool, g: nat, d: nat, s: int,
          x: State, m: MState)
    requires CoreAt(v, b, min, max, greedy, g, d, s, x, m) && min > 0 && ShapeOf(b, g, min, max).Counted?
    ensures CoreSound(v, b, min, max, greedy, g, d, s, x, m)
  {
    hide NodeOk, Body, Explores, Placed, Iterate, CountedCode, UnsetFrom, ValidState, Agree, SubjectOk, Registers,
         CounterSafe, CoreOf, LoopRegs, ShapeOf, Repeat, Checked;
    FitBody(v, b, min, max, greedy, g, d, x, m);
    CountedBound(v.env, b, min, max, greedy, g, x);
    var simple := min == max;
    var chk := Checked(b, g) && !simple;
    CoreIsCounted(b, min, max, greedy, g, d, chk);
    assert d + (1 + One(chk)) == d + 1 + One(chk);
    CountedSize(Body(b, g, d + 1 + One(chk), false), chk, simple, greedy, d, d + 1, max, max - min);
    CountedStart(v, b, g, d, s, s, chk, simple, greedy, max - min, max, x, m);
  }

  /** An INT32_MAX counter stands for infinity on short enough subjects. */
  lemma {:induction false} CountedBound(env: Env, b: Node, min: nat, max: nat, greedy: bool, g: nat, x: State)
    requires WellFormed(b, |x.caps|) && g + Groups(b) <= |x.caps| && ValidState(env, x, |x.caps|) && 0 < min <= max
    requires CountersOk(env, Quant(b, min, max, greedy), g) && ShapeOf(b, g, min, max).Counted?
    ensures Repeat(env, b, g, min, BoundOf(env, max), greedy, x) == Iterate(env, b, g, min, Fin(max), greedy, x)
  {
    hide Outcomes, RepeatSeq, Code, Iterate;
    if max == INT32_MAX && !env.capped {
      RepeatUnbounded(env, b, g, min, max, greedy, x);
    }
  }

  lemma {:induction false} CoreAll(v: Machine, b: Node, min: nat, max: nat, greedy: bool, g: nat, d: nat, s: int,
          x: State, m: MState)
    requires CoreAt(v, b, min, max, greedy, g, d, s, x, m)
    ensures CoreSound(v, b, min, max, greedy, g, d, s, x, m)
  {
    hide NodeOk, Explores, Placed, UnsetFrom, CoreOf, Repeat, Checked;
    assert min <= max;
    match ShapeOf(b, g, min, max)
    case Never => CoreNever(v, b, greedy, g, d, s, x, m);
    case Optional(_) => CoreOptional(v, b, max, greedy, g, d, s, x, m);
    case OptionalCounted => CoreOptionalCounted(v, b, max, greedy, g, d, s, x, m);
    case Plus => CorePlus(v, b, greedy, g, d, s, x, m);
    case Counted(_) => CoreCounted(v, b, min, max, greedy, g, d, s, x, m);
  }
}
