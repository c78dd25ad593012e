/** What the outcomes of a pattern leave alone, and what the scan of its code
    says about them. */
module RegexFrame {
  import opened Basics
  import opened RegexSyntax
  import opened RegexCode

  /** Capture k of the node lies under a `{0}` quantifier: no code writes it. */
  ghost predicate Dead(node: Node, g: nat, k: nat) {
    match node
    case Cat(a, b) => if k < g + Groups(a) then Dead(a, g, k) else Dead(b, g + Groups(a), k)
    case Alt(a, b) => if k < g + Groups(a) then Dead(a, g, k) else Dead(b, g + Groups(a), k)
    case Group(b) => k > g && Dead(b, g + 1, k)
    case Look(_, b) => Dead(b, g, k)
    case Quant(b, _, max, _) => max == 0 || Dead(b, g, k)
    case _ => false
  }

  /** Captures outside the node stay; dead ones stay unset. */
  ghost predicate Tame(node: Node, g: nat, c: Captures, c': Captures) {
    && |c'| == |c|
    && (forall k :: 0 <= k < |c| && !(g <= k < g + Groups(node)) ==> c'[k] == c[k])
    && (forall k :: g <= k < g + Groups(node) && k < |c| && Dead(node, g, k) && c[k].None? ==> c'[k].None?)
  }

  ghost predicate AllTame(node: Node, g: nat, c: Captures, ys: seq<State>) {
    forall i :: 0 <= i < |ys| ==> Tame(node, g, c, ys[i].caps)
  }

  lemma {:induction false} TameCat(a: Node, b: Node, g: nat, c: Captures, c1: Captures, c2: Captures)
    requires Tame(a, g, c, c1) && Tame(b, g + Groups(a), c1, c2)
    ensures Tame(Cat(a, b), g, c, c2)
  {
    forall k | g <= k < g + Groups(Cat(a, b)) && k < |c| && Dead(Cat(a, b), g, k) && c[k].None?
      ensures c2[k].None?
    {
      assert c1[k].None?;
    }
  }

  lemma {:induction false} TameAlt(a: Node, b: Node, g: nat, c: Captures, c1: Captures)
    requires Tame(a, g, c, c1) || Tame(b, g + Groups(a), c, c1)
    ensures Tame(Alt(a, b), g, c, c1)
  {
  }

  lemma {:induction false} ValidSize(env: Env, x: State, n: nat)
    requires ValidState(env, x, n)
    ensures |x.caps| == n && x.end <= |env.input|
  {
  }

  // One-step unfoldings, so that proofs can keep `Outcomes` folded.

  lemma {:induction false} CatOutcomes(env: Env, a: Node, b: Node, g: nat, x: State)
    requires WellFormed(Cat(a, b), |x.caps|) && g + Groups(Cat(a, b)) <= |x.caps| && ValidState(env, x, |x.caps|)
    ensures Outcomes(env, Cat(a, b), g, x) == OutcomesSeq(env, b, g + Groups(a), Outcomes(env, a, g, x), |x.caps|,
            x.end)
  {
    hide OutcomesSeq, CloseGroup, Repeat, Reread, Holds, Accepts, ValidState, Forward;
  }

  lemma {:induction false} AltOutcomes(env: Env, a: Node, b: Node, g: nat, x: State)
    requires WellFormed(Alt(a, b), |x.caps|) && g + Groups(Alt(a, b)) <= |x.caps| && ValidState(env, x, |x.caps|)
    ensures Outcomes(env, Alt(a, b), g, x) == Outcomes(env, a, g, x) + Outcomes(env, b, g + Groups(a), x)
  {
    hide OutcomesSeq, CloseGroup, Repeat, Reread, Holds, Accepts, ValidState, Forward;
  }

  lemma {:induction false} GroupOutcomes(env: Env, b: Node, g: nat, x: State)
    requires WellFormed(Group(b), |x.caps|) && g + Groups(Group(b)) <= |x.caps| && ValidState(env, x, |x.caps|)
    ensures Outcomes(env, Group(b), g, x) == CloseGroup(env, g, x.end, Outcomes(env, b, g + 1, x), |x.caps|)
  {
    hide OutcomesSeq, CloseGroup, Repeat, Reread, Holds, Accepts, ValidState, Forward;
  }

  lemma {:induction false} LookOutcomes(env: Env, neg: bool, b: Node, g: nat, x: State)
    requires WellFormed(Look(neg, b), |x.caps|) && g + Groups(Look(neg, b)) <= |x.caps| && ValidState(env, x, |x.caps|)
    ensures var ys := Outcomes(env, b, g, x);
            Outcomes(env, Look(neg, b), g, x) ==
            if neg != (ys == []) then [] else if neg then [x] else [State(x.end, ys[0].caps)]
  {
    hide OutcomesSeq, CloseGroup, Repeat, Reread, Holds, Accepts, ValidState, Forward;
  }

  lemma {:induction false} QuantOutcomes(env: Env, b: Node, min: nat, max: nat, greedy: bool, g: nat, x: State)
    requires WellFormed(Quant(b, min, max, greedy), |x.caps|) && g + Groups(b) <= |x.caps|
             && ValidState(env, x, |x.caps|)
    ensures Outcomes(env, Quant(b, min, max, greedy), g, x) == Repeat(env, b, g, min, BoundOf(env, max), greedy, x)
  {
    hide OutcomesSeq, CloseGroup, Repeat, Reread, Holds, Accepts, ValidState, Forward;
  }

  predicate IsLeaf(node: Node) {
    !node.Cat? && !node.Alt? && !node.Group? && !node.Look? && !node.Quant?
  }

  lemma {:induction false} LeafOutcomes(env: Env, node: Node, g: nat, x: State)
    requires WellFormed(node, |x.caps|) && g + Groups(node) <= |x.caps| && ValidState(env, x, |x.caps|) && IsLeaf(node)
    ensures |Outcomes(env, node, g, x)| <= 1
    ensures forall i :: 0 <= i < |Outcomes(env, node, g, x)| ==> Outcomes(env, node, g, x)[i].caps == x.caps
  {
  }

  lemma {:induction false} OutcomesTame(env: Env, node: Node, g: nat, x: State)
    requires WellFormed(node, |x.caps|) && g + Groups(node) <= |x.caps| && ValidState(env, x, |x.caps|)
    ensures AllTame(node, g, x.caps, Outcomes(env, node, g, x))
    decreases node, 0, 0, 0, 0
  {
    hide Tame, Outcomes, OutcomesSeq, CloseGroup, Repeat;
    match node
    case Cat(a, b) =>
      CatOutcomes(env, a, b, g, x);
      OutcomesTame(env, a, g, x);
      OutcomesSeqTame(env, a, b, g, x.caps, Outcomes(env, a, g, x), |x.caps|, x.end);
    case Alt(a, b) =>
      OutcomesTame(env, a, g, x);
      OutcomesTame(env, b, g + Groups(a), x);
      AltOutcomes(env, a, b, g, x);
      AltTame(a, b, g, x.caps, Outcomes(env, a, g, x), Outcomes(env, b, g + Groups(a), x));
    case Group(b) =>
      OutcomesTame(env, b, g + 1, x);
      GroupOutcomes(env, b, g, x);
      GroupTame(env, b, g, x.caps, x.end, Outcomes(env, b, g + 1, x));
    case Look(neg, b) =>
      OutcomesTame(env, b, g, x);
      LookOutcomes(env, neg, b, g, x);
      TameSame(node, g, x.caps);
      LookTame(b, neg, g, x.caps, Outcomes(env, b, g, x));
    case Quant(b, min, max, greedy) =>
      QuantOutcomes(env, b, min, max, greedy, g, x);
      if max != 0 {
        RepeatTame(env, b, g, min, BoundOf(env, max), greedy, x);
        QuantTame(b, min, max, greedy, g, x.caps, Repeat(env, b, g, min, BoundOf(env, max), greedy, x));
      } else {
        RepeatNever(env, b, g, greedy, x);
        TameSame(node, g, x.caps);
      }
    case _ =>
      LeafOutcomes(env, node, g, x);
      TameSame(node, g, x.caps);
  }

  lemma {:induction false} RepeatNever(env: Env, b: Node, g: nat, greedy: bool, x: State)
    requires WellFormed(b, |x.caps|) && g + Groups(b) <= |x.caps| && ValidState(env, x, |x.caps|)
    ensures Repeat(env, b, g, 0, Fin(0), greedy, x) == [x]
  {
  }

  lemma {:induction false} TameSame(node: Node, g: nat, c: Captures)
    ensures Tame(node, g, c, c)
  {
  }

  lemma {:induction false} LookTame(b: Node, neg: bool, g: nat, c: Captures, ys: seq<State>)
    requires AllTame(b, g, c, ys)
    ensures ys != [] ==> Tame(Look(neg, b), g, c, ys[0].caps)
  {
    assert ys != [] ==> Tame(b, g, c, ys[0].caps);
  }

  lemma {:induction false} QuantTame(b: Node, min: nat, max: nat, greedy: bool, g: nat, c: Captures, ys: seq<State>)
    requires AllTame(b, g, c, ys) && max != 0
    ensures AllTame(Quant(b, min, max, greedy), g, c, ys)
  {
    forall i | 0 <= i < |ys| ensures Tame(Quant(b, min, max, greedy), g, c, ys[i].caps) {
      assert Tame(b, g, c, ys[i].caps);
    }
  }

  lemma {:induction false} AltTame(a: Node, b: Node, g: nat, c: Captures, ys: seq<State>, zs: seq<State>)
    requires AllTame(a, g, c, ys) && AllTame(b, g + Groups(a), c, zs)
    ensures AllTame(Alt(a, b), g, c, ys + zs)
  {
    var both: seq<State> := ys + zs;
    forall i | 0 <= i < |both|
      ensures Tame(Alt(a, b), g, c, both[i].caps)
    {
      TameAlt(a, b, g, c, both[i].caps);
    }
  }

  lemma {:induction false} GroupTame(env: Env, b: Node, g: nat, c: Captures, start: nat, ys: seq<State>)
    requires AllTame(b, g + 1, c, ys) && g < |c| && Forward(env, ys, |c|, start)
    ensures AllTame(Group(b), g, c, CloseGroup(env, g, start, ys, |c|))
  {
    var zs := CloseGroup(env, g, start, ys, |c|);
    forall i | 0 <= i < |zs|
      ensures Tame(Group(b), g, c, zs[i].caps)
    {
      assert Tame(b, g + 1, c, ys[i].caps);
    }
  }

  lemma {:induction false} CatTame(a: Node, b: Node, g: nat, c: Captures, c1: Captures, ys: seq<State>, zs: seq<State>)
    requires Tame(a, g, c, c1) && AllTame(b, g + Groups(a), c1, ys) && AllTame(Cat(a, b), g, c, zs)
    ensures AllTame(Cat(a, b), g, c, ys + zs)
  {
    var both: seq<State> := ys + zs;
    forall i | 0 <= i < |both|
      ensures Tame(Cat(a, b), g, c, both[i].caps)
    {
      if i < |ys| {
        TameCat(a, b, g, c, c1, ys[i].caps);
      }
    }
  }

  lemma {:induction false} OutcomesSeqTame(env: Env, a: Node, b: Node, g: nat, c: Captures, xs: seq<State>, n: nat,
          from: nat)
    requires |c| == n && WellFormed(b, n) && g + Groups(a) + Groups(b) <= n && Forward(env, xs, n, from)
    requires AllTame(a, g, c, xs)
    ensures AllTame(Cat(a, b), g, c, OutcomesSeq(env, b, g + Groups(a), xs, n, from))
    decreases b, 1, 0, 0, |xs|
  {
    hide Tame, Outcomes;
    if xs != [] {
      OutcomesTame(env, b, g + Groups(a), xs[0]);
      OutcomesSeqTame(env, a, b, g, c, xs[1..], n, from);
      CatTame(a, b, g, c, xs[0].caps, Outcomes(env, b, g + Groups(a), xs[0]),
        OutcomesSeq(env, b, g + Groups(a), xs[1..], n, from));
    }
  }

  lemma {:induction false} RepeatTame(env: Env, b: Node, g: nat, min: nat, max: Bound, greedy: bool, x: State)
    requires WellFormed(b, |x.caps|) && g + Groups(b) <= |x.caps| && ValidState(env, x, |x.caps|)
    ensures AllTame(b, g, x.caps, Repeat(env, b, g, min, max, greedy, x))
    decreases b, 2, min, |env.input| + 1 - x.end, 1
  {
    hide Tame, Iterate, Outcomes;
    TameSame(b, g, x.caps);
    if max != Fin(0) {
      IterateTame(env, b, g, min, max, greedy, x);
    }
  }

  lemma {:induction false} AdvancingTame(env: Env, b: Node, g: nat, c: Captures, ys: seq<State>, start: nat, n: nat)
    requires Forward(env, ys, n, start) && AllTame(b, g, c, ys)
    ensures AllTame(b, g, c, Advancing(env, ys, start, n))
    decreases |ys|
  {
    if ys != [] {
      assert forall i :: 0 <= i < |ys[1..]| ==> ys[1..][i] == ys[i + 1];
      AdvancingTame(env, b, g, c, ys[1..], start, n);
    }
  }

  lemma {:induction false} IterateTame(env: Env, b: Node, g: nat, min: nat, max: Bound, greedy: bool, x: State)
    requires WellFormed(b, |x.caps|) && g + Groups(b) <= |x.caps| && ValidState(env, x, |x.caps|)
    ensures AllTame(b, g, x.caps, Iterate(env, b, g, min, max, greedy, x))
    decreases b, 2, min, |env.input| + 1 - x.end, 0
  {
    hide Outcomes, RepeatSeq, Advancing;
    var xr := State(x.end, Unset(x.caps, g, Groups(b)));
    var ys := Outcomes(env, b, g, xr);
    OutcomesTame(env, b, g, xr);
    forall i | 0 <= i < |ys|
      ensures Tame(b, g, x.caps, ys[i].caps)
    {
      assert Tame(b, g, xr.caps, ys[i].caps);
    }
    if min > 0 {
      RepeatSeqTame(env, b, g, min - 1, Pred(max), greedy, x.caps, ys, |x.caps|, x.end);
    } else {
      AdvancingTame(env, b, g, x.caps, ys, x.end, |x.caps|);
      RepeatSeqTame(env, b, g, 0, Pred(max), greedy, x.caps, Advancing(env, ys, x.end, |x.caps|), |x.caps|, x.end + 1);
    }
  }

  lemma {:induction false} RepeatSeqTame(env: Env, b: Node, g: nat, min: nat, max: Bound, greedy: bool, c: Captures,
          xs: seq<State>, n: nat, from: nat)
    requires |c| == n && WellFormed(b, n) && g + Groups(b) <= n && Forward(env, xs, n, from) && from <= |env.input| + 1
    requires AllTame(b, g, c, xs)
    ensures AllTame(b, g, c, RepeatSeq(env, b, g, min, max, greedy, xs, n, from))
    decreases b, 2, min, |env.input| + 1 - from, |xs| + 2
  {
    hide Repeat, Outcomes;
    if xs != [] {
      RepeatTame(env, b, g, min, max, greedy, xs[0]);
      assert Tame(b, g, c, xs[0].caps);
      var ys := Repeat(env, b, g, min, max, greedy, xs[0]);
      forall i | 0 <= i < |ys|
        ensures Tame(b, g, c, ys[i].caps)
      {
        assert Tame(b, g, xs[0].caps, ys[i].caps);
      }
      RepeatSeqTame(env, b, g, min, max, greedy, c, xs[1..], n, from);
    }
  }

  // ----- registers do not matter to the scan -----

  function Erase(i: Instr): Instr {
    match i
    case ISetI32(_, v) => ISetI32(0, v)
    case ISetCharPos(_) => ISetCharPos(0)
    case ICheckAdvance(_) => ICheckAdvance(0)
    case ILoop(_, rel) => ILoop(0, rel)
    case ILoopSplit(c, nf, _, l, rel) => ILoopSplit(c, nf, 0, l, rel)
    case _ => i
  }

  ghost function EraseAll(code: seq<Instr>): (r: seq<Instr>)
    ensures |r| == |code| && forall i :: 0 <= i < |code| ==> r[i] == Erase(code[i])
  {
    seq(|code|, i requires 0 <= i < |code| => Erase(code[i]))
  }

  lemma {:induction false} EraseConcat(a: seq<Instr>, b: seq<Instr>)
    ensures EraseAll(a + b) == EraseAll(a) + EraseAll(b)
  {
    assert EraseAll(a + b) == EraseAll(a) + EraseAll(b);
  }

  lemma {:induction false} EraseBody(b: Node, g: nat, d: nat, d': nat)
    requires Code(b, g, d, true) == EraseAll(Code(b, g, d', false))
    ensures Body(b, g, d, true) == EraseAll(Body(b, g, d', false))
  {
    var pre := if Initialized(b, g) then Reset(b, g) else [];
    EraseConcat(pre, Code(b, g, d', false));
    assert EraseAll(pre) == pre;
  }

  lemma {:induction false} EraseCounted(body: seq<Instr>, chk: bool, simple: bool, greedy: bool, r: nat, r1: nat,
          count: nat, limit: nat)
    ensures CountedCode(EraseAll(body), chk, simple, greedy, 0, 0, count, limit)
            == EraseAll(CountedCode(body, chk, simple, greedy, r, r1, count, limit))
  {
    var a, b := CountedCode(EraseAll(body), chk, simple, greedy, 0, 0, count, limit),
      CountedCode(body, chk, simple, greedy, r, r1, count, limit);
    assert |a| == |b|;
    assert a == EraseAll(b);
  }

  lemma {:induction false} EraseOptional(body: seq<Instr>, chk: bool, star: bool, greedy: bool, r: nat)
    ensures OptionalCode(EraseAll(body), chk, star, greedy, 0) == EraseAll(OptionalCode(body, chk, star, greedy, r))
  {
    var a, b := OptionalCode(EraseAll(body), chk, star, greedy, 0), OptionalCode(body, chk, star, greedy, r);
    assert |a| == |b|;
    assert a == EraseAll(b);
  }

  lemma {:induction false} EraseQuant(shape: Shape, chk: bool, pre: seq<Instr>, body: seq<Instr>, min: nat, max: nat,
          greedy: bool, r: nat, r1: nat)
    requires EraseAll(pre) == pre
    ensures QuantCode(shape, chk, pre, EraseAll(body), min, max, greedy, 0, 0)
            == EraseAll(QuantCode(shape, chk, pre, body, min, max, greedy, r, r1))
  {
    hide EraseAll, CountedCode, OptionalCode;
    match shape
    case Never =>
    case Optional(star) =>
      EraseOptional(body, chk, star, greedy, r);
      EraseConcat(pre, OptionalCode(body, chk, star, greedy, r));
    case OptionalCounted =>
      var split := [ISplit(greedy, |body| + One(chk) + 2)];
      var rest := CountedCode(body, chk, false, greedy, r, r1, max, max);
      EraseCounted(body, chk, false, greedy, r, r1, max, max);
      EraseConcat(pre, split + rest);
      EraseConcat(split, rest);
      assert EraseAll(split) == split;
    case Plus =>
      var split := [ISplit(!greedy, -(|body| + 1))];
      EraseConcat(body, split);
      assert EraseAll(split) == split;
    case Counted(simple) =>
      EraseCounted(body, chk, simple, greedy, r, r1, max, if min <= max then max - min else 0);
  }

  lemma {:induction false} EraseAlt(ca: seq<Instr>, cb: seq<Instr>)
    ensures AltCode(EraseAll(ca), EraseAll(cb)) == EraseAll(AltCode(ca, cb))
  {
    assert |AltCode(EraseAll(ca), EraseAll(cb))| == |EraseAll(AltCode(ca, cb))|;
    assert AltCode(EraseAll(ca), EraseAll(cb)) == EraseAll(AltCode(ca, cb));
  }

  lemma {:induction false} EraseAround(g: nat, neg: bool, cb: seq<Instr>)
    ensures GroupCode(g, EraseAll(cb)) == EraseAll(GroupCode(g, cb))
    ensures LookCode(neg, EraseAll(cb)) == EraseAll(LookCode(neg, cb))
  {
    assert GroupCode(g, EraseAll(cb)) == EraseAll(GroupCode(g, cb));
    assert LookCode(neg, EraseAll(cb)) == EraseAll(LookCode(neg, cb));
  }

  lemma {:induction false} RawIsErasedLeaf(node: Node, g: nat, d: nat, d': nat)
    requires IsLeaf(node)
    ensures Code(node, g, d, true) == EraseAll(Code(node, g, d', false))
  {
    var c := Code(node, g, d', false);
    assert c == Code(node, g, d, true);
    assert forall i :: 0 <= i < |c| ==> Erase(c[i]) == c[i];
  }

  lemma {:induction false} ErasePreset(b: Node, g: nat, min: nat)
    ensures EraseAll(Preset(b, g, min)) == Preset(b, g, min)
  {
    var pre := Preset(b, g, min);
    assert forall i :: 0 <= i < |pre| ==> Erase(pre[i]) == pre[i];
  }

  lemma {:induction false} CatUnfold(a: Node, b: Node, g: nat, d: nat, raw: bool)
    ensures Code(Cat(a, b), g, d, raw) == Code(a, g, d, raw) + Code(b, g + Groups(a), d, raw)
  {
    hide QuantCode, AltCode, GroupCode, LookCode, RangeInstr, Body, ShapeOf, LoopRegs, LoopCheck, Preset,
         IsBoundaryList;
  }

  lemma {:induction false} AltUnfold(a: Node, b: Node, g: nat, d: nat, raw: bool)
    ensures Code(Alt(a, b), g, d, raw) == AltCode(Code(a, g, d, raw), Code(b, g + Groups(a), d, raw))
  {
    hide QuantCode, AltCode, GroupCode, LookCode, RangeInstr, Body, ShapeOf, LoopRegs, LoopCheck, Preset,
         IsBoundaryList;
  }

  lemma {:induction false} AroundUnfold(b: Node, neg: bool, g: nat, d: nat, raw: bool)
    ensures Code(Group(b), g, d, raw) == GroupCode(g, Code(b, g + 1, d, raw))
    ensures Code(Look(neg, b), g, d, raw) == LookCode(neg, Code(b, g, d, raw))
  {
    hide QuantCode, AltCode, GroupCode, LookCode, RangeInstr, Body, ShapeOf, LoopRegs, LoopCheck, Preset,
         IsBoundaryList;
  }

  lemma {:induction false} QuantUnfold(b: Node, min: nat, max: nat, greedy: bool, g: nat, d: nat, raw: bool)
    ensures Code(Quant(b, min, max, greedy), g, d, raw) ==
            QuantCode(ShapeOf(b, g, min, max), LoopCheck(b, g, ShapeOf(b, g, min, max)), Preset(b, g, min),
                      Body(b, g, d + LoopRegs(b, g, ShapeOf(b, g, min, max)), raw), min, max, greedy,
                      if raw then 0 else d, if raw then 0 else d + 1)
  {
    hide QuantCode, AltCode, GroupCode, LookCode, RangeInstr, Body, ShapeOf, LoopRegs, LoopCheck, Preset,
         IsBoundaryList;
  }

  lemma {:induction false} RawIsErasedQuant(b: Node, min: nat, max: nat, greedy: bool, g: nat, d: nat, d': nat, k: nat)
    requires k == LoopRegs(b, g, ShapeOf(b, g, min, max))
    requires Code(b, g, d + k, true) == EraseAll(Code(b, g, d' + k, false))
    ensures Code(Quant(b, min, max, greedy), g, d, true) == EraseAll(Code(Quant(b, min, max, greedy), g, d', false))
  {
    hide Code, QuantCode, Body, ShapeOf, LoopRegs, LoopCheck, Preset, EraseAll;
    EraseBody(b, g, d + k, d' + k);
    QuantUnfold(b, min, max, greedy, g, d, true);
    QuantUnfold(b, min, max, greedy, g, d', false);
    ErasePreset(b, g, min);
    EraseQuant(ShapeOf(b, g, min, max), LoopCheck(b, g, ShapeOf(b, g, min, max)), Preset(b, g, min),
               Body(b, g, d' + k, false), min, max, greedy, d', d' + 1);
  }

  /** The code before register allocation is the final code with its register
      operands erased, whatever registers it will get. */
  lemma {:induction false} RawIsErased(node: Node, g: nat, d: nat, d': nat)
    ensures Code(node, g, d, true) == EraseAll(Code(node, g, d', false))
    decreases node
  {
    hide Code, EraseAll;
    match node
    case Cat(a, b) =>
      RawIsErased(a, g, d, d');
      RawIsErased(b, g + Groups(a), d, d');
      CatUnfold(a, b, g, d, true);
      CatUnfold(a, b, g, d', false);
      EraseConcat(Code(a, g, d', false), Code(b, g + Groups(a), d', false));
    case Alt(a, b) =>
      RawIsErased(a, g, d, d');
      RawIsErased(b, g + Groups(a), d, d');
      AltUnfold(a, b, g, d, true);
      AltUnfold(a, b, g, d', false);
      EraseAlt(Code(a, g, d', false), Code(b, g + Groups(a), d', false));
    case Group(b) =>
      RawIsErased(b, g + 1, d, d');
      AroundUnfold(b, false, g, d, true);
      AroundUnfold(b, false, g, d', false);
      EraseAround(g, false, Code(b, g + 1, d', false));
    case Look(neg, b) =>
      RawIsErased(b, g, d, d');
      AroundUnfold(b, neg, g, d, true);
      AroundUnfold(b, neg, g, d', false);
      EraseAround(g, neg, Code(b, g, d', false));
    case Quant(b, min, max, greedy) =>
      var k := LoopRegs(b, g, ShapeOf(b, g, min, max));
      RawIsErased(b, g, d + k, d' + k);
      RawIsErasedQuant(b, min, max, greedy, g, d, d', k);
    case _ => RawIsErasedLeaf(node, g, d, d');
  }

  lemma {:induction false} ScanIgnoresRegisters(node: Node, g: nat, d: nat)
    ensures Advances(Code(node, g, d, false)) == Advances(Scanned(node, g))
    ensures NeedsInit(Code(node, g, d, false)) == NeedsInit(Scanned(node, g))
  {
    hide Code, EraseAll;
    RawIsErased(node, g, 0, d);
    var a, b := Code(node, g, d, false), Scanned(node, g);
    forall i | 0 <= i < |a|
      ensures IsOpaque(a[i]) == IsOpaque(b[i]) && IsAdvancing(a[i]) == IsAdvancing(b[i])
              && a[i].IBackRef? == b[i].IBackRef?
    {
      assert b[i] == Erase(a[i]);
    }
  }
}
