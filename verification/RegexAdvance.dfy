/** The scan that lets the compiler omit the zero-advance check is sound, and a
    counter of INT32_MAX is as good as none while the subject is short enough. */
module RegexAdvance {
  import opened Basics
  import opened RegexSyntax
  import opened RegexCode
  import opened RegexFrame

  // ----- the scan on concatenated code -----

  lemma {:induction false} AdvancesConcat(a: seq<Instr>, b: seq<Instr>)
    requires Advances(a + b)
    ensures Advances(a) || (Advances(b) && forall j :: 0 <= j < |a| ==> !IsOpaque(a[j]))
  {
    var c := a + b;
    var i :| 0 <= i < |c| && IsAdvancing(c[i]) && (forall j :: 0 <= j < i ==> !IsOpaque(c[j]));
    if i < |a| {
      assert a[i] == c[i];
      forall j | 0 <= j < i ensures !IsOpaque(a[j]) { assert a[j] == c[j]; }
    } else {
      assert b[i - |a|] == c[i];
      forall j | 0 <= j < i - |a| ensures !IsOpaque(b[j]) { assert b[j] == c[j + |a|]; }
      forall j | 0 <= j < |a| ensures !IsOpaque(a[j]) { assert a[j] == c[j]; }
    }
  }

  lemma {:induction false} OpaqueFirst(code: seq<Instr>)
    requires code != [] && IsOpaque(code[0])
    ensures !Advances(code)
  {
  }

  lemma {:induction false} BodyAdvances(b: Node, g: nat, d: nat, raw: bool)
    requires Advances(Body(b, g, d, raw))
    ensures Advances(Code(b, g, d, raw))
  {
    hide Code;
    AdvancesConcat(if Initialized(b, g) then Reset(b, g) else [], Code(b, g, d, raw));
  }

  lemma {:induction false} CountedAdvances(body: seq<Instr>, chk: bool, simple: bool, greedy: bool, r: nat, r1: nat,
          count: nat, limit: nat)
    requires Advances(CountedCode(body, chk, simple, greedy, r, r1, count, limit))
    ensures Advances(body)
  {
    var p := [ISetI32(r, count)] + CharPos(chk, r1);
    assert forall k :: 0 <= k < |p| ==> !IsAdvancing(p[k]);
    var last := if simple then ILoop(r, -(|body| + One(chk) + 1))
      else ILoopSplit(chk, !greedy, r, limit, -(|body| + One(chk) + 1));
    AdvancesConcat(p + body, [last]);
    AdvancesConcat(p, body);
  }

  lemma {:induction false} PresetScan(b: Node, g: nat, min: nat)
    ensures !Advances(Preset(b, g, min))
  {
  }

  /** Only `+` and counted loops of at least one pass start with their body. */
  lemma {:induction false} QuantAdvances(b: Node, g: nat, min: nat, max: nat, greedy: bool)
    requires Advances(Scanned(Quant(b, min, max, greedy), g))
    ensures min > 0 && Advances(Scanned(b, g))
  {
    hide Code, Body, LoopRegs, LoopCheck, CountedCode, OptionalCode, Advances, Preset;
    var shape := ShapeOf(b, g, min, max);
    var chk := LoopCheck(b, g, shape);
    var pre := Preset(b, g, min);
    var k := LoopRegs(b, g, shape);
    var body := Body(b, g, k, true);
    QuantUnfold(b, min, max, greedy, g, 0, true);
    assert Advances(QuantCode(shape, chk, pre, body, min, max, greedy, 0, 0));
    PresetScan(b, g, min);
    match shape
    case Never =>
    case Optional(star) =>
      AdvancesConcat(pre, OptionalCode(body, chk, star, greedy, 0));
      OptionalOpaque(body, chk, star, greedy, 0);
    case OptionalCounted =>
      var rest := [ISplit(greedy, |body| + One(chk) + 2)] + CountedCode(body, chk, false, greedy, 0, 0, max, max);
      AdvancesConcat(pre, rest);
      OpaqueFirst(rest);
    case Plus =>
      AdvancesConcat(body, [ISplit(!greedy, -(|body| + 1))]);
      OpaqueFirst([ISplit(!greedy, -(|body| + 1))]);
      BodyAdvances(b, g, k, true);
      RawSame(b, g, k);
    case Counted(simple) =>
      CountedAdvances(body, chk, simple, greedy, 0, 0, max, if min <= max then max - min else 0);
      BodyAdvances(b, g, k, true);
      RawSame(b, g, k);
  }

  lemma {:induction false} OptionalOpaque(body: seq<Instr>, chk: bool, star: bool, greedy: bool, r: nat)
    ensures !Advances(OptionalCode(body, chk, star, greedy, r))
  {
    OpaqueFirst(OptionalCode(body, chk, star, greedy, r));
  }

  lemma {:induction false} RawSame(b: Node, g: nat, d: nat)
    ensures Code(b, g, d, true) == Scanned(b, g)
  {
    RawIsErased(b, g, d, 0);
    RawIsErased(b, g, 0, 0);
  }

  // ----- where outcomes may end -----

  lemma {:induction false} OutcomesSeqFrom(env: Env, node: Node, g: nat, xs: seq<State>, n: nat, from: nat, from': nat)
    requires WellFormed(node, n) && g + Groups(node) <= n && Forward(env, xs, n, from) && Forward(env, xs, n, from')
    ensures Forward(env, OutcomesSeq(env, node, g, xs, n, from), n, from')
    decreases |xs|
  {
    hide Outcomes;
    if xs != [] {
      OutcomesSeqFrom(env, node, g, xs[1..], n, from, from');
    }
  }

  lemma {:induction false} RepeatSeqFrom(env: Env, b: Node, g: nat, min: nat, max: Bound, greedy: bool, xs: seq<State>,
          n: nat, from: nat, from': nat)
    requires WellFormed(b, n) && g + Groups(b) <= n && from <= |env.input| + 1
    requires Forward(env, xs, n, from) && Forward(env, xs, n, from')
    ensures Forward(env, RepeatSeq(env, b, g, min, max, greedy, xs, n, from), n, from')
    decreases |xs|
  {
    hide Repeat;
    if xs != [] {
      RepeatSeqFrom(env, b, g, min, max, greedy, xs[1..], n, from, from');
    }
  }

  lemma {:induction false} OutcomesSeqAdvance(env: Env, node: Node, g: nat, xs: seq<State>, n: nat, from: nat)
    requires WellFormed(node, n) && g + Groups(node) <= n && Forward(env, xs, n, from)
    requires forall x | ValidState(env, x, n) :: Forward(env, Outcomes(env, node, g, x), n, x.end + 1)
    ensures Forward(env, OutcomesSeq(env, node, g, xs, n, from), n, from + 1)
    decreases |xs|
  {
    hide Outcomes;
    if xs != [] {
      OutcomesSeqAdvance(env, node, g, xs[1..], n, from);
      assert Forward(env, Outcomes(env, node, g, xs[0]), n, xs[0].end + 1);
    }
  }

  /** Soundness of the scan: an atom whose code needs no zero-advance check
      moves forward in every outcome. */
  lemma {:induction false} ScanSound(env: Env, node: Node, g: nat, x: State)
    requires WellFormed(node, |x.caps|) && g + Groups(node) <= |x.caps| && ValidState(env, x, |x.caps|)
    requires Advances(Scanned(node, g))
    ensures Forward(env, Outcomes(env, node, g, x), |x.caps|, x.end + 1)
    decreases node, 1
  {
    hide Code, Outcomes, OutcomesSeq, Repeat, RepeatSeq, CloseGroup;
    var n := |x.caps|;
    match node
    case Cat(a, b) =>
      CatScanSound(env, a, b, g, x);
    case Alt(a, b) =>
      AltUnfold(a, b, g, 0, true);
      OpaqueFirst(AltCode(Code(a, g, 0, true), Code(b, g + Groups(a), 0, true)));
    case Group(b) =>
      AroundUnfold(b, false, g, 0, true);
      var cb := Code(b, g + 1, 0, true);
      AdvancesConcat([ISaveStart(g)] + cb, [ISaveEnd(g)]);
      AdvancesConcat([ISaveStart(g)], cb);
      ScanSound(env, b, g + 1, x);
      GroupOutcomes(env, b, g, x);
      CloseGroupFrom(env, g, x.end, Outcomes(env, b, g + 1, x), n, x.end + 1);
    case Look(neg, b) =>
      AroundUnfold(b, neg, g, 0, true);
      OpaqueFirst(LookCode(neg, Code(b, g, 0, true)));
    case Quant(b, min, max, greedy) =>
      QuantAdvances(b, g, min, max, greedy);
      QuantOutcomes(env, b, min, max, greedy, g, x);
      var xr := State(x.end, Unset(x.caps, g, Groups(b)));
      ScanSound(env, b, g, xr);
      IterateFrom(env, b, g, min, BoundOf(env, max), greedy, x);
    case _ => LeafAdvances(env, node, g, x);
  }

  lemma {:induction false} CatScanSound(env: Env, a: Node, b: Node, g: nat, x: State)
    requires WellFormed(Cat(a, b), |x.caps|) && g + Groups(Cat(a, b)) <= |x.caps| && ValidState(env, x, |x.caps|)
    requires Advances(Scanned(Cat(a, b), g))
    ensures Forward(env, Outcomes(env, Cat(a, b), g, x), |x.caps|, x.end + 1)
    decreases Cat(a, b), 0
  {
    hide Code, Outcomes, OutcomesSeq;
    var n := |x.caps|;
    CatOutcomes(env, a, b, g, x);
    CatUnfold(a, b, g, 0, true);
    AdvancesConcat(Code(a, g, 0, true), Code(b, g + Groups(a), 0, true));
    var ys := Outcomes(env, a, g, x);
    if Advances(Scanned(a, g)) {
      ScanSound(env, a, g, x);
      OutcomesSeqFrom(env, b, g + Groups(a), ys, n, x.end, x.end + 1);
    } else {
      forall y | ValidState(env, y, n) ensures Forward(env, Outcomes(env, b, g + Groups(a), y), n, y.end + 1) {
        ScanSound(env, b, g + Groups(a), y);
      }
      OutcomesSeqAdvance(env, b, g + Groups(a), ys, n, x.end);
    }
  }

  lemma {:induction false} LeafAdvances(env: Env, node: Node, g: nat, x: State)
    requires WellFormed(node, |x.caps|) && g + Groups(node) <= |x.caps| && ValidState(env, x, |x.caps|)
    requires Advances(Scanned(node, g)) && IsLeaf(node)
    ensures Forward(env, Outcomes(env, node, g, x), |x.caps|, x.end + 1)
  {
    hide QuantCode, AltCode, GroupCode, LookCode, RangeInstr, Body, ShapeOf, LoopRegs, LoopCheck, Preset;
  }

  lemma {:induction false} CloseGroupFrom(env: Env, g: nat, start: nat, ys: seq<State>, n: nat, from: nat)
    requires g < n && Forward(env, ys, n, start) && Forward(env, ys, n, from)
    ensures Forward(env, CloseGroup(env, g, start, ys, n), n, from)
  {
    var zs := CloseGroup(env, g, start, ys, n);
    assert forall i :: 0 <= i < |zs| ==> zs[i].end == ys[i].end;
  }

  lemma {:induction false} IterateFrom(env: Env, b: Node, g: nat, min: nat, max: Bound, greedy: bool, x: State)
    requires WellFormed(b, |x.caps|) && g + Groups(b) <= |x.caps| && ValidState(env, x, |x.caps|)
    requires Forward(env, Outcomes(env, b, g, State(x.end, Unset(x.caps, g, Groups(b)))), |x.caps|, x.end + 1)
    requires min > 0 && max != Fin(0)
    ensures Forward(env, Repeat(env, b, g, min, max, greedy, x), |x.caps|, x.end + 1)
  {
    hide Outcomes, RepeatSeq;
    var ys := Outcomes(env, b, g, State(x.end, Unset(x.caps, g, Groups(b))));
    RepeatSeqFrom(env, b, g, min - 1, Pred(max), greedy, ys, |x.caps|, x.end, x.end + 1);
  }

  lemma {:induction false} AdvancingAll(env: Env, ys: seq<State>, start: nat, n: nat)
    requires Forward(env, ys, n, start) && Forward(env, ys, n, start + 1)
    ensures Advancing(env, ys, start, n) == ys
    decreases |ys|
  {
    if ys != [] {
      assert ys[0].end > start;
      assert forall i :: 0 <= i < |ys[1..]| ==> ys[1..][i] == ys[i + 1];
      AdvancingAll(env, ys[1..], start, n);
      assert [ys[0]] + ys[1..] == ys;
    }
  }

  // ----- a counter that cannot run out -----

  /** A counter of v passes suffices for `room` remaining characters: passes
      beyond the minimum move, and so do all passes when the atom advances. */
  predicate Enough(advancing: bool, v: nat, min: nat, room: nat) {
    if advancing then v >= room && v >= min else v >= min + room
  }

  lemma {:induction false} ForwardInside(env: Env, zs: seq<State>, n: nat, from: nat)
    requires Forward(env, zs, n, from)
    ensures zs == [] || from <= |env.input|
  {
    if zs != [] {
      assert from <= zs[0].end <= |env.input|;
    }
  }

  /** At the end of the subject no optional pass can move. */
  lemma {:induction false} NothingLeft(env: Env, b: Node, g: nat, greedy: bool, x: State)
    requires WellFormed(b, |x.caps|) && g + Groups(b) <= |x.caps| && ValidState(env, x, |x.caps|)
             && x.end == |env.input|
    ensures Repeat(env, b, g, 0, Inf, greedy, x) == [x]
  {
    hide Outcomes;
    var ys := Outcomes(env, b, g, State(x.end, Unset(x.caps, g, Groups(b))));
    var zs := Advancing(env, ys, x.end, |x.caps|);
    ForwardInside(env, zs, |x.caps|, x.end + 1);
    assert RepeatSeq(env, b, g, 0, Inf, greedy, zs, |x.caps|, x.end + 1) == [];
    assert Iterate(env, b, g, 0, Inf, greedy, x) == [];
    assert [] + [x] == [x] && [x] + [] == [x];
  }

  lemma {:induction false} RepeatUnbounded(env: Env, b: Node, g: nat, min: nat, v: nat, greedy: bool, x: State)
    requires WellFormed(b, |x.caps|) && g + Groups(b) <= |x.caps| && ValidState(env, x, |x.caps|)
    requires Enough(Advances(Scanned(b, g)), v, min, |env.input| - x.end)
    ensures Repeat(env, b, g, min, Fin(v), greedy, x) == Repeat(env, b, g, min, Inf, greedy, x)
    ensures v > 0 ==> Iterate(env, b, g, min, Fin(v), greedy, x) == Iterate(env, b, g, min, Inf, greedy, x)
    decreases v, 0, 0
  {
    hide Code, Outcomes, RepeatSeq, Advancing;
    var n := |x.caps|;
    var xr := State(x.end, Unset(x.caps, g, Groups(b)));
    var ys := Outcomes(env, b, g, xr);
    var zs := Advancing(env, ys, x.end, n);
    if Advances(Scanned(b, g)) {
      ScanSound(env, b, g, xr);
    }
    if v == 0 {
      NothingLeft(env, b, g, greedy, x);
    } else if min > 0 {
      forall i | 0 <= i < |ys| ensures Enough(Advances(Scanned(b, g)), v - 1, min - 1, |env.input| - ys[i].end) {
        assert Advances(Scanned(b, g)) ==> x.end + 1 <= ys[i].end;
      }
      RepeatSeqUnbounded(env, b, g, min - 1, v - 1, greedy, ys, n, x.end);
    } else {
      forall i | 0 <= i < |zs| ensures Enough(Advances(Scanned(b, g)), v - 1, 0, |env.input| - zs[i].end) {
        assert x.end + 1 <= zs[i].end;
      }
      RepeatSeqUnbounded(env, b, g, 0, v - 1, greedy, zs, n, x.end + 1);
    }
  }

  lemma {:induction false} RepeatSeqUnbounded(env: Env, b: Node, g: nat, min: nat, v: nat, greedy: bool, xs: seq<State>,
          n: nat, from: nat)
    requires WellFormed(b, n) && g + Groups(b) <= n && Forward(env, xs, n, from) && from <= |env.input| + 1
    requires forall i :: 0 <= i < |xs| ==> Enough(Advances(Scanned(b, g)), v, min, |env.input| - xs[i].end)
    ensures RepeatSeq(env, b, g, min, Fin(v), greedy, xs, n, from)
            == RepeatSeq(env, b, g, min, Inf, greedy, xs, n, from)
    decreases v, 1, |xs|
  {
    hide Code, Repeat;
    if xs != [] {
      RepeatUnbounded(env, b, g, min, v, greedy, xs[0]);
      assert forall i :: 0 <= i < |xs[1..]| ==> xs[1..][i] == xs[i + 1];
      RepeatSeqUnbounded(env, b, g, min, v, greedy, xs[1..], n, from);
    }
  }

  /** Every INT32_MAX counter of the node outlasts a subject of `len` units. */
  ghost predicate CounterSafe(node: Node, g: nat, len: nat) {
    match node
    case Cat(a, b) => CounterSafe(a, g, len) && CounterSafe(b, g + Groups(a), len)
    case Alt(a, b) => CounterSafe(a, g, len) && CounterSafe(b, g + Groups(a), len)
    case Group(b) => CounterSafe(b, g + 1, len)
    case Look(_, b) => CounterSafe(b, g, len)
    case Quant(b, min, max, _) =>
      && CounterSafe(b, g, len)
      && (max == INT32_MAX && ShapeOf(b, g, min, max).Counted? ==> Enough(!Checked(b, g), INT32_MAX, min, len))
    case _ => true
  }

  /** The loops of the program do what the pattern means: always if repetitions are
      capped, else if the counters suffice. */
  ghost predicate CountersOk(env: Env, node: Node, g: nat) {
    if env.capped then |env.input| <= INT32_MAX else CounterSafe(node, g, |env.input|)
  }
}
