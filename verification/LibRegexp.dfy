/** lre_compile and lre_exec: from a pattern and a subject to the match that
    section 22.2 of ECMA-262 prescribes. */
module LibRegexp {
  import opened Basics
  import opened RegexSyntax
  import opened RegexSubject
  import opened RegexCode
  import opened RegexEval
  import opened RegexFrame
  import opened RegexAdvance
  import opened RegexExplore
  import opened RegexSteps
  import opened RegexMachine
  import opened RegexProgram
  import opened RegexRegisters
  import opened RegexParser
  import opened RegexExec
  import opened RegexCapped

  /** The compiled program with its header counts. */
  datatype Compiled = Compiled(code: seq<Instr>, captureCount: nat, registerCount: nat)

  // ----- every character table the compiler emits is sorted -----

  lemma {:induction false} TablesConcat(a: seq<Instr>, b: seq<Instr>)
    requires TablesSorted(a) && TablesSorted(b)
    ensures TablesSorted(a + b)
  {
    hide SortedPairs;
    var c := a + b;
    forall i | 0 <= i < |c| && IsRange(c[i]) ensures SortedPairs(c[i].table) {
      if i < |a| { assert c[i] == a[i]; } else { assert c[i] == b[i - |a|]; }
    }
  }

  /** Instructions without a table. */
  lemma {:induction false} TablesPlain(a: seq<Instr>)
    requires forall i :: 0 <= i < |a| ==> !IsRange(a[i])
    ensures TablesSorted(a)
  {
  }

  lemma {:induction false} TablesQuant(shape: Shape, chk: bool, pre: seq<Instr>, body: seq<Instr>, min: nat, max: nat,
          greedy: bool, r: nat, r1: nat)
    requires TablesSorted(pre) && TablesSorted(body)
    ensures TablesSorted(QuantCode(shape, chk, pre, body, min, max, greedy, r, r1))
  {
    hide SortedPairs;
    var code := QuantCode(shape, chk, pre, body, min, max, greedy, r, r1);
    match shape
    case Never =>
    case Optional(star) =>
      var a := [ISplit(greedy, |body| + 2 * One(chk) + One(star))] + CharPos(chk, r);
      var b := if star then [IGoto(-(|body| + 2 * One(chk) + 2))] else [];
      TablesPlain(a);
      TablesPlain(CheckPos(chk, r));
      TablesPlain(b);
      TablesConcat(a, body);
      TablesConcat(a + body, CheckPos(chk, r));
      TablesConcat(a + body + CheckPos(chk, r), b);
      TablesConcat(pre, OptionalCode(body, chk, star, greedy, r));
    case OptionalCounted =>
      TablesCounted(body, chk, false, greedy, r, r1, max, max);
      TablesPlain([ISplit(greedy, |body| + One(chk) + 2)]);
      TablesConcat([ISplit(greedy, |body| + One(chk) + 2)], CountedCode(body, chk, false, greedy, r, r1, max, max));
      TablesConcat(pre, [ISplit(greedy, |body| + One(chk) + 2)]
        + CountedCode(body, chk, false, greedy, r, r1, max, max));
    case Plus =>
      TablesPlain([ISplit(!greedy, -(|body| + 1))]);
      TablesConcat(body, [ISplit(!greedy, -(|body| + 1))]);
    case Counted(simple) => TablesCounted(body, chk, simple, greedy, r, r1, max, if min <= max then max - min else 0);
  }

  lemma {:induction false} TablesCounted(body: seq<Instr>, chk: bool, simple: bool, greedy: bool, r: nat, r1: nat,
          count: nat, limit: nat)
    requires TablesSorted(body)
    ensures TablesSorted(CountedCode(body, chk, simple, greedy, r, r1, count, limit))
  {
    hide SortedPairs;
    var a := [ISetI32(r, count)] + CharPos(chk, r1);
    var b := [if simple then ILoop(r, -(|body| + One(chk) + 1))
      else ILoopSplit(chk, !greedy, r, limit, -(|body| + One(chk) + 1))];
    TablesPlain(a);
    TablesPlain(b);
    TablesConcat(a, body);
    TablesConcat(a + body, b);
  }

  lemma {:induction false} TablesAround(open: Instr, body: seq<Instr>, close: Instr)
    requires TablesSorted(body) && !IsRange(open) && !IsRange(close)
    ensures TablesSorted([open] + body + [close])
  {
    TablesPlain([open]);
    TablesPlain([close]);
    TablesConcat([open], body);
    TablesConcat([open] + body, [close]);
  }

  lemma {:induction false} CodeTables(node: Node, n: nat, g: nat, d: nat)
    requires WellFormed(node, n)
    ensures TablesSorted(Code(node, g, d, false))
    decreases node
  {
    hide Code, TablesSorted;
    match node
    case Cat(a, b) =>
      CodeTables(a, n, g, d);
      CodeTables(b, n, g + Groups(a), d);
      CatUnfold(a, b, g, d, false);
      TablesConcat(Code(a, g, d, false), Code(b, g + Groups(a), d, false));
    case Alt(a, b) =>
      CodeTables(a, n, g, d);
      CodeTables(b, n, g + Groups(a), d);
      AltUnfold(a, b, g, d, false);
      var ca, cb := Code(a, g, d, false), Code(b, g + Groups(a), d, false);
      TablesAround(ISplit(true, |ca| + 1), ca, IGoto(|cb|));
      TablesConcat([ISplit(true, |ca| + 1)] + ca + [IGoto(|cb|)], cb);
    case Group(b) =>
      CodeTables(b, n, g + 1, d);
      AroundUnfold(b, false, g, d, false);
      TablesAround(ISaveStart(g), Code(b, g + 1, d, false), ISaveEnd(g));
    case Look(neg, b) =>
      CodeTables(b, n, g, d);
      AroundUnfold(b, neg, g, d, false);
      TablesAround(ILook(neg, |Code(b, g, d, false)| + 1), Code(b, g, d, false), ILookMatch(neg));
    case Quant(b, min, max, greedy) =>
      var shape := ShapeOf(b, g, min, max);
      var d' := d + LoopRegs(b, g, shape);
      CodeTables(b, n, g, d');
      BodyTables(b, g, d');
      PresetTables(b, g, min);
      QuantUnfold(b, min, max, greedy, g, d, false);
      TablesQuant(shape, LoopCheck(b, g, shape), Preset(b, g, min), Body(b, g, d', false), min, max, greedy, d, d + 1);
    case _ => LeafTables(node, n, g, d);
  }

  lemma {:induction false} BodyTables(b: Node, g: nat, d: nat)
    requires TablesSorted(Code(b, g, d, false))
    ensures TablesSorted(Body(b, g, d, false))
  {
    hide Code, Initialized;
    var pre := if Initialized(b, g) then Reset(b, g) else [];
    TablesPlain(pre);
    TablesConcat(pre, Code(b, g, d, false));
  }

  lemma {:induction false} PresetTables(b: Node, g: nat, min: nat)
    ensures TablesSorted(Preset(b, g, min))
  {
    hide Initialized;
    TablesPlain(Preset(b, g, min));
  }

  lemma {:induction false} LeafTables(node: Node, n: nat, g: nat, d: nat)
    requires WellFormed(node, n) && IsLeaf(node)
    ensures TablesSorted(Code(node, g, d, false))
  {
    if node.Class? {
      RangeInstrExact(node.points, 0);
    }
  }

  // ----- compiling -----

  lemma {:induction false} ProgramSettles(node: Node, sticky: bool)
    ensures Settles(Program(node, sticky, true), 0, Program(node, sticky, false), Registers(Group(node), 0))
  {
    hide Code, Settles;
    var pre, raw, done, r := SearchPrefix(sticky), Code(Group(node), 0, 0, true), Code(Group(node), 0, 0, false),
      Registers(Group(node), 0);
    AllocationExact(Group(node), 0, 0);
    PrefixSettles(sticky);
    SettlesPlain(IMatch, 0);
    SettlesConcat(pre, raw, 0, pre, done, 0, r);
    SettlesConcat(pre + raw, [IMatch], 0, pre + done, [IMatch], r, 0);
  }

  lemma {:induction false} PrefixSettles(sticky: bool)
    ensures Settles(SearchPrefix(sticky), 0, SearchPrefix(sticky), 0)
  {
    hide Settles;
    SettlesEmpty(0);
    SettlesPlain(ISplit(false, 2), 0);
    SettlesPlain(IAny, 0);
    SettlesPlain(IGoto(-3), 0);
    assert [ISplit(false, 2)] + [IAny] == [ISplit(false, 2), IAny];
    assert [ISplit(false, 2), IAny] + [IGoto(-3)] == [ISplit(false, 2), IAny, IGoto(-3)];
    SettlesConcat([ISplit(false, 2)], [IAny], 0, [ISplit(false, 2)], [IAny], 0, 0);
    SettlesConcat([ISplit(false, 2), IAny], [IGoto(-3)], 0, [ISplit(false, 2), IAny], [IGoto(-3)], 0, 0);
  }

  /** lre_compile: fails only on too many captures, ranges or registers, and
      otherwise yields the program of the pattern with its registers in place. */
  method LreCompile(node: Node, sticky: bool) returns (r: Option<Compiled>)
    requires WellFormed(node, CaptureCount(node))
    ensures r.Some? <==> 1 + Groups(node) <= 255 && RangesFit(node) && Registers(Group(node), 0) <= 255
    ensures r.Some? ==> r.value == Compiled(Program(node, sticky, false), CaptureCount(node), Registers(Group(node), 0))
  {
    hide Code, Allocate, Registers;
    var s := new ReParseState();
    if !sticky {
      s.Put(ISplit(false, 2));
      s.Put(IAny);
      s.Put(IGoto(-3));
    }
    assert s.byteCode == SearchPrefix(sticky);
    s.Put(ISaveStart(0));
    var ok := s.Emit(node, CaptureCount(node));
    if !ok {
      return None;
    }
    s.Put(ISaveEnd(0));
    s.Put(IMatch);
    AroundUnfold(node, false, 0, 0, true);
    ProgramForm(SearchPrefix(sticky), Code(node, 1, 0, true), s.byteCode);
    assert s.byteCode == Program(node, sticky, true);
    ProgramSettles(node, sticky);
    var bc := new Instr[|s.byteCode|](i requires 0 <= i < |s.byteCode| reads s => s.byteCode[i]);
    assert bc[..] == s.byteCode;
    var registerCount := ComputeRegisterCount(bc);
    if registerCount < 0 {
      return None;
    }
    return Some(Compiled(bc[..], s.captureCount, registerCount));
  }

  lemma {:induction false} ProgramForm(pre: seq<Instr>, code: seq<Instr>, all: seq<Instr>)
    requires all == pre + [ISaveStart(0)] + code + [ISaveEnd(0)] + [IMatch]
    ensures all == pre + GroupCode(0, code) + [IMatch]
  {
  }

  // ----- executing -----

  /** A start between the halves of a surrogate pair moves to its first half. */
  function AlignStart(env: Env, cindex: nat): (p: nat)
    requires cindex <= |env.input|
    ensures p <= |env.input|
    ensures p == cindex - 1 <==> env.utf16 && 0 < cindex < |env.input| && IsPair(env.input, cindex - 1)
    ensures p == cindex - 1 || p == cindex
  {
    if env.utf16 && 0 < cindex < |env.input| && IsLowSurrogate(env.input[cindex])
      && IsHighSurrogate(env.input[cindex - 1])
    then cindex - 1 else cindex
  }

  /** The array holds exactly these captures. */
  ghost predicate CapturesAre(caps: Captures, capture: seq<int>, n: nat) {
    |caps| >= n && |capture| >= 2 * n && forall k: nat :: k < n ==> RelAt(caps[k], capture, k)
  }

  /** lre_exec on a compiled pattern, end to end: for every pattern of the fragment
      and every subject execution terminates; it matches exactly when the standard's
      search, with repetitions capped at INT32_MAX passes, does, and the capture array
      then holds exactly its captures.  While the counters suffice for the subject
      the cap changes nothing. */
  method LreExec(c: Compiled, env: Env, cindex: nat, registers: seq<int>, ghost node: Node, ghost sticky: bool)
    returns (matched: bool, capture: seq<int>)
    requires WellFormed(node, CaptureCount(node))
    requires c == Compiled(Program(node, sticky, false), CaptureCount(node), Registers(Group(node), 0))
    requires |registers| == c.registerCount && cindex <= |env.input| <= INT32_MAX && SubjectOk(env)
    ensures Finds(Search(Capped(env), node, sticky, AlignStart(env, cindex)), matched, capture, c.captureCount)
    ensures CounterSafe(Group(node), 0, |env.input|) ==>
              Finds(Search(Uncapped(env), node, sticky, AlignStart(env, cindex)), matched, capture, c.captureCount)
  {
    hide Code, Registers, CounterSafe, Search, Run;
    var nulls := seq(2 * c.captureCount, _ => NULL);
    var cptr := cindex;
    if 0 < cptr < |env.input| && env.utf16 {
      if env.input[cptr] / 0x400 == 0xdc00 / 0x400 && env.input[cptr - 1] / 0x400 == 0xd800 / 0x400 {
        cptr := cptr - 1;
      }
    }
    var e := new Executor(c.code, Capped(env), c.captureCount, nulls + registers, cptr);
    ghost var m := MState(cptr, nulls + registers);
    assert Startable(e.V(), node, sticky, m);
    ghost var k := MachineAnswers(e.V(), node, sticky, m);
    ProgramTables(node, sticky);
    matched := e.Exec(k);
    capture := e.capture;
    if CounterSafe(Group(node), 0, |env.input|) {
      SearchCapped(env, node, sticky, cptr);
    }
  }

  /** The executor's result is this answer. */
  ghost predicate Finds(answer: Option<State>, matched: bool, capture: seq<int>, n: nat) {
    (matched <==> answer.Some?) && (matched ==> CapturesAre(answer.value.caps, capture, n))
  }

  lemma {:induction false} ProgramTables(node: Node, sticky: bool)
    requires WellFormed(node, CaptureCount(node))
    ensures TablesSorted(Program(node, sticky, false))
  {
    hide Code;
    CodeTables(Group(node), CaptureCount(node), 0, 0);
    TablesPlain(SearchPrefix(sticky));
    TablesPlain([IMatch]);
    TablesConcat(SearchPrefix(sticky), Code(Group(node), 0, 0, false));
    TablesConcat(SearchPrefix(sticky) + Code(Group(node), 0, 0, false), [IMatch]);
  }
}
