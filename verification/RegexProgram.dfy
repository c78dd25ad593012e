/** The whole program of a pattern: search prefix, body, match.  The copying
    machine run on it halts with the match the standard prescribes. */
module RegexProgram {
  import opened Basics
  import opened RegexSyntax
  import opened RegexCode
  import opened RegexEval
  import opened RegexFrame
  import opened RegexAdvance
  import opened RegexExplore
  import opened RegexSteps
  import opened RegexCompile
  import opened RegexMachine
  import opened RegexContinuation

  /** Try here first, else skip a character and try again. */
  function SearchPrefix(sticky: bool): seq<Instr> {
    if sticky then [] else [ISplit(false, 2), IAny, IGoto(-3)]
  }

  /** The whole match is capture 0. */
  ghost function Program(node: Node, sticky: bool, raw: bool): seq<Instr> {
    SearchPrefix(sticky) + Code(Group(node), 0, 0, raw) + [IMatch]
  }

  function CaptureCount(node: Node): nat { 1 + Groups(node) }

  function Blank(n: nat): (c: Captures)
    ensures |c| == n && forall k :: 0 <= k < n ==> c[k] == None
  {
    seq(n, _ => None)
  }

  // ----- what the standard asks for -----

  ghost function MatchesAt(env: Env, node: Node, p: nat): seq<State>
    requires WellFormed(node, CaptureCount(node)) && p <= |env.input|
  {
    Outcomes(env, Group(node), 0, State(p, Blank(CaptureCount(node))))
  }

  /** RegExpBuiltinExec, section 22.2.7.2: the pattern's matcher, with the
      continuation that succeeds, at the first position where it succeeds; a
      sticky pattern is tried at `p` only. */
  ghost function Search(env: Env, node: Node, sticky: bool, p: nat): Option<State>
    requires WellFormed(node, CaptureCount(node)) && p <= |env.input|
    decreases |env.input| - p
  {
    var r := Match(env, Group(node), 0, State(p, Blank(CaptureCount(node))), Succeed());
    if r.Some? then r
    else if sticky || p == |env.input| then None
    else Search(env, node, sticky, CharAt(env, p, |env.input|).1)
  }

  /** Every match at every position tried, in the order the program finds them. */
  ghost function AllMatches(env: Env, node: Node, sticky: bool, p: nat): seq<State>
    requires WellFormed(node, CaptureCount(node)) && p <= |env.input|
    decreases |env.input| - p
  {
    MatchesAt(env, node, p) +
    if sticky || p == |env.input| then [] else AllMatches(env, node, sticky, CharAt(env, p, |env.input|).1)
  }

  lemma {:induction false} MatchesFirst(env: Env, node: Node, p: nat)
    requires WellFormed(node, CaptureCount(node)) && p <= |env.input|
    ensures var ys := MatchesAt(env, node, p);
            Match(env, Group(node), 0, State(p, Blank(CaptureCount(node))), Succeed()) == if ys == [] then None
              else Some(ys[0])
  {
    MatchIsFirst(env, Group(node), 0, State(p, Blank(CaptureCount(node))), Succeed());
    hide Match, Outcomes;
  }

  lemma {:induction false} SearchIsFirst(env: Env, node: Node, sticky: bool, p: nat)
    requires WellFormed(node, CaptureCount(node)) && p <= |env.input|
    ensures var ys := AllMatches(env, node, sticky, p);
            Search(env, node, sticky, p) == if ys == [] then None else Some(ys[0])
    decreases |env.input| - p
  {
    MatchesFirst(env, node, p);
    hide MatchesAt, Match;
    if !(sticky || p == |env.input|) {
      SearchIsFirst(env, node, sticky, CharAt(env, p, |env.input|).1);
    }
  }

  // ----- the program explores exactly those -----

  /** A machine state in which the program may be started at m.pos. */
  ghost predicate Startable(v: Machine, node: Node, sticky: bool, m: MState) {
    && v.code == Program(node, sticky, false) && v.n == CaptureCount(node)
    && WellFormed(node, v.n) && SubjectOk(v.env) && m.pos <= |v.env.input|
    && CountersOk(v.env, Group(node), 0)
    && 2 * v.n + Registers(Group(node), 0) <= |m.cap|
    && (forall i :: 0 <= i < 2 * v.n ==> m.cap[i] == NULL)
  }

  lemma {:induction false} StartFits(v: Machine, node: Node, sticky: bool, m: MState)
    requires Startable(v, node, sticky, m)
    ensures var x := State(m.pos, Blank(v.n)); Ready(v, Group(node), 0, 0, |SearchPrefix(sticky)|, x, m)
  {
    hide Code, Registers, CounterSafe, SubjectOk;
    var x := State(m.pos, Blank(v.n));
    assert Agree(x, m, 0, v.n);
    assert Placed(v, 0, Program(node, sticky, false));
    PlacedPart(v, 0, SearchPrefix(sticky), Code(Group(node), 0, 0, false), [IMatch]);
  }

  lemma {:induction false} StopsAtMatch(v: Machine, ts: seq<Thread>, ys: seq<State>, p: int, c: seq<int>, fr: Frame)
    requires Exits(ts, ys, p, c, fr) && (forall i :: 0 <= i < |ys| ==> ys[i].end <= |v.env.input|)
    requires 0 <= p < |v.code| && v.code[p] == IMatch
    ensures LeavesAll(v, Whole(v), ts, 1) == Some(ts)
    decreases |ts|
  {
    hide Agree, Keeps;
    if ts != [] {
      assert ExitsAs(ts[0], ys[0], p, c, fr);
      JumpPos(ts[0], ys[0], p, c, fr);
      assert Act(v, ts[0]) == Stop;
      assert Leaves(v, Whole(v), ts[0], 1) == Some([ts[0]]);
      assert forall i :: 0 <= i < |ts[1..]| ==> ts[1..][i] == ts[i + 1] && ys[1..][i] == ys[i + 1];
      StopsAtMatch(v, ts[1..], ys[1..], p, c, fr);
      assert [ts[0]] + ts[1..] == ts;
    }
  }

  ghost function MatchPc(node: Node, sticky: bool): int {
    |SearchPrefix(sticky)| + |Code(Group(node), 0, 0, false)|
  }

  /** Any change to captures and registers is allowed; all captures agree. */
  function Anything(v: Machine): Frame { Frame(v.n, 0, v.n, 0, 0, v.n) }

  lemma {:induction false} BodyExplores(v: Machine, node: Node, sticky: bool, m: MState)
    requires Startable(v, node, sticky, m)
    ensures Explores(v, Whole(v), Thread(|SearchPrefix(sticky)|, m), MatchesAt(v.env, node, m.pos),
            MatchPc(node, sticky), m.cap, Anything(v))
  {
    hide Code, Outcomes, Explores, ExploresAll, Registers, CounterSafe, SubjectOk, Agree, Keeps, Exits;
    var s, e := |SearchPrefix(sticky)|, MatchPc(node, sticky);
    var x := State(m.pos, Blank(v.n));
    StartFits(v, node, sticky, m);
    NodeSound(v, Group(node), 0, 0, s, x, m);
    var ys := MatchesAt(v.env, node, m.pos);
    KeepsSame(Anything(v), m.cap);
    ExploresFrom(v, Window(s, e), Thread(s, m), ys, e, m.cap, m.cap, Anything(v), Own(v, Group(node), 0, 0));
    var f, ts := ExitList(v, Window(s, e), Thread(s, m), ys, e, m.cap, Anything(v));
    StopsAtMatch(v, ts, ys, e, m.cap, Anything(v));
    AllAtOnce(v, ts, ys, e, m.cap, Anything(v));
    ExploresBlock(v, Window(s, e), Whole(v), Thread(s, m), ts, f, ys, e, m.cap, Anything(v));
  }

  lemma {:induction false} AllAtOnce(v: Machine, ts: seq<Thread>, ys: seq<State>, e: int, c: seq<int>, fr: Frame)
    requires LeavesAll(v, Whole(v), ts, 1) == Some(ts) && Exits(ts, ys, e, c, fr)
    ensures ExploresAll(v, Whole(v), ts, ys, e, c, fr)
  {
  }

  /** Compilation preserves meaning, for the whole program. */
  lemma {:induction false} ProgramExplores(v: Machine, node: Node, sticky: bool, m: MState)
    requires Startable(v, node, sticky, m)
    ensures Explores(v, Whole(v), Thread(0, m), AllMatches(v.env, node, sticky, m.pos), MatchPc(node, sticky), m.cap,
            Anything(v))
    decreases |v.env.input| - m.pos
  {
    hide Code, MatchesAt, Explores, Registers, CounterSafe, SubjectOk;
    var w, e, fr := Whole(v), MatchPc(node, sticky), Anything(v);
    BodyExplores(v, node, sticky, m);
    var here := MatchesAt(v.env, node, m.pos);
    if sticky {
      assert here + [] == here;
    } else {
      assert v.code[0] == ISplit(false, 2) && v.code[1] == IAny && v.code[2] == IGoto(-3);
      SkipExplores(v, node, m);
      ActSplit(v, Thread(0, m), false, 2);
      hide Act;
      var rest := if m.pos == |v.env.input| then []
        else AllMatches(v.env, node, sticky, CharAt(v.env, m.pos, |v.env.input|).1);
      ExploresFork(v, w, Thread(0, m), Thread(3, m), Thread(1, m), here, rest, e, m.cap, fr);
    }
  }

  lemma {:induction false} SkipExplores(v: Machine, node: Node, m: MState)
    requires Startable(v, node, false, m)
    ensures Explores(v, Whole(v), Thread(1, m),
                     if m.pos == |v.env.input| then [] else AllMatches(v.env, node, false,
                       CharAt(v.env, m.pos, |v.env.input|).1),
                     MatchPc(node, false), m.cap, Anything(v))
    decreases |v.env.input| - m.pos, 0
  {
    hide Code, MatchesAt, Explores, Registers, CounterSafe, SubjectOk, AllMatches;
    var w, e, fr := Whole(v), MatchPc(node, false), Anything(v);
    assert v.code[0] == ISplit(false, 2) && v.code[1] == IAny && v.code[2] == IGoto(-3);
    ActChar(v, Thread(1, m));
    hide Act;
    if m.pos == |v.env.input| {
      ExploresFail(v, w, Thread(1, m), e, m.cap, fr);
    } else {
      var m1 := MState(CharAt(v.env, m.pos, |v.env.input|).1, m.cap);
      ProgramExplores(v, node, false, m1);
      ActGoto(v, Thread(2, m1), -3);
      var ys := AllMatches(v.env, node, false, m1.pos);
      ExploresNext(v, w, Thread(2, m1), Thread(0, m1), ys, e, m.cap, fr);
      ExploresNext(v, w, Thread(1, m), Thread(2, m1), ys, e, m.cap, fr);
    }
  }

  // ----- the machine halts with the standard's answer -----

  /** The configuration a finished run must be in. */
  ghost predicate Answers(v: Machine, c: Config, r: Option<State>) {
    match r
    case None => c == Reject
    case Some(y) => c.Accept? && Agree(y, c.m, 0, v.n)
  }

  /** For every pattern and subject, the copying machine halts, and accepts
      exactly the standard's match with the standard's captures. */
  lemma {:induction false} MachineAnswers(v: Machine, node: Node, sticky: bool, m: MState) returns (k: nat)
    requires Startable(v, node, sticky, m)
    ensures Answers(v, Run(v, Running(Thread(0, m), []), k), Search(v.env, node, sticky, m.pos))
  {
    hide Code, Registers, CounterSafe, SubjectOk, Run, Search, AllMatches, Agree, Keeps;
    var e := MatchPc(node, sticky);
    var ys := AllMatches(v.env, node, sticky, m.pos);
    ProgramExplores(v, node, sticky, m);
    SearchIsFirst(v.env, node, sticky, m.pos);
    var f, ts := ExitList(v, Whole(v), Thread(0, m), ys, e, m.cap, Anything(v));
    Adequate(v, Thread(0, m), f, []);
    var k0: nat, extra: seq<Choice> :|
      OnlySplits(extra) && Run(v, Running(Thread(0, m), []), k0) == if ts == [] then Backtrack([])
        else Running(ts[0], [] + extra);
    if ts == [] {
      k := k0;
    } else {
      k := k0 + 1;
      assert ExitsAs(ts[0], ys[0], e, m.cap, Anything(v));
      JumpPos(ts[0], ys[0], e, m.cap, Anything(v));
      FirstIn(v.env, node, sticky, m.pos);
      RunAdd(v, Running(Thread(0, m), []), k0, 1);
      OneStep(v, ts[0], extra);
      assert [] + extra == extra;
    }
  }

  lemma {:induction false} FirstIn(env: Env, node: Node, sticky: bool, p: nat)
    requires WellFormed(node, CaptureCount(node)) && p <= |env.input|
    ensures forall y <- AllMatches(env, node, sticky, p) :: y.end <= |env.input|
    decreases |env.input| - p
  {
    if !(sticky || p == |env.input|) {
      FirstIn(env, node, sticky, CharAt(env, p, |env.input|).1);
    }
  }
}
