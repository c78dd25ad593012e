/** The backtracking machine in its simplest form: every choice point keeps a
    whole copy of the capture array.  It finds the first outcome of `Leaves`. */
module RegexMachine {
  import opened Basics
  import opened RegexSyntax
  import opened RegexCode
  import opened RegexEval

  /** What pushed a choice point: a split, a lookahead, a negative lookahead. */
  datatype Kind = KSplit | KLook | KNegLook

  /** Where to resume, with the position and captures of that moment. */
  datatype Choice = Choice(kind: Kind, t: Thread)

  datatype Config = Running(t: Thread, stack: seq<Choice>) | Accept(m: MState) | Reject | Crash

  /** Failure resumes the youngest choice point, skipping lookaheads. */
  function Backtrack(stack: seq<Choice>): Config
    decreases |stack|
  {
    if stack == [] then Reject
    else
      var top, rest := stack[|stack| - 1], stack[..|stack| - 1];
      if top.kind == KLook then Backtrack(rest) else Running(top.t, rest)
  }

  /** The youngest choice point of a kind. */
  function Youngest(stack: seq<Choice>, kind: Kind): (r: Option<nat>)
    ensures r.Some? ==> r.value < |stack| && stack[r.value].kind == kind
    ensures r.Some? ==> forall i :: r.value < i < |stack| ==> stack[i].kind != kind
    decreases |stack|
  {
    if stack == [] then None
    else if stack[|stack| - 1].kind == kind then Some(|stack| - 1)
    else Youngest(stack[..|stack| - 1], kind)
  }

  function LookKind(neg: bool): Kind { if neg then KNegLook else KLook }

  /** A lookahead body matched: forget its choice points; a positive one goes on
      after it with the captures it set, a negative one fails. */
  function FinishLook(t: Thread, stack: seq<Choice>, neg: bool): Config {
    var i := Youngest(stack, LookKind(neg));
    if i.None? then Crash
    else if neg then Backtrack(stack[..i.value])
    else Running(Thread(stack[i.value].t.pc, MState(stack[i.value].t.m.pos, t.m.cap)), stack[..i.value])
  }

  ghost function Take(v: Machine, t: Thread, stack: seq<Choice>, action: Action): Config
    requires ValidThread(v, t)
  {
    match action
    case Fail => Backtrack(stack)
    case Next(u) => Running(u, stack)
    case Fork(a, b) => Running(a, stack + [Choice(KSplit, b)])
    case Enter(neg, body, resume) => Running(body, stack + [Choice(LookKind(neg), Thread(resume, t.m))])
    case Stuck => Crash
    case Stop =>
      match v.code[t.pc]
      case IMatch => Accept(t.m)
      case ILookMatch(neg) => FinishLook(t, stack, neg)
      case _ => Crash
  }

  ghost function Step(v: Machine, c: Config): Config
    requires c.Running?
  {
    if ValidThread(v, c.t) then Take(v, c.t, c.stack, Act(v, c.t)) else Crash
  }

  ghost function Run(v: Machine, c: Config, k: nat): Config
    decreases k
  {
    if k == 0 || !c.Running? then c else Run(v, Step(v, c), k - 1)
  }

  lemma {:induction false} RunAdd(v: Machine, c: Config, j: nat, k: nat)
    ensures Run(v, c, j + k) == Run(v, Run(v, c, j), k)
    decreases j
  {
    hide Step;
    if j > 0 && c.Running? {
      RunAdd(v, Step(v, c), j - 1, k);
    }
  }

  ghost predicate OnlySplits(stack: seq<Choice>) {
    forall i :: 0 <= i < |stack| ==> stack[i].kind == KSplit
  }

  lemma {:induction false} YoungestOver(stack: seq<Choice>, extra: seq<Choice>, kind: Kind, c: Choice)
    requires OnlySplits(extra) && kind != KSplit && c.kind == kind
    ensures Youngest(stack + [c] + extra, kind) == Some(|stack|)
    decreases |extra|
  {
    var all := stack + [c] + extra;
    if extra == [] {
      assert all[|all| - 1] == c;
    } else {
      var shorter := extra[..|extra| - 1];
      assert all[|all| - 1] == extra[|extra| - 1];
      assert all[..|all| - 1] == stack + [c] + shorter;
      YoungestOver(stack, shorter, kind, c);
    }
  }

  /** Where the machine is once a thread's exploration has produced `outs`:
      at the first outcome, with split choice points left over, or failing on
      the stack it started from. */
  ghost predicate Reaches(v: Machine, t: Thread, stack: seq<Choice>, outs: seq<Thread>) {
    exists k: nat, extra: seq<Choice> ::
      OnlySplits(extra) && Run(v, Running(t, stack), k) == if outs == [] then Backtrack(stack)
        else Running(outs[0], stack + extra)
  }

  lemma {:induction false} ReachesIntro(v: Machine, t: Thread, stack: seq<Choice>, outs: seq<Thread>, k: nat,
          extra: seq<Choice>)
    requires OnlySplits(extra)
    requires Run(v, Running(t, stack), k) == if outs == [] then Backtrack(stack) else Running(outs[0], stack + extra)
    ensures Reaches(v, t, stack, outs)
  {
  }

  lemma {:induction false} OneStep(v: Machine, t: Thread, stack: seq<Choice>)
    requires ValidThread(v, t)
    ensures Run(v, Running(t, stack), 1) == Take(v, t, stack, Act(v, t))
  {
    hide Act, Take;
    assert Run(v, Step(v, Running(t, stack)), 0) == Step(v, Running(t, stack));
  }

  /** The machine explores a thread as `Leaves` says, on top of any stack. */
  lemma {:induction false} Adequate(v: Machine, t: Thread, f: nat, stack: seq<Choice>)
    requires Leaves(v, Whole(v), t, f).Some?
    ensures Reaches(v, t, stack, Leaves(v, Whole(v), t, f).value)
    decreases f, 0
  {
    hide Act;
    if !Inside(Whole(v), t.pc) {
      assert stack + [] == stack;
      ReachesIntro(v, t, stack, [t], 0, []);
    } else {
      AdequateAfter(v, t, Act(v, t), f - 1, stack);
    }
  }

  /** Continue after a prefix of the run. */
  lemma {:induction false} ReachesAfter(v: Machine, t: Thread, stack: seq<Choice>, j: nat, u: Thread, outs: seq<Thread>)
    requires Run(v, Running(t, stack), j) == Running(u, stack) && Reaches(v, u, stack, outs)
    ensures Reaches(v, t, stack, outs)
  {
    hide Run;
    var k: nat, extra: seq<Choice> :|
      OnlySplits(extra) && Run(v, Running(u, stack), k) == if outs == [] then Backtrack(stack)
        else Running(outs[0], stack + extra);
    RunAdd(v, Running(t, stack), j, k);
    ReachesIntro(v, t, stack, outs, j + k, extra);
  }

  lemma {:induction false} AdequateAfter(v: Machine, t: Thread, action: Action, f: nat, stack: seq<Choice>)
    requires Inside(Whole(v), t.pc) && ValidThread(v, t) && action == Act(v, t)
    requires After(v, Whole(v), t, action, f).Some?
    ensures Reaches(v, t, stack, After(v, Whole(v), t, action, f).value)
    decreases f, 2
  {
    hide Act, Run, Reaches;
    OneStep(v, t, stack);
    match action
    case Stop =>
      assert stack + [] == stack;
      ReachesIntro(v, t, stack, [t], 0, []) by { assert Run(v, Running(t, stack), 0)
        == Running(t, stack) by { RunZero(v, t, stack); } }
    case Fail => ReachesIntro(v, t, stack, [], 1, []);
    case Next(u) =>
      Adequate(v, u, f, stack);
      ReachesAfter(v, t, stack, 1, u, Leaves(v, Whole(v), u, f).value);
    case Fork(a, b) => AdequateFork(v, t, a, b, f, stack);
    case Enter(neg, body, resume) => AdequateLook(v, t, neg, body, resume, f, stack);
  }

  lemma {:induction false} RunZero(v: Machine, t: Thread, stack: seq<Choice>)
    ensures Run(v, Running(t, stack), 0) == Running(t, stack)
  {
  }

  lemma {:induction false} AdequateFork(v: Machine, t: Thread, a: Thread, b: Thread, f: nat, stack: seq<Choice>)
    requires ValidThread(v, t) && Act(v, t) == Fork(a, b)
    requires Leaves(v, Whole(v), a, f).Some? && Leaves(v, Whole(v), b, f).Some?
    ensures Reaches(v, t, stack, Leaves(v, Whole(v), a, f).value + Leaves(v, Whole(v), b, f).value)
    decreases f, 1
  {
    hide Act, Run;
    OneStep(v, t, stack);
    var oa, ob := Leaves(v, Whole(v), a, f).value, Leaves(v, Whole(v), b, f).value;
    var pushed := stack + [Choice(KSplit, b)];
    Adequate(v, a, f, pushed);
    var k: nat, extra: seq<Choice> :|
      OnlySplits(extra) && Run(v, Running(a, pushed), k) == if oa == [] then Backtrack(pushed)
        else Running(oa[0], pushed + extra);
    RunAdd(v, Running(t, stack), 1, k);
    if oa == [] {
      assert pushed[..|pushed| - 1] == stack && oa + ob == ob;
      Adequate(v, b, f, stack);
      ReachesAfter(v, t, stack, 1 + k, b, ob);
    } else {
      var extra' := [Choice(KSplit, b)] + extra;
      assert pushed + extra == stack + extra';
      ReachesIntro(v, t, stack, oa + ob, 1 + k, extra');
    }
  }

  lemma {:induction false} AdequateLook(v: Machine, t: Thread, neg: bool, body: Thread, resume: int, f: nat,
          stack: seq<Choice>)
    requires ValidThread(v, t) && Act(v, t) == Enter(neg, body, resume)
    requires After(v, Whole(v), t, Enter(neg, body, resume), f).Some?
    ensures Reaches(v, t, stack, After(v, Whole(v), t, Enter(neg, body, resume), f).value)
    decreases f, 1
  {
    hide Act, Run;
    OneStep(v, t, stack);
    var inner := Leaves(v, Whole(v), body, f).value;
    var mark := Choice(LookKind(neg), Thread(resume, t.m));
    var pushed := stack + [mark];
    Adequate(v, body, f, pushed);
    var k: nat, extra: seq<Choice> :|
      OnlySplits(extra) && Run(v, Running(body, pushed), k) == if inner == [] then Backtrack(pushed)
        else Running(inner[0], pushed + extra);
    RunAdd(v, Running(t, stack), 1, k);
    assert pushed[..|pushed| - 1] == stack;
    if inner == [] {
      if neg {
        Adequate(v, Thread(resume, t.m), f, stack);
        ReachesAfter(v, t, stack, 1 + k, Thread(resume, t.m), Leaves(v, Whole(v), Thread(resume, t.m), f).value);
      } else {
        ReachesIntro(v, t, stack, [], 1 + k, []);
      }
    } else {
      LookMatched(v, inner[0], pushed + extra, stack, extra, neg, mark);
      RunAdd(v, Running(t, stack), 1 + k, 1);
      if neg {
        ReachesIntro(v, t, stack, [], 2 + k, []);
      } else {
        var u := Thread(resume, MState(t.m.pos, inner[0].m.cap));
        Adequate(v, u, f, stack);
        ReachesAfter(v, t, stack, 2 + k, u, Leaves(v, Whole(v), u, f).value);
      }
    }
  }

  lemma {:induction false} LookMatched(v: Machine, t: Thread, all: seq<Choice>, stack: seq<Choice>, extra: seq<Choice>,
          neg: bool, mark: Choice)
    requires ValidThread(v, t) && v.code[t.pc] == ILookMatch(neg) && mark.kind == LookKind(neg)
    requires OnlySplits(extra) && all == stack + [mark] + extra
    ensures Run(v, Running(t, all), 1) == if neg then Backtrack(stack)
            else Running(Thread(mark.t.pc, MState(mark.t.m.pos, t.m.cap)), stack)
  {
    YoungestOver(stack, extra, LookKind(neg), mark);
    assert all[..|stack|] == stack && all[|stack|] == mark;
    OneStep(v, t, all);
  }
}
