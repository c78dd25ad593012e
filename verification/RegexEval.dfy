/** One step of the bytecode, and the list of all threads that leave a window
    of the program, in priority order. */
module RegexEval {
  import opened Basics
  import opened RegexSyntax
  import opened RegexCode

  /** An unset capture (a NULL pointer). */
  const NULL: int := -1

  /** Position and the capture array: 2n capture positions, then registers. */
  datatype MState = MState(pos: nat, cap: seq<int>)

  datatype Thread = Thread(pc: int, m: MState)

  /** What an instruction asks for. */
  datatype Action =
    | Fail
    | Next(t: Thread)
    | Fork(first: Thread, second: Thread)
    | Enter(neg: bool, body: Thread, resume: int)
    | Stop
    | Stuck

  /** The program, the subject and the number of captures. */
  datatype Machine = Machine(code: seq<Instr>, env: Env, n: nat)

  const UINT32: nat := 0x1_0000_0000

  /** Unsigned 32-bit decrement of a loop counter. */
  function Decrement(v: int): nat { (v - 1) % UINT32 }

  function ResetCaps(cap: seq<int>, lo: nat, hi: nat): (r: seq<int>)
    ensures |r| == |cap|
    ensures forall i :: 0 <= i < |cap| ==> r[i] == if 2 * lo <= i < 2 * hi + 2 then NULL else cap[i]
  {
    seq(|cap|, i requires 0 <= i < |cap| => if 2 * lo <= i < 2 * hi + 2 then NULL else cap[i])
  }

  function ForkTo(nextFirst: bool, pc: int, rel: int, m: MState): Action {
    if nextFirst then Fork(Thread(pc, m), Thread(pc + rel, m))
    else Fork(Thread(pc + rel, m), Thread(pc, m))
  }

  ghost predicate ValidThread(v: Machine, t: Thread) {
    0 <= t.pc < |v.code| && t.m.pos <= |v.env.input|
  }

  ghost function LoopAction(i: Instr, pc: int, m: MState, idx: nat): Action
    requires i.ILoop? || i.ILoopSplit?
    requires idx < |m.cap|
  {
    var val := Decrement(m.cap[idx]);
    var m' := MState(m.pos, m.cap[idx := val]);
    if i.ILoop? then
      Next(Thread(if val != 0 then pc + 1 + i.rel else pc + 1, m'))
    else if val > i.limit then Next(Thread(pc + 1 + i.rel, m'))
    else if i.check && idx + 1 >= |m.cap| then Stuck
    else if i.check && m.cap[idx + 1] == m.pos && val != i.limit then Fail
    else if val != 0 then ForkTo(i.nextFirst, pc + 1, i.rel, m')
    else Next(Thread(pc + 1, m'))
  }

  ghost function BackRefAction(v: Machine, k: nat, pc: int, m: MState): Action
    requires m.pos <= |v.env.input|
  {
    if 2 * k + 1 >= |m.cap| then Stuck
    else
      var s, e := m.cap[2 * k], m.cap[2 * k + 1];
      if s == NULL || e == NULL then Next(Thread(pc + 1, m))
      else if !(0 <= s <= |v.env.input| && 0 <= e <= |v.env.input|) then Stuck
      else
        var q := Reread(v.env, s, e, m.pos);
        if q.Some? then Next(Thread(pc + 1, MState(q.value, m.cap))) else Fail
  }

  /** The action of the instruction at the thread's program counter. */
  ghost function Act(v: Machine, t: Thread): Action
    requires ValidThread(v, t)
  {
    var Thread(pc, m) := t;
    var i := v.code[pc];
    match i
    case IMatch => Stop
    case ILookMatch(_) => Stop
    case IAssert(kind) => if Holds(v.env, kind, m.pos) then Next(Thread(pc + 1, m)) else Fail
    case IBackRef(k) => BackRefAction(v, k, pc, m)
    case ISaveStart(k) => if 2 * k < |m.cap| then Next(Thread(pc + 1, MState(m.pos, m.cap[2 * k := m.pos]))) else Stuck
    case ISaveEnd(k) => if 2 * k + 1 < |m.cap| then Next(Thread(pc + 1, MState(m.pos, m.cap[2 * k + 1 := m.pos])))
      else Stuck
    case ISaveReset(lo, hi) => if 2 * hi + 1 < |m.cap|
      then Next(Thread(pc + 1, MState(m.pos, ResetCaps(m.cap, lo, hi)))) else Stuck
    case ISplit(nextFirst, rel) => ForkTo(nextFirst, pc + 1, rel, m)
    case IGoto(rel) => Next(Thread(pc + 1 + rel, m))
    case ILook(neg, rel) => Enter(neg, Thread(pc + 1, m), pc + 1 + rel)
    case ISetI32(r, value) =>
      if 2 * v.n + r < |m.cap| then Next(Thread(pc + 1, MState(m.pos, m.cap[2 * v.n + r := value]))) else Stuck
    case ISetCharPos(r) =>
      if 2 * v.n + r < |m.cap| then Next(Thread(pc + 1, MState(m.pos, m.cap[2 * v.n + r := m.pos]))) else Stuck
    case ICheckAdvance(r) =>
      if 2 * v.n + r >= |m.cap| then Stuck
      else if m.cap[2 * v.n + r] == m.pos then Fail else Next(Thread(pc + 1, m))
    case ILoop(r, _) => if 2 * v.n + r < |m.cap| then LoopAction(i, pc, m, 2 * v.n + r) else Stuck
    case ILoopSplit(_, _, r, _, _) => if 2 * v.n + r < |m.cap| then LoopAction(i, pc, m, 2 * v.n + r) else Stuck
    case _ =>
      if m.pos >= |v.env.input| then Fail
      else
        var (c, next) := CharAt(v.env, m.pos, |v.env.input|);
        if Hits(i, c) then Next(Thread(pc + 1, MState(next, m.cap))) else Fail
  }

  // ----- all threads that leave a window -----

  datatype Window = Window(lo: int, hi: int)

  predicate Inside(w: Window, pc: int) { w.lo <= pc < w.hi }

  function Whole(v: Machine): Window { Window(0, |v.code|) }

  function Within(inner: Window, outer: Window): bool { outer.lo <= inner.lo && inner.hi <= outer.hi }

  ghost predicate AllLookMatch(v: Machine, ts: seq<Thread>, neg: bool) {
    forall i :: 0 <= i < |ts| ==> ValidThread(v, ts[i]) && v.code[ts[i].pc] == ILookMatch(neg)
  }

  function Join(a: Option<seq<Thread>>, b: Option<seq<Thread>>): Option<seq<Thread>> {
    if a.Some? && b.Some? then Some(a.value + b.value) else None
  }

  /** The threads leaving `w` (or stopping in it), first choice first; None when
      `fuel` steps are not enough or an instruction is stuck. */
  ghost function Leaves(v: Machine, w: Window, t: Thread, fuel: nat): Option<seq<Thread>>
    decreases fuel, 0
  {
    if !Inside(w, t.pc) then Some([t])
    else if fuel == 0 || !ValidThread(v, t) then None
    else After(v, w, t, Act(v, t), fuel - 1)
  }

  /** The same, once the action is known. */
  ghost function After(v: Machine, w: Window, t: Thread, action: Action, fuel: nat): Option<seq<Thread>>
    decreases fuel, 1
  {
    match action
    case Stuck => None
    case Stop => Some([t])
    case Fail => Some([])
    case Next(u) => Leaves(v, w, u, fuel)
    case Fork(a, b) => Join(Leaves(v, w, a, fuel), Leaves(v, w, b, fuel))
    case Enter(neg, body, resume) =>
      var inner := Leaves(v, Whole(v), body, fuel);
      if inner.None? || !AllLookMatch(v, inner.value, neg) then None
      else if neg != (inner.value == []) then Some([])
      else Leaves(v, w, Thread(resume, Resumed(t.m, neg, inner.value)), fuel)
  }

  /** The state after a lookahead: the old position, and for a positive one the
      captures of its first match. */
  function Resumed(m: MState, neg: bool, inner: seq<Thread>): MState
    requires neg == (inner == [])
  {
    if neg then m else MState(m.pos, inner[0].m.cap)
  }

  ghost function LeavesAll(v: Machine, w: Window, ts: seq<Thread>, fuel: nat): Option<seq<Thread>> {
    if ts == [] then Some([])
    else Join(Leaves(v, w, ts[0], fuel), LeavesAll(v, w, ts[1..], fuel))
  }

  /** More fuel changes nothing. */
  lemma {:induction false} LeavesMore(v: Machine, w: Window, t: Thread, f: nat, f': nat)
    requires f <= f' && Leaves(v, w, t, f).Some?
    ensures Leaves(v, w, t, f') == Leaves(v, w, t, f)
    decreases f, 0
  {
    if Inside(w, t.pc) {
      AfterMore(v, w, t, Act(v, t), f - 1, f' - 1);
    }
  }

  lemma {:induction false} AfterMore(v: Machine, w: Window, t: Thread, action: Action, f: nat, f': nat)
    requires f <= f' && After(v, w, t, action, f).Some?
    ensures After(v, w, t, action, f') == After(v, w, t, action, f)
    decreases f, 1
  {
    match action
    case Next(u) => LeavesMore(v, w, u, f, f');
    case Fork(a, b) =>
      LeavesMore(v, w, a, f, f');
      LeavesMore(v, w, b, f, f');
    case Enter(neg, body, resume) =>
      LeavesMore(v, Whole(v), body, f, f');
      var inner := Leaves(v, Whole(v), body, f).value;
      if neg == (inner == []) {
        LeavesMore(v, w, Thread(resume, Resumed(t.m, neg, inner)), f, f');
      }
    case _ =>
  }

  lemma {:induction false} LeavesAllMore(v: Machine, w: Window, ts: seq<Thread>, f: nat, f': nat)
    requires f <= f' && LeavesAll(v, w, ts, f).Some?
    ensures LeavesAll(v, w, ts, f') == LeavesAll(v, w, ts, f)
    decreases |ts|
  {
    if ts != [] {
      LeavesMore(v, w, ts[0], f, f');
      LeavesAllMore(v, w, ts[1..], f, f');
    }
  }

  lemma {:induction false} LeavesAllConcat(v: Machine, w: Window, a: seq<Thread>, b: seq<Thread>, f: nat)
    ensures LeavesAll(v, w, a + b, f) == Join(LeavesAll(v, w, a, f), LeavesAll(v, w, b, f))
    decreases |a|
  {
    if a == [] {
      assert a + b == b;
      if LeavesAll(v, w, b, f).Some? {
        assert [] + LeavesAll(v, w, b, f).value == LeavesAll(v, w, b, f).value;
      }
    } else {
      assert (a + b)[0] == a[0] && (a + b)[1..] == a[1..] + b;
      LeavesAllConcat(v, w, a[1..], b, f);
      var x, y, z := Leaves(v, w, a[0], f), LeavesAll(v, w, a[1..], f), LeavesAll(v, w, b, f);
      if x.Some? && y.Some? && z.Some? {
        assert (x.value + y.value) + z.value == x.value + (y.value + z.value);
      }
    }
  }

  lemma {:induction false} LeavesAllOne(v: Machine, w: Window, t: Thread, f: nat)
    ensures LeavesAll(v, w, [t], f) == Leaves(v, w, t, f)
  {
    assert [t][1..] == [];
    if Leaves(v, w, t, f).Some? {
      assert Leaves(v, w, t, f).value + [] == Leaves(v, w, t, f).value;
    }
  }

  /** Running a block first and the rest of the window afterwards explores the
      same threads in the same order. */
  lemma {:induction false} Compose(v: Machine, inner: Window, outer: Window, t: Thread, f: nat, f2: nat)
    requires Within(inner, outer)
    requires Leaves(v, inner, t, f).Some?
    requires LeavesAll(v, outer, Leaves(v, inner, t, f).value, f2).Some?
    ensures Leaves(v, outer, t, f + f2) == LeavesAll(v, outer, Leaves(v, inner, t, f).value, f2)
    decreases f, 0
  {
    if !Inside(inner, t.pc) {
      LeavesAllOne(v, outer, t, f2);
      LeavesMore(v, outer, t, f2, f + f2);
    } else {
      ComposeAfter(v, inner, outer, t, Act(v, t), f - 1, f2);
    }
  }

  lemma {:induction false} ComposeAfter(v: Machine, inner: Window, outer: Window, t: Thread, action: Action, f: nat,
          f2: nat)
    requires Within(inner, outer) && Inside(inner, t.pc) && ValidThread(v, t) && action == Act(v, t)
    requires After(v, inner, t, action, f).Some?
    requires LeavesAll(v, outer, After(v, inner, t, action, f).value, f2).Some?
    ensures After(v, outer, t, action, f + f2) == LeavesAll(v, outer, After(v, inner, t, action, f).value, f2)
    decreases f, 1
  {
    match action
    case Stop => LeavesAllOne(v, outer, t, f2);
    case Fail =>
    case Next(u) => Compose(v, inner, outer, u, f, f2);
    case Fork(a, b) =>
      var ua, ub := Leaves(v, inner, a, f).value, Leaves(v, inner, b, f).value;
      LeavesAllConcat(v, outer, ua, ub, f2);
      Compose(v, inner, outer, a, f, f2);
      Compose(v, inner, outer, b, f, f2);
    case Enter(neg, body, resume) =>
      LeavesMore(v, Whole(v), body, f, f + f2);
      var ib := Leaves(v, Whole(v), body, f).value;
      if neg == (ib == []) {
        Compose(v, inner, outer, Thread(resume, Resumed(t.m, neg, ib)), f, f2);
      }
  }

  /** Threads already outside the window leave at once. */
  lemma {:induction false} LeavesOutside(v: Machine, w: Window, ts: seq<Thread>, f: nat)
    requires forall i :: 0 <= i < |ts| ==> !Inside(w, ts[i].pc)
    ensures LeavesAll(v, w, ts, f) == Some(ts)
    decreases |ts|
  {
    if ts != [] {
      LeavesOutside(v, w, ts[1..], f);
      assert [ts[0]] + ts[1..] == ts;
    }
  }

  /** A block whose exits lie outside the larger window behaves there as alone. */
  lemma {:induction false} Widen(v: Machine, inner: Window, outer: Window, t: Thread, f: nat)
    requires Within(inner, outer)
    requires Leaves(v, inner, t, f).Some?
    requires forall u <- Leaves(v, inner, t, f).value :: !Inside(outer, u.pc)
    ensures Leaves(v, outer, t, f) == Leaves(v, inner, t, f)
  {
    LeavesOutside(v, outer, Leaves(v, inner, t, f).value, 0);
    Compose(v, inner, outer, t, f, 0);
  }
}
