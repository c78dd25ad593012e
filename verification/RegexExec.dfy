/** lre_exec_backtrack: one capture array, one stack of cells.  Every step of
    this executor is a step of the copying machine. */
module RegexExec {
  import opened Basics
  import opened RegexSyntax
  import opened RegexSubject
  import opened RegexCode
  import opened RegexEval
  import opened RegexMachine
  import opened RegexUndo
  import opened RegexSteps

  /** Every character table of the program is fit for binary search. */
  ghost predicate TablesSorted(code: seq<Instr>) {
    forall i :: 0 <= i < |code| && IsRange(code[i]) ==> SortedPairs(code[i].table)
  }

  /** The executor's binary search over inclusive pairs; in 16-bit tables a last
      high of 0xffff means no upper end.  The upper index never wraps. */
  method RangeSearch(table: seq<nat>, c: nat, wide: bool) returns (hit: bool)
    requires SortedPairs(table)
    ensures hit <==> if wide then InPairs(table, c) else InPairs16(table, c)
  {
    var count := |table| / 2;
    if c < Lo(table, 0) {
      forall i: nat | i < count ensures c < Lo(table, i) {
        assert i > 0 ==> Hi(table, 0) < Lo(table, i);
      }
      return false;
    }
    var idxMin: nat, idxMax: nat := 0, count - 1;
    if !wide && c >= 0xffff && Hi(table, idxMax) == 0xffff {
      return true;
    }
    if c > Hi(table, idxMax) {
      forall i: nat | i < count ensures c > Hi(table, i) {
        assert i < idxMax ==> Hi(table, i) < Lo(table, idxMax);
      }
      return false;
    }
    while idxMin <= idxMax
      invariant idxMin <= idxMax + 1 <= count
      invariant forall i: nat :: i < idxMin ==> Hi(table, i) < c
      invariant forall i: nat :: idxMax < i < count ==> c < Lo(table, i)
      decreases idxMax + 1 - idxMin
    {
      var idx := (idxMin + idxMax) / 2;
      if c < Lo(table, idx) {
        assert idx > 0;
        forall i: nat | idx < i < count ensures c < Lo(table, i) { assert Hi(table, idx) < Lo(table, i); }
        idxMax := idx - 1;
      } else if c > Hi(table, idx) {
        forall i: nat | i < idx ensures Hi(table, i) < c { assert Hi(table, i) < Lo(table, idx); }
        idxMin := idx + 1;
      } else {
        return true;
      }
    }
    return false;
  }

  datatype Status = Go | Matched | Failed

  class Executor {
    const code: seq<Instr>
    const env: Env
    const n: nat
    var capture: seq<int>
    var stack: seq<Cell>
    var bp: nat
    var pc: int
    var cptr: nat
    ghost var base: seq<Saved>
    ghost var frames: seq<Frame>

    ghost function V(): Machine { Machine(code, env, n) }

    /** The cells are the undo pairs and choice points they should be. */
    ghost predicate Valid()
      reads this
    {
      && stack == Cells(base, frames) && bp == Bp(base, frames)
      && SavedIn(base, |capture|) && FramesIn(frames, |capture|)
    }

    /** The copying machine's stack. */
    ghost function Snapshots(): seq<Choice>
      requires Valid()
      reads this
    {
      Copies(capture, frames)
    }

    ghost function Here(): Thread
      reads this
    {
      Thread(pc, MState(cptr, capture))
    }

    /** The copying machine's configuration. */
    ghost function Now(): Config
      requires Valid()
      reads this
    {
      Running(Here(), Snapshots())
    }

    constructor (code: seq<Instr>, env: Env, n: nat, capture: seq<int>, cptr: nat)
      ensures Valid() && V() == Machine(code, env, n)
      ensures Now() == Running(Thread(0, MState(cptr, capture)), [])
    {
      this.code, this.env, this.n, this.capture, this.cptr := code, env, n, capture, cptr;
      stack, bp, pc, base, frames := [], 0, 0, [], [];
    }

    /** SAVE_CAPTURE: remember the old value above bp, then overwrite. */
    method Save(idx: nat, value: int)
      requires Valid() && idx < |capture|
      modifies this`capture, this`stack, this`base, this`frames
      ensures Valid() && Snapshots() == old(Snapshots())
      ensures capture == old(capture)[idx := value]
    {
      hide Cells, Bp, Copies, Undo, UndoCells;
      ghost var u, s := Top(base, frames), Saved(idx, capture[idx]);
      CellsTop(base, frames);
      CellsNewTop(base, frames, u + [s]);
      UndoCellsSnoc(u, s);
      stack := stack + [Num(idx), Num(capture[idx])];
      capture := capture[idx := value];
      ghost var frames' := NewFrames(frames, u + [s]);
      UndoSnoc(capture, u, s);
      assert capture[idx := s.old_] == old(capture);
      if frames != [] {
        CopiesNewTop(old(capture), capture, frames, u + [s]);
      }
      assert stack == old(stack)[..bp] + UndoCells(u + [s]);
      base, frames := NewBase(base, frames, u + [s]), frames';
    }

    /** SAVE_CAPTURE_CHECK: skip the save if this choice point already has one. */
    method SaveCheck(idx: nat, value: int)
      requires Valid() && idx < |capture|
      modifies this`capture, this`stack, this`base, this`frames
      ensures Valid() && Snapshots() == old(Snapshots())
      ensures capture == old(capture)[idx := value]
    {
      hide Cells, Bp, Copies, Undo, UndoCells;
      ghost var u := Top(base, frames);
      CellsTop(base, frames);
      var sp1 := |stack|;
      while sp1 > bp
        invariant bp <= sp1 <= |stack| && (sp1 - bp) % 2 == 0
        invariant capture == old(capture) && stack == old(stack) && base == old(base) && frames == old(frames)
      {
        ghost var i := (sp1 - bp) / 2 - 1;
        UndoCellsAt(u, i);
        assert stack[bp..][2 * i] == stack[sp1 - 2];
        if stack[sp1 - 2].val == idx {
          assert u[i].idx == idx;
          UndoForgets(capture, u, idx, value);
          if frames != [] {
            assert WithTop(frames, u) == frames;
            CopiesNewTop(capture, capture[idx := value], frames, u);
          }
          capture := capture[idx := value];
          return;
        }
        sp1 := sp1 - 2;
      }
      Save(idx, value);
    }

    /** Push a choice point. */
    method PushState(kind: Kind, pc1: int)
      requires Valid()
      modifies this`stack, this`bp, this`frames
      ensures Valid() && Snapshots() == old(Snapshots()) + [Choice(kind, Thread(pc1, MState(cptr, capture)))]
    {
      ghost var f := Frame(kind, pc1, cptr, []);
      CellsPush(base, frames, f);
      CopiesPush(capture, frames, f);
      stack := stack + [Num(pc1), Num(cptr), Link(bp, kind)];
      bp := |stack|;
      frames := frames + [f];
    }

    /** Undo every change since the youngest choice point. */
    method UndoTop()
      requires Valid()
      modifies this`capture, this`stack
      ensures capture == Undo(old(capture), Top(base, frames))
      ensures bp <= |old(stack)| && stack == old(stack)[..bp]
    {
      ghost var u := Top(base, frames);
      ghost var k := |u|;
      CellsTop(base, frames);
      hide Cells, Bp, UndoCells;
      assert SavedIn(u, |capture|);
      assert u[..k] == u;
      while |stack| > bp
        invariant 0 <= k <= |u| && |stack| == bp + 2 * k && stack == old(stack)[..bp + 2 * k]
        invariant |capture| == |old(capture)|
        invariant Undo(capture, u[..k]) == Undo(old(capture), u)
        decreases k
      {
        var sp := |stack|;
        UndoCellsAt(u, k - 1);
        assert old(stack)[bp..][2 * (k - 1)] == stack[sp - 2] && old(stack)[bp..][2 * (k - 1) + 1] == stack[sp - 1];
        assert u[..k][..k - 1] == u[..k - 1];
        capture := capture[stack[sp - 2].val := stack[sp - 1].val];
        stack := stack[..sp - 2];
        k := k - 1;
      }
      assert u[..0] == [];
    }

    /** Undo the youngest choice point's changes and take it off the stack. */
    method Pop() returns (kind: Kind)
      requires Valid() && frames != []
      modifies this`capture, this`stack, this`bp, this`pc, this`cptr, this`frames
      ensures Valid() && |frames| == |old(frames)| - 1
      ensures var c := old(Snapshots())[|frames|]; c == Choice(kind, Here())
      ensures Snapshots() == old(Snapshots())[..|frames|]
    {
      ghost var f, rest := frames[|frames| - 1], frames[..|frames| - 1];
      CellsTop(base, frames);
      ghost var below := Cells(base, rest);
      UndoTop();
      assert stack == below + Header(f, Bp(base, rest));
      var sp := |stack|;
      pc, cptr, kind, bp := stack[sp - 3].val, stack[sp - 2].val, stack[sp - 1].kind, stack[sp - 1].prev;
      stack := stack[..sp - 3];
      frames := rest;
    }

    /** no_match: resume the youngest choice point that is not a lookahead. */
    method NoMatch() returns (alive: bool)
      requires Valid()
      modifies this`capture, this`stack, this`bp, this`pc, this`cptr, this`frames
      ensures Valid() && |capture| == |old(capture)|
      ensures alive ==> Now() == Backtrack(old(Snapshots()))
      ensures !alive ==> Backtrack(old(Snapshots())) == Reject
    {
      while true
        invariant Valid() && |capture| == |old(capture)|
        invariant Backtrack(Snapshots()) == Backtrack(old(Snapshots()))
        decreases |frames|
      {
        CellsTop(base, frames);
        if bp == 0 {
          return false;
        }
        ghost var s := Snapshots();
        var kind := Pop();
        assert s[..|s| - 1] == Snapshots();
        if kind != KLook {
          return true;
        }
      }
    }

    /** negative_lookahead_match: drop everything down to the lookahead, then
        fail. */
    method NegLookMatch() returns (alive: bool)
      requires Valid() && Youngest(Snapshots(), KNegLook).Some?
      modifies this`capture, this`stack, this`bp, this`pc, this`cptr, this`frames
      ensures Valid() && |capture| == |old(capture)|
      ensures alive ==> Now() == FinishLook(old(Here()), old(Snapshots()), true)
      ensures !alive ==> FinishLook(old(Here()), old(Snapshots()), true) == Reject
    {
      ghost var i := Youngest(Snapshots(), KNegLook).value;
      ghost var all := Snapshots();
      while true
        invariant Valid() && |capture| == |old(capture)| && i < |frames| <= |all|
        invariant Snapshots() == all[..|frames|]
        decreases |frames|
      {
        ghost var s := Snapshots();
        var kind := Pop();
        assert s[|frames|] == all[|frames|] && s[..|frames|] == all[..|frames|];
        if kind == KNegLook {
          break;
        }
      }
      assert |frames| == i;
      alive := NoMatch();
    }

    /** Take one choice point off, leaving the end of its pairs in its header. */
    method MarkOne(sp: nat, ghost r: nat) returns (kind: Kind, sp': nat)
      requires 0 < r <= |frames| && sp == Pos(base, frames, r) && bp == Bp(base, frames[..r])
               && stack == Marked(base, frames, r)
      modifies this`stack, this`bp, this`pc, this`cptr
      ensures sp' == Pos(base, frames, r - 1) && bp == Bp(base, frames[..r - 1]) && stack == Marked(base, frames, r - 1)
      ensures pc == frames[r - 1].pc && cptr == frames[r - 1].pos && kind == frames[r - 1].kind
    {
      PosNext(base, frames, r - 1);
      MarkedHeader(base, frames, r);
      hide Cells, Marked, Bp, Pos;
      pc, cptr, kind := stack[bp - 3].val, stack[bp - 2].val, stack[bp - 1].kind;
      sp' := bp - 3;
      bp, stack := stack[bp - 1].prev, stack[bp - 1 := Num(sp)];
    }

    /** First half of lookahead_match: walk down to the lookahead. */
    method MarkDown(ghost j: nat) returns (sp: nat)
      requires Valid() && j < |frames| && frames[j].kind == KLook
      requires forall i :: j < i < |frames| ==> frames[i].kind != KLook
      modifies this`stack, this`bp, this`pc, this`cptr
      ensures sp == Pos(base, frames, j) && bp == Bp(base, frames[..j]) && stack == Marked(base, frames, j)
      ensures pc == frames[j].pc && cptr == frames[j].pos
    {
      ghost var r := |frames|;
      assert frames[..r] == frames;
      MarkedAll(base, frames);
      hide Cells, Marked, Bp;
      sp := |stack|;
      while true
        invariant j < r <= |frames|
        invariant sp == Pos(base, frames, r) && bp == Bp(base, frames[..r]) && stack == Marked(base, frames, r)
        decreases r
      {
        var kind;
        kind, sp := MarkOne(sp, r);
        r := r - 1;
        if kind == KLook {
          break;
        }
      }
    }

    /** Copy the cells from .. to down to sp. */
    method MoveCells(sp: nat, from: nat, to: nat) returns (sp': nat)
      requires sp + 3 <= from <= to <= |stack|
      modifies this`stack
      ensures sp' == sp + (to - from) && |stack| == |old(stack)|
      ensures stack[..sp'] == old(stack)[..sp] + old(stack)[from..to]
      ensures forall k :: to <= k < |stack| ==> stack[k] == old(stack)[k]
    {
      sp' := sp;
      var sp1 := from;
      while sp1 < to
        invariant from <= sp1 <= to && sp' == sp + (sp1 - from) && |stack| == |old(stack)|
        invariant forall k :: 0 <= k < sp ==> stack[k] == old(stack)[k]
        invariant forall k :: sp <= k < sp' ==> stack[k] == old(stack)[k - sp + from]
        invariant forall k :: sp1 <= k < |stack| ==> stack[k] == old(stack)[k]
      {
        stack := stack[sp' := stack[sp1]];
        sp', sp1 := sp' + 1, sp1 + 1;
      }
    }

    /** The pairs of frame i join those already moved. */
    method MoveFrame(sp: nat, sp1: nat, ghost orig: seq<Cell>, ghost j: nat, ghost i: nat) returns (sp': nat, sp1': nat)
      requires j <= i < |frames| && orig == Marked(base, frames, j) && sp1 == Pos(base, frames, i)
      requires sp <= sp1 <= |stack| == |orig| && stack[..sp] == MovedCells(base, frames, j, i)
      requires forall k :: sp1 <= k < |stack| ==> stack[k] == orig[k]
      modifies this`stack
      ensures sp1' == Pos(base, frames, i + 1) && sp' <= sp1' <= |stack| == |orig| && sp1 < sp1'
      ensures stack[..sp'] == MovedCells(base, frames, j, i + 1)
      ensures forall k :: sp1' <= k < |stack| ==> stack[k] == orig[k]
    {
      MarkedFrame(base, frames, j, i);
      MovedNext(base, frames, j, i);
      hide Cells, Marked, UndoCells, Pos, MovedCells;
      sp1' := stack[sp1 + 2].val;
      SliceSame(stack, orig, sp1 + 3, sp1');
      sp' := MoveCells(sp, sp1 + 3, sp1');
    }

    /** Second half: move the undo pairs down over the headers. */
    method MoveDown(start: nat, spTop: nat, ghost j: nat) returns (sp: nat)
      requires j < |frames| && start == Pos(base, frames, j) && spTop == |stack| && stack == Marked(base, frames, j)
      modifies this`stack
      ensures sp <= |stack| && stack[..sp] == MovedCells(base, frames, j, |frames|)
    {
      MovedNone(base, frames, j);
      PosAll(base, frames);
      hide Cells, Marked, Pos, MovedCells;
      ghost var orig, i := stack, j;
      sp := start;
      var sp1 := sp;
      while sp1 < spTop
        invariant j <= i <= |frames| && sp1 == Pos(base, frames, i) && sp <= sp1 <= spTop == |stack| == |orig|
        invariant stack[..sp] == MovedCells(base, frames, j, i)
        invariant forall k :: sp1 <= k < |stack| ==> stack[k] == orig[k]
        decreases spTop - sp1
      {
        sp, sp1 := MoveFrame(sp, sp1, orig, j, i);
        i := i + 1;
      }
      PosMono(base, frames, i, |frames|);
    }

    /** lookahead_match: forget the choice points of the lookahead, keep its
        captures, and keep its undo pairs for the choice point below. */
    method LookMatch()
      requires Valid() && Youngest(Snapshots(), KLook).Some?
      modifies this`stack, this`bp, this`pc, this`cptr, this`base, this`frames
      ensures Valid() && Now() == FinishLook(old(Here()), old(Snapshots()), false)
    {
      hide Cells, Bp, Copies, AllUndo, Undo, SavedIn, FramesIn, UndoCells, Marked, MovedCells, Youngest, Top, NewBase,
           NewFrames;
      ghost var j := Youngest(Snapshots(), KLook).value;
      YoungestFrame(capture, frames, KLook);
      Spliced(capture, base, frames, j);
      var spTop := |stack|;
      var sp := MarkDown(j);
      ghost var lower := frames[..j];
      ghost var joined := Top(base, lower) + AllUndo(frames[j..]);
      if sp != 0 {
        sp := MoveDown(sp, spTop, j);
        MovedLast(base, frames, j);
        stack := stack[..sp];
        base, frames := NewBase(base, lower, joined), NewFrames(lower, joined);
      } else {
        EmptyBelow(base, lower);
        stack := [];
        base, frames := [], [];
        EmptyStack(capture);
      }
    }

    // ----- one instruction -----

    /** The executor has done what the copying machine does to reach c. */
    ghost predicate Did(c: Config, status: Status)
      requires Valid()
      reads this
    {
      match status
      case Go => c == Now()
      case Matched => c == Accept(MState(cptr, capture))
      case Failed => c == Reject
    }

    /** The machine may take a step here. */
    ghost predicate CanStep()
      reads this
    {
      Valid() && ValidThread(V(), Here()) && Step(V(), Now()) != Crash
    }

    method Fail() returns (status: Status)
      requires Valid()
      modifies this`capture, this`stack, this`bp, this`pc, this`cptr, this`frames
      ensures Valid() && Did(Backtrack(old(Snapshots())), status)
    {
      var alive := NoMatch();
      status := if alive then Go else Failed;
    }

    /** Does the character satisfy the instruction? */
    method TestChar(i: Instr, c: nat) returns (hit: bool)
      requires IsAdvancing(i) && (IsRange(i) ==> SortedPairs(i.table))
      ensures hit <==> Hits(i, c)
    {
      match i
      case IChar(d) => hit := c == d;
      case IDot =>
        var ends := TestLineTerminator(c);
        hit := !ends;
      case IAny => hit := true;
      case IRange16(t) => hit := RangeSearch(t, c, false);
      case IRange32(t) => hit := RangeSearch(t, c, true);
    }

    method ExecChar() returns (status: Status)
      requires CanStep() && IsAdvancing(code[pc]) && TablesSorted(code)
      modifies this`capture, this`stack, this`bp, this`pc, this`cptr, this`frames
      ensures Valid() && Did(Step(V(), old(Now())), status)
    {
      ActChar(V(), Here());
      hide Act, Cells, Bp;
      if cptr >= |env.input| {
        status := Fail();
      } else {
        var c, next := GetChar(env, cptr, |env.input|);
        var hit := TestChar(code[pc], c);
        if hit {
          pc, cptr, status := pc + 1, next, Go;
        } else {
          status := Fail();
        }
      }
    }

    method ExecAssert() returns (status: Status)
      requires CanStep() && code[pc].IAssert?
      modifies this`capture, this`stack, this`bp, this`pc, this`cptr, this`frames
      ensures Valid() && Did(Step(V(), old(Now())), status)
    {
      ActAssert(V(), Here(), code[pc].kind);
      hide Act, Cells, Bp, Holds;
      var holds := TestAssertion(env, code[pc].kind, cptr);
      if holds {
        pc, status := pc + 1, Go;
      } else {
        status := Fail();
      }
    }

    /** The comparison loop of back_reference. */
    method CompareText(start: nat, stop: nat) returns (q: Option<nat>)
      requires start <= |env.input| && stop <= |env.input| && cptr <= |env.input|
      ensures q == Reread(env, start, stop, cptr)
    {
      var p: nat, at: nat := start, cptr;
      while p < stop
        invariant p <= |env.input| && at <= |env.input|
        invariant Reread(env, p, stop, at) == Reread(env, start, stop, cptr)
        decreases stop - p
      {
        if at >= |env.input| {
          return None;
        }
        var c1, p' := GetChar(env, p, stop);
        var c2, at' := GetChar(env, at, |env.input|);
        if c1 != c2 {
          return None;
        }
        p, at := p', at';
      }
      return Some(at);
    }

    method ExecBackRef() returns (status: Status)
      requires CanStep() && code[pc].IBackRef?
      modifies this`capture, this`stack, this`bp, this`pc, this`cptr, this`frames
      ensures Valid() && Did(Step(V(), old(Now())), status)
    {
      var k := code[pc].k;
      ActBackRef(V(), Here(), k);
      hide Act, Cells, Bp, Reread;
      var start, stop := capture[2 * k], capture[2 * k + 1];
      if start == NULL || stop == NULL {
        pc, status := pc + 1, Go;
      } else {
        var q := CompareText(start, stop);
        if q.Some? {
          pc, cptr, status := pc + 1, q.value, Go;
        } else {
          status := Fail();
        }
      }
    }

    method ExecSave() returns (status: Status)
      requires CanStep() && (code[pc].ISaveStart? || code[pc].ISaveEnd?)
      modifies this
      ensures Valid() && Did(Step(V(), old(Now())), status)
    {
      var k := code[pc].k;
      SaveFits(V(), Here(), Snapshots(), k);
      ActSave(V(), Here(), k);
      hide Act, Cells, Bp;
      Save(if code[pc].ISaveStart? then 2 * k else 2 * k + 1, cptr);
      pc, status := pc + 1, Go;
    }

    method ExecReset() returns (status: Status)
      requires CanStep() && code[pc].ISaveReset?
      modifies this
      ensures Valid() && Did(Step(V(), old(Now())), status)
    {
      var lo, hi := code[pc].lo, code[pc].hi;
      ResetFits(V(), Here(), Snapshots(), lo, hi);
      ActReset(V(), Here(), lo, hi);
      hide Act, Cells, Bp;
      ghost var c0 := capture;
      var val := lo;
      while val <= hi
        invariant lo <= val && (val <= hi + 1 || val == lo)
        invariant Valid() && Snapshots() == old(Snapshots()) && pc == old(pc) && cptr == old(cptr)
        invariant |capture| == |c0| && 2 * hi + 1 < |c0|
        invariant forall i :: 0 <= i < |c0| ==> capture[i] == if 2 * lo <= i < 2 * val then NULL else c0[i]
      {
        Save(2 * val, NULL);
        Save(2 * val + 1, NULL);
        val := val + 1;
      }
      assert capture == ResetCaps(c0, lo, hi);
      pc, status := pc + 1, Go;
    }

    /** Try one way, keep the other. */
    method Branch(nextFirst: bool, rel: int)
      requires Valid()
      modifies this`stack, this`bp, this`pc, this`frames
      ensures Valid()
      ensures var m, s := old(Here()).m, old(Snapshots());
              var next, target := Thread(old(pc) + 1, m), Thread(old(pc) + 1 + rel, m);
              Now() == if nextFirst then Running(next, s + [Choice(KSplit, target)])
                else Running(target, s + [Choice(KSplit, next)])
    {
      hide Cells, Bp, Copies;
      if nextFirst {
        PushState(KSplit, pc + 1 + rel);
        pc := pc + 1;
      } else {
        PushState(KSplit, pc + 1);
        pc := pc + 1 + rel;
      }
    }

    method ExecJump() returns (status: Status)
      requires CanStep() && (code[pc].ISplit? || code[pc].IGoto? || code[pc].ILook?)
      modifies this
      ensures Valid() && Did(Step(V(), old(Now())), status)
    {
      var i := code[pc];
      ghost var t := Here();
      status := Go;
      match i
      case ISplit(nextFirst, rel) =>
        ActSplit(V(), t, nextFirst, rel);
        hide Act, Cells, Bp;
        Branch(nextFirst, rel);
      case IGoto(rel) =>
        ActGoto(V(), t, rel);
        hide Act, Cells, Bp;
        pc := pc + 1 + rel;
      case ILook(neg, rel) =>
        ActLook(V(), t, neg, rel);
        hide Act, Cells, Bp;
        PushState(LookKind(neg), pc + 1 + rel);
        pc := pc + 1;
    }

    method ExecRegister() returns (status: Status)
      requires CanStep() && (code[pc].ISetI32? || code[pc].ISetCharPos? || code[pc].ICheckAdvance?)
      modifies this
      ensures Valid() && Did(Step(V(), old(Now())), status)
    {
      var i := code[pc];
      RegisterFits(V(), Here(), Snapshots());
      ActRegister(V(), Here(), i.reg, if i.ISetI32? then i.value else 0);
      hide Act, Cells, Bp;
      var idx := 2 * n + i.reg;
      if i.ISetI32? {
        SaveCheck(idx, i.value);
        pc, status := pc + 1, Go;
      } else if i.ISetCharPos? {
        SaveCheck(idx, cptr);
        pc, status := pc + 1, Go;
      } else if capture[idx] == cptr {
        status := Fail();
      } else {
        pc, status := pc + 1, Go;
      }
    }

    method ExecLoop() returns (status: Status)
      requires CanStep() && code[pc].ILoop?
      modifies this
      ensures Valid() && Did(Step(V(), old(Now())), status)
    {
      var i := code[pc];
      RegisterFits(V(), Here(), Snapshots());
      ActLoop(V(), Here(), i.reg);
      hide Act, Cells, Bp;
      var idx := 2 * n + i.reg;
      var val := Decrement(capture[idx]);
      SaveCheck(idx, val);
      pc, status := if val != 0 then pc + 1 + i.rel else pc + 1, Go;
    }

    /** The loop instructions with a split: count down, loop while passes are
        due, check for progress, then choose. */
    method ExecLoopSplit() returns (status: Status)
      requires CanStep() && code[pc].ILoopSplit?
      modifies this
      ensures Valid() && Did(Step(V(), old(Now())), status)
    {
      hide Act, Cells, Bp, Step, Copies, LoopAction, Backtrack;
      var i := code[pc];
      RegisterFits(V(), Here(), Snapshots());
      ActLoop(V(), Here(), i.reg);
      var idx := 2 * n + i.reg;
      var val := Decrement(capture[idx]);
      LoopSplitSteps(V(), Here(), Snapshots(), idx, val);
      hide Decrement;
      SaveCheck(idx, val);
      if val > i.limit {
        pc, status := pc + 1 + i.rel, Go;
      } else if i.check && capture[idx + 1] == cptr && val != i.limit {
        status := Fail();
      } else if val != 0 {
        Branch(i.nextFirst, i.rel);
        status := Go;
      } else {
        pc, status := pc + 1, Go;
      }
    }

    method ExecStop() returns (status: Status)
      requires CanStep() && (code[pc].IMatch? || code[pc].ILookMatch?)
      modifies this
      ensures Valid() && Did(Step(V(), old(Now())), status)
    {
      StopAct(V(), Here());
      hide Act, Cells, Bp;
      if code[pc].IMatch? {
        status := Matched;
      } else if code[pc].neg {
        var alive := NegLookMatch();
        status := if alive then Go else Failed;
      } else {
        LookMatch();
        status := Go;
      }
    }

    /** One turn of the interpreter loop. */
    method ExecOne() returns (status: Status)
      requires CanStep() && TablesSorted(code)
      modifies this
      ensures Valid() && Did(Step(V(), old(Now())), status)
    {
      hide Cells, Bp, Step, Copies;
      match code[pc]
      case IMatch => status := ExecStop();
      case ILookMatch(_) => status := ExecStop();
      case IAssert(_) => status := ExecAssert();
      case IBackRef(_) => status := ExecBackRef();
      case ISaveStart(_) => status := ExecSave();
      case ISaveEnd(_) => status := ExecSave();
      case ISaveReset(_, _) => status := ExecReset();
      case ISplit(_, _) => status := ExecJump();
      case IGoto(_) => status := ExecJump();
      case ILook(_, _) => status := ExecJump();
      case ISetI32(_, _) => status := ExecRegister();
      case ISetCharPos(_) => status := ExecRegister();
      case ICheckAdvance(_) => status := ExecRegister();
      case ILoop(_, _) => status := ExecLoop();
      case ILoopSplit(_, _, _, _, _) => status := ExecLoopSplit();
      case IChar(_) => status := ExecChar();
      case IDot => status := ExecChar();
      case IAny => status := ExecChar();
      case IRange16(_) => status := ExecChar();
      case IRange32(_) => status := ExecChar();
    }

    /** The interpreter loop.  The undo-log executor refines the copying machine
        over whole runs: if that machine halts after k steps, so does this one,
        with the same answer and the same captures. */
    method Exec(ghost k: nat) returns (matched: bool)
      requires Valid() && TablesSorted(code)
      requires Run(V(), Now(), k).Accept? || Run(V(), Now(), k).Reject?
      modifies this
      ensures matched <==> Run(V(), old(Now()), k).Accept?
      ensures matched ==> Run(V(), old(Now()), k) == Accept(MState(cptr, capture))
    {
      ghost var left := k;
      ghost var goal := Run(V(), Now(), k);
      hide Cells, Bp, Copies;
      while true
        invariant Valid() && Run(V(), Now(), left) == goal
        decreases left
      {
        assert left > 0;
        ghost var next := Step(V(), Now());
        assert Run(V(), Now(), left) == Run(V(), next, left - 1);
        assert CanStep() by { Stays(V(), Now(), left); }
        var status := ExecOne();
        if status != Go {
          Halted(V(), next, left - 1);
          return status == Matched;
        }
        left := left - 1;
      }
    }
  }

  lemma {:induction false} Halted(v: Machine, c: Config, k: nat)
    requires !c.Running?
    ensures Run(v, c, k) == c
  {
  }

  lemma {:induction false} Stays(v: Machine, c: Config, k: nat)
    requires c.Running? && k > 0 && (Run(v, c, k).Accept? || Run(v, c, k).Reject?)
    ensures ValidThread(v, c.t) && Step(v, c) != Crash
  {
    hide Act;
    Halted(v, Crash, k - 1);
  }

  lemma {:induction false} SaveFits(v: Machine, t: Thread, stack: seq<Choice>, k: nat)
    requires ValidThread(v, t) && Step(v, Running(t, stack)) != Crash
    requires v.code[t.pc] == ISaveStart(k) || v.code[t.pc] == ISaveEnd(k)
    ensures 2 * k < |t.m.cap| && (v.code[t.pc].ISaveEnd? ==> 2 * k + 1 < |t.m.cap|)
  {
  }

  lemma {:induction false} ResetFits(v: Machine, t: Thread, stack: seq<Choice>, lo: nat, hi: nat)
    requires ValidThread(v, t) && Step(v, Running(t, stack)) != Crash && v.code[t.pc] == ISaveReset(lo, hi)
    ensures 2 * hi + 1 < |t.m.cap|
  {
  }

  lemma {:induction false} RegisterFits(v: Machine, t: Thread, stack: seq<Choice>)
    requires ValidThread(v, t) && Step(v, Running(t, stack)) != Crash
    requires var i := v.code[t.pc]; i.ISetI32? || i.ISetCharPos? || i.ICheckAdvance? || i.ILoop? || i.ILoopSplit?
    ensures 2 * v.n + v.code[t.pc].reg < |t.m.cap|
  {
  }

  lemma {:induction false} LoopSplitSteps(v: Machine, t: Thread, stack: seq<Choice>, idx: nat, val: nat)
    requires ValidThread(v, t) && v.code[t.pc].ILoopSplit? && idx < |t.m.cap| && val == Decrement(t.m.cap[idx])
    requires Act(v, t) == LoopAction(v.code[t.pc], t.pc, t.m, idx) && Step(v, Running(t, stack)) != Crash
    ensures val <= v.code[t.pc].limit && v.code[t.pc].check ==> idx + 1 < |t.m.cap|
    ensures var i, m, next := v.code[t.pc], MState(t.m.pos, t.m.cap[idx := val]), Step(v, Running(t, stack));
            && (val > i.limit ==> next == Running(Thread(t.pc + 1 + i.rel, m), stack))
            && (val <= i.limit && i.check && t.m.cap[idx + 1] == t.m.pos && val != i.limit ==> next == Backtrack(stack))
            && (val <= i.limit && !(i.check && t.m.cap[idx + 1] == t.m.pos && val != i.limit) ==>
                  next == if val == 0 then Running(Thread(t.pc + 1, m), stack)
                          else if i.nextFirst then Running(Thread(t.pc + 1, m),
                            stack + [Choice(KSplit, Thread(t.pc + 1 + i.rel, m))])
                          else Running(Thread(t.pc + 1 + i.rel, m), stack + [Choice(KSplit, Thread(t.pc + 1, m))]))
  {
    hide Act;
  }

  lemma {:induction false} StopAct(v: Machine, t: Thread)
    requires ValidThread(v, t) && (v.code[t.pc].IMatch? || v.code[t.pc].ILookMatch?)
    ensures Act(v, t) == Stop
  {
  }
}
