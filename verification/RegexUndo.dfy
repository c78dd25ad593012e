/** The executor's stack: undo pairs and choice points in one array of cells,
    and what it stands for. */
module RegexUndo {
  import opened RegexSyntax
  import opened RegexEval
  import opened RegexMachine

  /** One StackElem: a number, or a link to the previous choice point with the
      kind of this one. */
  datatype Cell = Num(val: int) | Link(prev: nat, kind: Kind)

  /** "Put the old value back at idx." */
  datatype Saved = Saved(idx: nat, old_: int)

  /** A choice point and the changes made since. */
  datatype Frame = Frame(kind: Kind, pc: int, pos: nat, undo: seq<Saved>)

  ghost function UndoCells(u: seq<Saved>): (c: seq<Cell>)
    ensures |c| == 2 * |u|
    decreases |u|
  {
    if u == [] then []
    else UndoCells(u[..|u| - 1]) + [Num(u[|u| - 1].idx), Num(u[|u| - 1].old_)]
  }

  ghost function Header(f: Frame, prev: nat): seq<Cell> {
    [Num(f.pc), Num(f.pos), Link(prev, f.kind)]
  }

  /** The cells below the first choice point hold `base`; bp is where the undo
      pairs of the youngest choice point start. */
  ghost function Cells(base: seq<Saved>, frames: seq<Frame>): seq<Cell>
    decreases |frames|, 0
  {
    if frames == [] then UndoCells(base)
    else
      var f, rest := frames[|frames| - 1], frames[..|frames| - 1];
      Cells(base, rest) + Header(f, Bp(base, rest)) + UndoCells(f.undo)
  }

  ghost function Bp(base: seq<Saved>, frames: seq<Frame>): nat
    decreases |frames|, 1
  {
    if frames == [] then 0 else |Cells(base, frames[..|frames| - 1])| + 3
  }

  /** Undo pairs above bp. */
  ghost function Top(base: seq<Saved>, frames: seq<Frame>): seq<Saved> {
    if frames == [] then base else frames[|frames| - 1].undo
  }

  ghost function WithTop(frames: seq<Frame>, u: seq<Saved>): seq<Frame>
    requires frames != []
  {
    var f := frames[|frames| - 1];
    frames[..|frames| - 1] + [Frame(f.kind, f.pc, f.pos, u)]
  }

  /** Replace the undo pairs above bp. */
  ghost function NewBase(base: seq<Saved>, frames: seq<Frame>, u: seq<Saved>): seq<Saved> {
    if frames == [] then u else base
  }

  ghost function NewFrames(frames: seq<Frame>, u: seq<Saved>): seq<Frame> {
    if frames == [] then [] else WithTop(frames, u)
  }

  lemma {:induction false} CellsTop(base: seq<Saved>, frames: seq<Frame>)
    ensures Bp(base, frames) + 2 * |Top(base, frames)| == |Cells(base, frames)|
    ensures Cells(base, frames)[Bp(base, frames)..] == UndoCells(Top(base, frames))
    ensures frames != [] ==> Bp(base, frames) >= 3
  {
  }

  /** Changing the pairs above bp changes the cells above bp and nothing else. */
  lemma {:induction false} CellsNewTop(base: seq<Saved>, frames: seq<Frame>, u: seq<Saved>)
    ensures Bp(NewBase(base, frames, u), NewFrames(frames, u)) == Bp(base, frames)
    ensures Bp(base, frames) <= |Cells(base, frames)|
    ensures Cells(NewBase(base, frames, u), NewFrames(frames, u))
            == Cells(base, frames)[..Bp(base, frames)] + UndoCells(u)
    ensures Top(NewBase(base, frames, u), NewFrames(frames, u)) == u
  {
    CellsTop(base, frames);
    if frames != [] {
      var fs := WithTop(frames, u);
      assert fs[..|fs| - 1] == frames[..|frames| - 1];
    }
  }

  lemma {:induction false} UndoCellsSnoc(u: seq<Saved>, s: Saved)
    ensures UndoCells(u + [s]) == UndoCells(u) + [Num(s.idx), Num(s.old_)]
  {
    assert (u + [s])[..|u|] == u;
  }

  lemma {:induction false} UndoCellsAt(u: seq<Saved>, i: nat)
    requires i < |u|
    ensures UndoCells(u)[2 * i] == Num(u[i].idx) && UndoCells(u)[2 * i + 1] == Num(u[i].old_)
    decreases |u|
  {
    if i < |u| - 1 {
      UndoCellsAt(u[..|u| - 1], i);
    }
  }

  lemma {:induction false} UndoCellsConcat(u: seq<Saved>, w: seq<Saved>)
    ensures UndoCells(u + w) == UndoCells(u) + UndoCells(w)
    decreases |w|
  {
    if w == [] {
      assert u + w == u;
    } else {
      var w' := w[..|w| - 1];
      assert (u + w)[..|u + w| - 1] == u + w';
      UndoCellsConcat(u, w');
    }
  }

  // ----- undoing -----

  ghost predicate SavedIn(u: seq<Saved>, n: nat) {
    forall i :: 0 <= i < |u| ==> u[i].idx < n
  }

  /** Restore, last change first. */
  ghost function Undo(cap: seq<int>, u: seq<Saved>): (r: seq<int>)
    requires SavedIn(u, |cap|)
    ensures |r| == |cap|
    decreases |u|
  {
    if u == [] then cap
    else Undo(cap[u[|u| - 1].idx := u[|u| - 1].old_], u[..|u| - 1])
  }

  lemma {:induction false} UndoSnoc(cap: seq<int>, u: seq<Saved>, s: Saved)
    requires SavedIn(u, |cap|) && s.idx < |cap|
    ensures SavedIn(u + [s], |cap|) && Undo(cap, u + [s]) == Undo(cap[s.idx := s.old_], u)
  {
    assert (u + [s])[..|u|] == u;
  }

  lemma {:induction false} UndoConcat(cap: seq<int>, u: seq<Saved>, w: seq<Saved>)
    requires SavedIn(u, |cap|) && SavedIn(w, |cap|)
    ensures SavedIn(u + w, |cap|) && Undo(cap, u + w) == Undo(Undo(cap, w), u)
    decreases |w|
  {
    if w == [] {
      assert u + w == u;
    } else {
      var w' := w[..|w| - 1];
      var s := w[|w| - 1];
      assert (u + w)[..|u + w| - 1] == u + w' && (u + w)[|u + w| - 1] == s;
      UndoConcat(cap[s.idx := s.old_], u, w');
    }
  }

  ghost predicate Mentions(u: seq<Saved>, idx: nat) {
    exists i :: 0 <= i < |u| && u[i].idx == idx
  }

  /** A value saved before need not be saved again: the older save wins. */
  lemma {:induction false} UndoForgets(cap: seq<int>, u: seq<Saved>, idx: nat, value: int)
    requires SavedIn(u, |cap|) && idx < |cap| && Mentions(u, idx)
    ensures Undo(cap[idx := value], u) == Undo(cap, u)
    decreases |u|
  {
    var s, rest := u[|u| - 1], u[..|u| - 1];
    var a, b := cap[idx := value][s.idx := s.old_], cap[s.idx := s.old_];
    if s.idx == idx {
      assert a == b;
    } else {
      var i :| 0 <= i < |u| && u[i].idx == idx;
      assert rest[i].idx == idx;
      assert a == b[idx := value];
      UndoForgets(b, rest, idx, value);
    }
  }

  // ----- the copying machine's stack that the cells stand for -----

  ghost predicate FramesIn(frames: seq<Frame>, n: nat) {
    forall i :: 0 <= i < |frames| ==> SavedIn(frames[i].undo, n)
  }

  /** Each choice point's copy of the captures: undo everything younger. */
  ghost function Copies(cap: seq<int>, frames: seq<Frame>): (s: seq<Choice>)
    requires FramesIn(frames, |cap|)
    ensures |s| == |frames|
    decreases |frames|
  {
    if frames == [] then []
    else
      var f := frames[|frames| - 1];
      var c := Undo(cap, f.undo);
      Copies(c, frames[..|frames| - 1]) + [Choice(f.kind, Thread(f.pc, MState(f.pos, c)))]
  }

  /** Only the result of undoing the youngest frame matters below it. */
  lemma {:induction false} CopiesNewTop(cap: seq<int>, cap': seq<int>, frames: seq<Frame>, u: seq<Saved>)
    requires frames != [] && |cap'| == |cap| && FramesIn(frames, |cap|) && SavedIn(u, |cap|)
    requires Undo(cap', u) == Undo(cap, frames[|frames| - 1].undo)
    ensures FramesIn(WithTop(frames, u), |cap'|) && Copies(cap', WithTop(frames, u)) == Copies(cap, frames)
  {
    var fs := WithTop(frames, u);
    assert fs[..|fs| - 1] == frames[..|frames| - 1];
  }

  lemma {:induction false} CopiesPush(cap: seq<int>, frames: seq<Frame>, f: Frame)
    requires FramesIn(frames, |cap|) && f.undo == []
    ensures FramesIn(frames + [f], |cap|)
    ensures Copies(cap, frames + [f]) == Copies(cap, frames) + [Choice(f.kind, Thread(f.pc, MState(f.pos, cap)))]
  {
    assert (frames + [f])[..|frames|] == frames;
  }

  lemma {:induction false} CellsPush(base: seq<Saved>, frames: seq<Frame>, f: Frame)
    requires f.undo == []
    ensures Cells(base, frames + [f]) == Cells(base, frames) + Header(f, Bp(base, frames))
    ensures Bp(base, frames + [f]) == |Cells(base, frames)| + 3
  {
    assert (frames + [f])[..|frames|] == frames;
    assert UndoCells([]) == [];
    assert Cells(base, frames) + Header(f, Bp(base, frames)) + [] == Cells(base, frames) + Header(f, Bp(base, frames));
  }

  lemma {:induction false} CopiesKinds(cap: seq<int>, frames: seq<Frame>, i: nat)
    requires FramesIn(frames, |cap|) && i < |frames|
    ensures Copies(cap, frames)[i].kind == frames[i].kind
    decreases |frames|
  {
    if i < |frames| - 1 {
      CopiesKinds(Undo(cap, frames[|frames| - 1].undo), frames[..|frames| - 1], i);
    }
  }

  // ----- removing the choice points of a finished lookahead -----

  /** All changes recorded in a run of frames, oldest first. */
  ghost function AllUndo(frames: seq<Frame>): seq<Saved>
    decreases |frames|
  {
    if frames == [] then [] else AllUndo(frames[..|frames| - 1]) + frames[|frames| - 1].undo
  }

  lemma {:induction false} AllUndoIn(frames: seq<Frame>, n: nat)
    requires FramesIn(frames, n)
    ensures SavedIn(AllUndo(frames), n)
    decreases |frames|
  {
    if frames != [] {
      AllUndoIn(frames[..|frames| - 1], n);
    }
  }

  /** The youngest frame's changes come last. */
  lemma {:induction false} AllUndoSnoc(frames: seq<Frame>, j: nat)
    requires j < |frames|
    ensures AllUndo(frames[j..]) == AllUndo(frames[..|frames| - 1][j..]) + frames[|frames| - 1].undo
  {
    var rest := frames[..|frames| - 1];
    assert frames[j..][..|frames| - j - 1] == rest[j..];
  }

  lemma {:induction false} NothingUndone(cap: seq<int>, frames: seq<Frame>)
    ensures AllUndo(frames[|frames|..]) == [] && SavedIn([], |cap|) && Undo(cap, []) == cap
  {}

  /** Choice points below j see the same captures whether the frames from j on
      are undone one by one or as one spliced run of pairs. */
  lemma {:induction false} CopiesBelow(cap: seq<int>, frames: seq<Frame>, j: nat)
    requires FramesIn(frames, |cap|) && j <= |frames|
    ensures SavedIn(AllUndo(frames[j..]), |cap|)
    ensures Copies(cap, frames)[..j] == Copies(Undo(cap, AllUndo(frames[j..])), frames[..j])
    ensures j < |frames| ==>
      Copies(cap, frames)[j] == Choice(frames[j].kind,
        Thread(frames[j].pc, MState(frames[j].pos, Undo(cap, AllUndo(frames[j..])))))
    decreases |frames|
  {
    hide AllUndo, Undo, SavedIn;
    AllUndoIn(frames[j..], |cap|);
    if j == |frames| {
      NothingUndone(cap, frames);
      assert frames[..j] == frames;
    } else {
      var f, rest := frames[|frames| - 1], frames[..|frames| - 1];
      CopiesBelow(Undo(cap, f.undo), rest, j);
      AllUndoSnoc(frames, j);
      UndoConcat(cap, AllUndo(rest[j..]), f.undo);
      assert rest[..j] == frames[..j];
      if j == |rest| {
        NothingUndone(Undo(cap, f.undo), rest);
      }
    }
  }

  // ----- the same on cells -----

  /** Where the header of frame i stands. */
  ghost function Pos(base: seq<Saved>, frames: seq<Frame>, i: nat): nat
    requires i <= |frames|
  {
    |Cells(base, frames[..i])|
  }

  lemma {:induction false} PosNext(base: seq<Saved>, frames: seq<Frame>, i: nat)
    requires i < |frames|
    ensures Pos(base, frames, i + 1) == Pos(base, frames, i) + 3 + 2 * |frames[i].undo|
    ensures Bp(base, frames[..i + 1]) == Pos(base, frames, i) + 3
  {
    assert frames[..i + 1][..i] == frames[..i];
  }

  /** The cells while a finished lookahead is taken apart: from frame r on, the
      link of every header holds the end of that frame's pairs. */
  ghost function Marked(base: seq<Saved>, frames: seq<Frame>, r: nat): (c: seq<Cell>)
    requires r <= |frames|
    ensures |c| == |Cells(base, frames)|
    decreases |frames|
  {
    if r == |frames| then Cells(base, frames)
    else
      var f, rest := frames[|frames| - 1], frames[..|frames| - 1];
      Marked(base, rest, r) + [Num(f.pc), Num(f.pos), Num(|Cells(base, frames)|)] + UndoCells(f.undo)
  }

  lemma {:induction false} PosMono(base: seq<Saved>, frames: seq<Frame>, i: nat, k: nat)
    requires i <= k <= |frames|
    ensures Pos(base, frames, i) <= Pos(base, frames, k)
    ensures i < k ==> Pos(base, frames, i) + 3 <= Pos(base, frames, k)
    decreases k - i
  {
    if i < k {
      PosNext(base, frames, i);
      PosMono(base, frames, i + 1, k);
    }
  }

  lemma {:induction false} PosPrefix(base: seq<Saved>, frames: seq<Frame>, k: nat, i: nat)
    requires i <= k <= |frames|
    ensures Pos(base, frames[..k], i) == Pos(base, frames, i)
  {
    assert frames[..k][..i] == frames[..i];
  }

  lemma {:induction false} UpdateLeft(a: seq<Cell>, b: seq<Cell>, i: nat, x: Cell)
    requires i < |a|
    ensures (a + b)[i := x] == a[i := x] + b
  {
  }

  ghost function MarkedTail(f: Frame, end: nat): seq<Cell> {
    [Num(f.pc), Num(f.pos), Num(end)] + UndoCells(f.undo)
  }

  lemma {:induction false} MarkedSnoc(base: seq<Saved>, frames: seq<Frame>, r: nat)
    requires r < |frames|
    ensures Marked(base, frames, r) == Marked(base, frames[..|frames| - 1], r)
            + MarkedTail(frames[|frames| - 1], |Cells(base, frames)|)
  {
    hide Cells, UndoCells;
    var f, rest := frames[|frames| - 1], frames[..|frames| - 1];
    var h := [Num(f.pc), Num(f.pos), Num(|Cells(base, frames)|)];
    assert Marked(base, rest, r) + h + UndoCells(f.undo) == Marked(base, rest, r) + (h + UndoCells(f.undo));
  }

  lemma {:induction false} MarkedAll(base: seq<Saved>, frames: seq<Frame>)
    ensures Marked(base, frames, |frames|) == Cells(base, frames)
  {
    hide Cells;
  }

  ghost predicate HeaderAt(base: seq<Saved>, frames: seq<Frame>, r: nat, m: seq<Cell>, p: nat)
    requires 0 < r <= |frames|
  {
    && p + 3 <= |m|
    && m[p] == Num(frames[r - 1].pc) && m[p + 1] == Num(frames[r - 1].pos)
    && m[p + 2] == Link(Bp(base, frames[..r - 1]), frames[r - 1].kind)
  }

  lemma {:induction false} MarkTop(base: seq<Saved>, frames: seq<Frame>)
    requires frames != []
    ensures Pos(base, frames, |frames|) == |Cells(base, frames)|
    ensures HeaderAt(base, frames, |frames|, Cells(base, frames), Pos(base, frames, |frames| - 1))
    ensures Marked(base, frames, |frames| - 1) == Cells(base, frames)[Pos(base, frames, |frames| - 1) + 2 :=
            Num(|Cells(base, frames)|)]
  {
    var f, rest := frames[|frames| - 1], frames[..|frames| - 1];
    assert frames[..|frames|] == frames;
    MarkedAll(base, rest);
    MarkedSnoc(base, frames, |frames| - 1);
    hide Marked, UndoCells;
    var c, u, q := Cells(base, rest), UndoCells(f.undo), |Cells(base, frames)|;
    assert Cells(base, frames) == c + Header(f, Bp(base, rest)) + u;
    assert (c + Header(f, Bp(base, rest)) + u)[|c| + 2 := Num(q)] == c + ([Num(f.pc), Num(f.pos), Num(q)] + u);
  }

  lemma {:induction false} HeaderPrefix(base: seq<Saved>, frames: seq<Frame>, r: nat, m: seq<Cell>, p: nat,
          tail: seq<Cell>)
    requires 0 < r < |frames| && HeaderAt(base, frames[..|frames| - 1], r, m, p)
    ensures HeaderAt(base, frames, r, m + tail, p)
  {
    hide Bp;
    assert frames[..|frames| - 1][..r - 1] == frames[..r - 1];
  }

  /** Header r - 1 before it is marked: its own link. */
  lemma {:induction false} MarkedHeader(base: seq<Saved>, frames: seq<Frame>, r: nat)
    requires 0 < r <= |frames|
    ensures Pos(base, frames, r) <= |Cells(base, frames)|
    ensures HeaderAt(base, frames, r, Marked(base, frames, r), Pos(base, frames, r - 1))
    ensures Marked(base, frames, r - 1) == Marked(base, frames, r)[Pos(base, frames, r - 1) + 2 :=
            Num(Pos(base, frames, r))]
    decreases |frames|, 1
  {
    hide Cells, Marked, UndoCells, Bp, MarkedTail, HeaderAt, Pos;
    if r == |frames| {
      MarkedAll(base, frames);
      MarkTop(base, frames);
    } else {
      MarkedHeaderUp(base, frames, r);
    }
  }

  lemma {:induction false} MarkedHeaderUp(base: seq<Saved>, frames: seq<Frame>, r: nat)
    requires 0 < r < |frames|
    ensures Pos(base, frames, r) <= |Cells(base, frames)|
    ensures HeaderAt(base, frames, r, Marked(base, frames, r), Pos(base, frames, r - 1))
    ensures Marked(base, frames, r - 1) == Marked(base, frames, r)[Pos(base, frames, r - 1) + 2 :=
            Num(Pos(base, frames, r))]
    decreases |frames|, 0
  {
    hide Cells, Marked, UndoCells, Bp, MarkedTail, HeaderAt, Pos;
    var rest := frames[..|frames| - 1];
    MarkedHeader(base, rest, r);
    PosPrefix(base, frames, |frames| - 1, r);
    PosPrefix(base, frames, |frames| - 1, r - 1);
    PosMono(base, frames, r, |frames|);
    PosAll(base, frames);
    MarkedSnoc(base, frames, r);
    MarkedSnoc(base, frames, r - 1);
    var m, tail, p := Marked(base, rest, r), MarkedTail(frames[|frames| - 1], |Cells(base, frames)|),
      Pos(base, frames, r - 1);
    HeaderPrefix(base, frames, r, m, p, tail);
    HeaderFits(base, rest, r, m, p);
    UpdateLeft(m, tail, p + 2, Num(Pos(base, frames, r)));
  }

  lemma {:induction false} PosAll(base: seq<Saved>, frames: seq<Frame>)
    ensures Pos(base, frames, |frames|) == |Cells(base, frames)|
  {
    assert frames[..|frames|] == frames;
  }

  lemma {:induction false} HeaderFits(base: seq<Saved>, frames: seq<Frame>, r: nat, m: seq<Cell>, p: nat)
    requires 0 < r <= |frames| && HeaderAt(base, frames, r, m, p)
    ensures p + 3 <= |m|
  {
  }

  /** Frame i of the marked part: the end of its pairs, and the pairs. */
  lemma {:induction false} MarkedFrame(base: seq<Saved>, frames: seq<Frame>, j: nat, i: nat)
    requires j <= i < |frames|
    ensures Pos(base, frames, i) + 3 <= Pos(base, frames, i + 1) <= |Cells(base, frames)|
    ensures var p, q, m := Pos(base, frames, i), Pos(base, frames, i + 1), Marked(base, frames, j);
            m[p + 2] == Num(q) && m[p + 3..q] == UndoCells(frames[i].undo)
    decreases |frames|
  {
    hide Cells, Marked, UndoCells, Bp;
    PosNext(base, frames, i);
    PosMono(base, frames, i + 1, |frames|);
    assert frames[..|frames|] == frames;
    var rest := frames[..|frames| - 1];
    MarkedSnoc(base, frames, j);
    if i < |frames| - 1 {
      MarkedFrame(base, rest, j, i);
      PosPrefix(base, frames, |frames| - 1, i);
      PosPrefix(base, frames, |frames| - 1, i + 1);
      SliceLeft(Marked(base, rest, j), MarkedTail(frames[|frames| - 1], |Cells(base, frames)|),
        Pos(base, frames, i) + 3, Pos(base, frames, i + 1));
    } else {
      TailSlice(Marked(base, rest, j), frames[i], |Cells(base, frames)|);
    }
  }

  lemma {:induction false} SliceSame(a: seq<Cell>, b: seq<Cell>, p: nat, q: nat)
    requires p <= q <= |a| == |b| && forall k :: p <= k < q ==> a[k] == b[k]
    ensures a[p..q] == b[p..q]
  {
  }

  lemma {:induction false} SliceLeft(a: seq<Cell>, b: seq<Cell>, p: nat, q: nat)
    requires p <= q <= |a|
    ensures (a + b)[p..q] == a[p..q]
  {
  }

  lemma {:induction false} TailSlice(a: seq<Cell>, f: Frame, q: nat)
    ensures var m := a + MarkedTail(f, q);
            m[|a| + 2] == Num(q) && |m| == |a| + 3 + 2 * |f.undo| && m[|a| + 3..|m|] == UndoCells(f.undo)
  {
    hide UndoCells;
  }

  /** Below frame j nothing is marked. */
  lemma {:induction false} MarkedBelow(base: seq<Saved>, frames: seq<Frame>, j: nat)
    requires j <= |frames|
    ensures Pos(base, frames, j) <= |Cells(base, frames)|
    ensures Marked(base, frames, j)[..Pos(base, frames, j)] == Cells(base, frames[..j])
    decreases |frames|
  {
    assert frames[..|frames|] == frames;
    PosMono(base, frames, j, |frames|);
    if j == |frames| {
      MarkedAll(base, frames);
    } else {
      hide Cells, Marked, UndoCells, MarkedTail;
      MarkedSnoc(base, frames, j);
      var rest := frames[..|frames| - 1];
      MarkedBelow(base, rest, j);
      PosPrefix(base, frames, |frames| - 1, j);
      assert rest[..j] == frames[..j];
      assert Marked(base, frames, j)[..Pos(base, frames, j)] == Marked(base, rest, j)[..Pos(base, frames, j)];
    }
  }

  lemma {:induction false} AllUndoNext(frames: seq<Frame>, j: nat, i: nat)
    requires j <= i < |frames|
    ensures AllUndo(frames[j..i + 1]) == AllUndo(frames[j..i]) + frames[i].undo
  {
    assert frames[j..i + 1][..i - j] == frames[j..i] && frames[j..i + 1][i - j] == frames[i];
  }

  /** The stack once the pairs of frames j .. i have moved down. */
  ghost function MovedCells(base: seq<Saved>, frames: seq<Frame>, j: nat, i: nat): seq<Cell>
    requires j <= i <= |frames|
  {
    Cells(base, frames[..j]) + UndoCells(AllUndo(frames[j..i]))
  }

  lemma {:induction false} MovedNone(base: seq<Saved>, frames: seq<Frame>, j: nat)
    requires j <= |frames|
    ensures Pos(base, frames, j) <= |Cells(base, frames)|
    ensures Marked(base, frames, j)[..Pos(base, frames, j)] == MovedCells(base, frames, j, j)
  {
    MarkedBelow(base, frames, j);
    hide Cells, Marked;
    assert frames[j..j] == [];
  }

  lemma {:induction false} MovedNext(base: seq<Saved>, frames: seq<Frame>, j: nat, i: nat)
    requires j <= i < |frames|
    ensures MovedCells(base, frames, j, i + 1) == MovedCells(base, frames, j, i) + UndoCells(frames[i].undo)
  {
    hide Cells, UndoCells, AllUndo;
    AllUndoNext(frames, j, i);
    UndoCellsConcat(AllUndo(frames[j..i]), frames[i].undo);
  }

  lemma {:induction false} MovedLast(base: seq<Saved>, frames: seq<Frame>, j: nat)
    requires j <= |frames|
    ensures MovedCells(base, frames, j, |frames|) == Cells(base, frames[..j]) + UndoCells(AllUndo(frames[j..]))
  {
    hide Cells, UndoCells, AllUndo;
    assert frames[j..|frames|] == frames[j..];
  }

  /** Pairs moved down onto the frames below form a valid stack again. */
  lemma {:induction false} Rejoin(base: seq<Saved>, lower: seq<Frame>, moved: seq<Saved>)
    ensures var joined := Top(base, lower) + moved;
            && Cells(NewBase(base, lower, joined), NewFrames(lower, joined)) == Cells(base, lower) + UndoCells(moved)
            && Bp(NewBase(base, lower, joined), NewFrames(lower, joined)) == Bp(base, lower)
  {
    var joined := Top(base, lower) + moved;
    CellsTop(base, lower);
    CellsNewTop(base, lower, joined);
    UndoCellsConcat(Top(base, lower), moved);
    var bp := Bp(base, lower);
    assert Cells(base, lower) == Cells(base, lower)[..bp] + UndoCells(Top(base, lower));
  }

  lemma {:induction false} EmptyBelow(base: seq<Saved>, lower: seq<Frame>)
    requires |Cells(base, lower)| == 0
    ensures lower == [] && base == [] && Bp(base, lower) == 0
  {
  }

  lemma {:induction false} EmptyStack(cap: seq<int>)
    ensures Cells([], []) == [] && Bp([], []) == 0 && SavedIn([], |cap|) && FramesIn([], |cap|) && Copies(cap, []) == []
  {
  }

  lemma {:induction false} CopiesRejoined(cap: seq<int>, base: seq<Saved>, frames: seq<Frame>, j: nat)
    requires FramesIn(frames, |cap|) && SavedIn(base, |cap|) && j <= |frames|
    ensures var lower, moved := frames[..j], AllUndo(frames[j..]);
            var joined := Top(base, lower) + moved;
            && SavedIn(joined, |cap|) && FramesIn(NewFrames(lower, joined), |cap|)
            && Copies(cap, NewFrames(lower, joined)) == Copies(cap, frames)[..j]
  {
    var lower, moved := frames[..j], AllUndo(frames[j..]);
    var top := Top(base, lower);
    CopiesBelow(cap, frames, j);
    UndoConcat(cap, top, moved);
    if lower != [] {
      CopiesNewTop(Undo(cap, moved), cap, lower, top + moved);
    }
  }

  /** The youngest mark of this kind, read off the frames. */
  lemma {:induction false} YoungestFrame(cap: seq<int>, frames: seq<Frame>, kind: Kind)
    requires FramesIn(frames, |cap|) && Youngest(Copies(cap, frames), kind).Some?
    ensures var j := Youngest(Copies(cap, frames), kind).value;
            && j < |frames| && frames[j].kind == kind
            && forall i :: j < i < |frames| ==> frames[i].kind != kind
  {
    hide Copies, Youngest;
    forall i | 0 <= i < |frames| ensures frames[i].kind == Copies(cap, frames)[i].kind {
      CopiesKinds(cap, frames, i);
    }
  }

  /** Taking out frame j and everything above it, with all their pairs moved down. */
  lemma {:induction false} Spliced(cap: seq<int>, base: seq<Saved>, frames: seq<Frame>, j: nat)
    requires FramesIn(frames, |cap|) && SavedIn(base, |cap|) && j < |frames|
    ensures var lower, moved := frames[..j], AllUndo(frames[j..]);
            var joined := Top(base, lower) + moved;
            var newBase, newFrames := NewBase(base, lower, joined), NewFrames(lower, joined);
            && SavedIn(newBase, |cap|) && FramesIn(newFrames, |cap|)
            && Cells(newBase, newFrames) == Cells(base, lower) + UndoCells(moved)
            && Bp(newBase, newFrames) == Bp(base, lower)
            && Copies(cap, newFrames) == Copies(cap, frames)[..j]
            && Copies(cap, frames)[j].t.pc == frames[j].pc && Copies(cap, frames)[j].t.m.pos == frames[j].pos
  {
    hide Cells, Bp, Copies, AllUndo, Undo, SavedIn, UndoCells;
    CopiesBelow(cap, frames, j);
    CopiesRejoined(cap, base, frames, j);
    Rejoin(base, frames[..j], AllUndo(frames[j..]));
  }
}
