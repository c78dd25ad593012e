/** The compiler as it works: one growing buffer, instructions inserted in front
    of code already emitted, and jumps patched afterwards. */
module RegexParser {
  import opened Basics
  import opened RegexSyntax
  import opened RegexCode
  import opened RegexFrame
  import opened RegexAdvance

  const CAPTURE_COUNT_MAX: nat := 255

  /** Character classes small enough for a 16-bit count. */
  predicate RangesFit(node: Node) {
    match node
    case Class(points) => |points| / 2 < 65535
    case Cat(a, b) => RangesFit(a) && RangesFit(b)
    case Alt(a, b) => RangesFit(a) && RangesFit(b)
    case Group(b) => RangesFit(b)
    case Look(_, b) => RangesFit(b)
    case Quant(b, _, _, _) => RangesFit(b)
    case _ => true
  }

  /** When compilation succeeds: "too many captures" and "too many ranges" are
      the only errors a parsed tree can meet. */
  predicate Compilable(node: Node, captureCount: nat) {
    captureCount + Groups(node) <= CAPTURE_COUNT_MAX && RangesFit(node)
  }

  lemma {:induction false} SuffixCode(all: seq<Instr>, pre: seq<Instr>, suf: seq<Instr>, pos: nat)
    requires all == pre + suf && pos == |pre|
    ensures all[..pos] == pre && all[pos..] == suf
  {
  }

  lemma {:induction false} InsertAt(pre: seq<Instr>, suf: seq<Instr>, ins: seq<Instr>)
    ensures (pre + suf)[..|pre|] + ins + (pre + suf)[|pre|..] == pre + (ins + suf)
  {
  }

  lemma {:induction false} Regroup(a: seq<Instr>, b: seq<Instr>, c: seq<Instr>, d: seq<Instr>)
    ensures (a + b) + c + d == a + (b + c + d)
  {
  }

  class ReParseState {
    var byteCode: seq<Instr>
    var captureCount: nat

    constructor ()
      ensures byteCode == [] && captureCount == 1
    {
      byteCode, captureCount := [], 1;
    }

    method Put(i: Instr)
      modifies this`byteCode
      ensures byteCode == old(byteCode) + [i]
    {
      byteCode := byteCode + [i];
    }

    /** dbuf_insert followed by the writes into the gap. */
    method Insert(pos: nat, ins: seq<Instr>)
      requires pos <= |byteCode|
      modifies this`byteCode
      ensures byteCode == old(byteCode)[..pos] + ins + old(byteCode)[pos..]
    {
      byteCode := byteCode[..pos] + ins + byteCode[pos..];
    }

    /** re_emit_goto and its variants: a backward jump to `target`. */
    method PutBack(target: nat, kind: Instr)
      requires kind.IGoto? || kind.ISplit? || kind.ILoop? || kind.ILoopSplit?
      modifies this`byteCode
      ensures byteCode == old(byteCode) + [kind.(rel := target - (|old(byteCode)| + 1))]
    {
      byteCode := byteCode + [kind.(rel := target - (|byteCode| + 1))];
    }

    /** re_parse_disjunction, re_parse_alternative and re_parse_term on a parsed
        tree: emits exactly the code of the node, or reports an error. */
    method Emit(node: Node, ghost n: nat) returns (ok: bool)
      requires WellFormed(node, n) && captureCount <= CAPTURE_COUNT_MAX
      modifies this
      ensures ok <==> Compilable(node, old(captureCount))
      ensures ok ==> captureCount == old(captureCount) + Groups(node)
      ensures ok ==> byteCode == old(byteCode) + Code(node, old(captureCount), 0, true)
      decreases node
    {
      hide Code, NeedsInit, Advances;
      ok := true;
      match node
      case Cat(a, b) =>
        ok := Emit(a, n);
        if ok {
          ok := Emit(b, n);
          CatUnfold(a, b, old(captureCount), 0, true);
        }
      case Alt(a, b) => ok := EmitAlt(a, b, n);
      case Group(b) => ok := EmitGroup(b, n);
      case Look(neg, b) => ok := EmitLook(neg, b, n);
      case Quant(b, min, max, greedy) =>
        var start, g := |byteCode|, captureCount;
        ok := Emit(b, n);
        if ok {
          EmitQuantifier(b, min, max, greedy, start, g);
        }
      case _ => ok := EmitLeaf(node, n);
    }

    method EmitLeaf(node: Node, ghost n: nat) returns (ok: bool)
      requires WellFormed(node, n) && IsLeaf(node) && captureCount <= CAPTURE_COUNT_MAX
      modifies this`byteCode
      ensures ok <==> Compilable(node, captureCount)
      ensures ok ==> byteCode == old(byteCode) + Code(node, captureCount, 0, true)
    {
      hide QuantCode, AltCode, GroupCode, LookCode, Body, ShapeOf, LoopRegs, LoopCheck, Preset;
      ok := true;
      match node
      case Empty =>
      case Char(c) => Put(IChar(c));
      case Dot => Put(IDot);
      case Any => Put(IAny);
      case Assert(kind) => Put(IAssert(kind));
      case BackRef(k) => Put(IBackRef(k));
      case Class(points) =>
        if |points| / 2 >= RANGE_COUNT_MAX {
          ok := false;
        } else {
          Put(RangeInstr(points));
        }
    }

    /** `a|b`: a split is inserted in front of `a` once its length is known, and
        the jump over `b` is patched once `b` is there. */
    method EmitAlt(a: Node, b: Node, ghost n: nat) returns (ok: bool)
      requires WellFormed(Alt(a, b), n) && captureCount <= CAPTURE_COUNT_MAX
      modifies this
      ensures ok <==> Compilable(Alt(a, b), old(captureCount))
      ensures ok ==> captureCount == old(captureCount) + Groups(Alt(a, b))
      ensures ok ==> byteCode == old(byteCode) + Code(Alt(a, b), old(captureCount), 0, true)
      decreases Alt(a, b), 0
    {
      hide Code;
      ghost var pre, g := byteCode, captureCount;
      ghost var ca, cb := Code(a, g, 0, true), Code(b, g + Groups(a), 0, true);
      var start := |byteCode|;
      ok := Emit(a, n);
      if !ok { return; }
      InsertAt(pre, ca, [ISplit(true, |ca| + 1)]);
      var len := |byteCode| - start;
      Insert(start, [ISplit(true, len + 1)]);
      var pos := |byteCode|;
      Put(IGoto(0));
      ok := Emit(b, n);
      if !ok { return; }
      ghost var first := pre + ([ISplit(true, len + 1)] + ca);
      assert byteCode == first + [IGoto(0)] + cb && |first| == pos;
      byteCode := byteCode[pos := IGoto(|byteCode| - (pos + 1))];
      assert byteCode == first + [IGoto(|cb|)] + cb;
      AltUnfold(a, b, g, 0, true);
      Regroup(pre, [ISplit(true, len + 1)] + ca, [IGoto(|cb|)], cb);
    }

    method EmitGroup(b: Node, ghost n: nat) returns (ok: bool)
      requires WellFormed(b, n) && captureCount <= CAPTURE_COUNT_MAX
      modifies this
      ensures ok <==> Compilable(Group(b), old(captureCount))
      ensures ok ==> captureCount == old(captureCount) + Groups(Group(b))
      ensures ok ==> byteCode == old(byteCode) + Code(Group(b), old(captureCount), 0, true)
      decreases Group(b), 0
    {
      hide Code;
      if captureCount >= CAPTURE_COUNT_MAX {
        return false;
      }
      var captureIndex := captureCount;
      captureCount := captureCount + 1;
      Put(ISaveStart(captureIndex));
      ok := Emit(b, n);
      if !ok { return; }
      Put(ISaveEnd(captureIndex));
      AroundUnfold(b, false, captureIndex, 0, true);
      assert byteCode == old(byteCode) + GroupCode(captureIndex, Code(b, captureIndex + 1, 0, true));
    }

    method EmitLook(neg: bool, b: Node, ghost n: nat) returns (ok: bool)
      requires WellFormed(b, n) && captureCount <= CAPTURE_COUNT_MAX
      modifies this
      ensures ok <==> Compilable(Look(neg, b), old(captureCount))
      ensures ok ==> captureCount == old(captureCount) + Groups(b)
      ensures ok ==> byteCode == old(byteCode) + Code(Look(neg, b), old(captureCount), 0, true)
      decreases Look(neg, b), 0
    {
      hide Code;
      ghost var pre, g := byteCode, captureCount;
      ghost var cb := Code(b, g, 0, true);
      var pos := |byteCode|;
      Put(ILook(neg, 0));
      ok := Emit(b, n);
      if !ok { return; }
      Put(ILookMatch(neg));
      assert byteCode == pre + [ILook(neg, 0)] + cb + [ILookMatch(neg)];
      byteCode := byteCode[pos := ILook(neg, |byteCode| - (pos + 1))];
      assert byteCode == pre + [ILook(neg, |cb| + 1)] + cb + [ILookMatch(neg)];
      AroundUnfold(b, neg, g, 0, true);
      assert byteCode == pre + LookCode(neg, cb);
    }

    /** The quantifier part of re_parse_term: wraps the atom that stands at the
        end of the buffer. */
    method EmitQuantifier(ghost b: Node, min: nat, max: nat, greedy: bool, start: nat, g: nat)
      requires min <= max <= INT32_MAX && start <= |byteCode| && captureCount == g + Groups(b)
      requires byteCode[start..] == Code(b, g, 0, true)
      modifies this`byteCode
      ensures byteCode == old(byteCode)[..start] + Code(Quant(b, min, max, greedy), g, 0, true)
    {
      hide Code, NeedsInit, Advances, Body, Preset, QuantCode;
      ghost var pre := byteCode[..start];
      var atom := byteCode[start..];
      assert byteCode == pre + atom && atom == Scanned(b, g);
      var addZeroAdvanceCheck, needCaptureInit := ScanAtom(atom);
      assert addZeroAdvanceCheck == Checked(b, g) && needCaptureInit == Initialized(b, g);
      ghost var shape := ShapeOf(b, g, min, max);
      ghost var body := Body(b, g, LoopRegs(b, g, shape), true);
      BodyIs(b, g, LoopRegs(b, g, shape));
      PresetIs(b, g, min);
      var atomStart, len := EmitResets(b, min, needCaptureInit, start, g, pre, atom);
      QuantUnfold(b, min, max, greedy, g, 0, true);
      WrapAtom(shape, min, max, greedy, addZeroAdvanceCheck, atomStart, len, pre, Preset(b, g, min), body);
    }

    /** Captures of the atom are reset on every pass, or once before the loop
        when a pass sets them all but may not happen. */
    method EmitResets(ghost b: Node, min: nat, needCaptureInit: bool, start: nat, g: nat, ghost pre: seq<Instr>,
            ghost atom: seq<Instr>)
      returns (atomStart: nat, len: nat)
      requires captureCount == g + Groups(b) && start == |pre| && byteCode == pre + atom
      modifies this`byteCode
      ensures var preset := if min == 0 && !needCaptureInit then Reset(b, g) else [];
              var body := (if needCaptureInit then Reset(b, g) else []) + atom;
              byteCode == (pre + preset) + body && atomStart == |pre + preset| && len == |body|
    {
      ghost var body := (if needCaptureInit then Reset(b, g) else []) + atom;
      if needCaptureInit && g != captureCount {
        InsertAt(pre, atom, Reset(b, g));
        Insert(start, [ISaveReset(g, captureCount - 1)]);
      } else {
        assert body == atom;
      }
      len, atomStart := |byteCode| - start, start;
      if min == 0 && !needCaptureInit && g != captureCount {
        InsertAt(pre, body, Reset(b, g));
        Insert(start, [ISaveReset(g, captureCount - 1)]);
        atomStart := start + 1;
        assert pre + (Reset(b, g) + body) == (pre + Reset(b, g)) + body;
      } else {
        assert pre + [] == pre;
      }
    }

    /** The six shapes a quantified block can take. */
    method WrapAtom(ghost shape: Shape, min: nat, max: nat, greedy: bool, check: bool, atomStart: nat, len: nat,
                    ghost pre: seq<Instr>, ghost preset: seq<Instr>, ghost body: seq<Instr>)
      requires min <= max <= INT32_MAX && atomStart == |pre + preset| && len == |body|
      requires byteCode == (pre + preset) + body
      requires shape == if min == 0 then (if max == 0 then Never else if max == 1
               || max == INT32_MAX then Optional(max == INT32_MAX) else OptionalCounted)
                        else if min == 1 && max == INT32_MAX && !check then Plus else Counted(min == max)
      requires min > 0 ==> preset == []
      modifies this`byteCode
      ensures var chk := check && (shape.Optional? || shape.OptionalCounted? || (shape.Counted? && !shape.simple));
              byteCode == pre + QuantCode(shape, chk, preset, body, min, max, greedy, 0, 0)
    {
      hide OptionalCode, CountedCode;
      SuffixCode(byteCode, pre + preset, body, atomStart);
      if min == 0 {
        if max == 0 {
          byteCode := byteCode[..atomStart];
        } else if max == 1 || max == INT32_MAX {
          WrapOptional(max == INT32_MAX, greedy, check, atomStart, len, pre + preset, body);
          assert (pre + preset) + OptionalCode(body, check, max == INT32_MAX, greedy, 0)
            == pre + (preset + OptionalCode(body, check, max == INT32_MAX, greedy, 0));
        } else {
          ghost var split := ISplit(greedy, len + One(check) + 2);
          Insert(atomStart, [ISplit(greedy, 1 + One(check) + len + 1)]);
          assert byteCode == (pre + preset + [split]) + body;
          WrapCounted(false, greedy, check, max, max, atomStart + 1, pre + preset + [split], body);
          ghost var c := CountedCode(body, check, false, greedy, 0, 0, max, max);
          assert (pre + preset + [split]) + c == pre + (preset + ([split] + c));
        }
      } else if min == 1 && max == INT32_MAX && !check {
        PutBack(atomStart, ISplit(!greedy, 0));
        assert byteCode == pre + (body + [ISplit(!greedy, -(|body| + 1))]);
      } else {
        WrapCounted(min == max, greedy, check && min != max, max, max - min, atomStart, pre, body);
      }
    }

    /** `?` and `*`: the split jumps over everything, `*` jumps back to it. */
    method WrapOptional(star: bool, greedy: bool, check: bool, atomStart: nat, len: nat, ghost pre: seq<Instr>,
            ghost body: seq<Instr>)
      requires atomStart == |pre| && len == |body| && byteCode == pre + body
      modifies this`byteCode
      ensures byteCode == pre + OptionalCode(body, check, star, greedy, 0)
    {
      SuffixCode(byteCode, pre, body, atomStart);
      ghost var split := [ISplit(greedy, |body| + 2 * One(check) + One(star))];
      Insert(atomStart, [ISplit(greedy, len + One(star) + 2 * One(check))] + (if check then [ISetCharPos(0)] else []));
      if check {
        Put(ICheckAdvance(0));
      }
      assert byteCode == pre + (split + CharPos(check, 0) + body + CheckPos(check, 0));
      if star {
        PutBack(atomStart, IGoto(0));
        assert byteCode == pre + (split + CharPos(check, 0) + body + CheckPos(check, 0)
          + [IGoto(-(|body| + 2 * One(check) + 2))]);
      }
    }

    /** A counter, an optional position register, and the loop instruction that
        jumps back behind the counter. */
    method WrapCounted(simple: bool, greedy: bool, check: bool, count: nat, limit: nat, atomStart: nat,
            ghost pre: seq<Instr>, ghost body: seq<Instr>)
      requires atomStart == |pre| && byteCode == pre + body
      modifies this`byteCode
      ensures byteCode == pre + CountedCode(body, check, simple, greedy, 0, 0, count, limit)
    {
      SuffixCode(byteCode, pre, body, atomStart);
      Insert(atomStart, [ISetI32(0, count)] + (if check then [ISetCharPos(0)] else []));
      ghost var head := [ISetI32(0, count)] + CharPos(check, 0) + body;
      assert byteCode == pre + head;
      PutBack(atomStart + 1, if simple then ILoop(0, 0) else ILoopSplit(check, !greedy, 0, limit, 0));
      ghost var back := if simple then ILoop(0, -(|body| + One(check) + 1))
          else ILoopSplit(check, !greedy, 0, limit, -(|body| + One(check) + 1));
      assert byteCode == pre + (head + [back]);
    }
  }

  lemma {:induction false} PresetIs(b: Node, g: nat, min: nat)
    ensures Preset(b, g, min) == if min == 0 && !Initialized(b, g) then Reset(b, g) else []
  {
  }

  lemma {:induction false} BodyIs(b: Node, g: nat, d: nat)
    ensures Body(b, g, d, true) == (if Initialized(b, g) then Reset(b, g) else []) + Code(b, g, 0, true)
  {
    hide Code, Initialized;
    RawSame(b, g, d);
  }
}
