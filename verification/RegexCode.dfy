/** The bytecode: instructions with relative targets, the linear scan that
    decides about loop checks, and the code emitted for every pattern. */
module RegexCode {
  import opened Basics
  import opened RegexSyntax

  /** Register operands are filled in by the register allocator; `rel` is
      relative to the instruction that follows. */
  datatype Instr =
    | IMatch
    | IChar(c: nat)
    | IDot
    | IAny
    | IRange16(table: seq<nat>)
    | IRange32(table: seq<nat>)
    | IAssert(kind: Assertion)
    | IBackRef(k: nat)
    | ISaveStart(k: nat)
    | ISaveEnd(k: nat)
    | ISaveReset(lo: nat, hi: nat)
    | ISplit(nextFirst: bool, rel: int)
    | IGoto(rel: int)
    | ILook(neg: bool, rel: int)
    | ILookMatch(neg: bool)
    | ISetI32(reg: nat, value: nat)
    | ISetCharPos(reg: nat)
    | ICheckAdvance(reg: nat)
    | ILoop(reg: nat, rel: int)
    | ILoopSplit(check: bool, nextFirst: bool, reg: nat, limit: nat, rel: int)

  // ----- character tables -----

  const INFINITY16: nat := 0xffff
  const CHAR_MAX: nat := 0x10_ffff
  const RANGE_COUNT_MAX: nat := 65535

  function HighOf(point: nat, inf: nat): nat
    requires point > 0
  {
    if point == UINT32_MAX then inf else point - 1
  }

  /** The table of inclusive (low, high) pairs of a set. */
  function PairTable(points: seq<nat>, inf: nat): (t: seq<nat>)
    requires IsBoundaryList(points)
    ensures |t| == |points|
    ensures forall i: nat :: i < |points| / 2 ==>
              Lo(t, i) == Lo(points, i) && Hi(points, i) > 0 && Hi(t, i) == HighOf(Hi(points, i), inf)
  {
    seq(|points|, i requires 0 <= i < |points| =>
      if i % 2 == 0 then points[i] else assert points[0] < points[i]; HighOf(points[i], inf))
  }

  /** re_emit_range: 16-bit pairs when they suffice, with 0xffff as infinity;
      the empty set is a character no subject contains. */
  function RangeInstr(points: seq<nat>): Instr
    requires IsBoundaryList(points)
  {
    if points == [] then IChar(UINT32_MAX)
    else
      var last := points[|points| - 1];
      var high := if last == UINT32_MAX then points[|points| - 2] else last;
      if high <= INFINITY16 then IRange16(PairTable(points, INFINITY16))
      else IRange32(PairTable(points, UINT32_MAX - 1))
  }

  ghost predicate InPairs(table: seq<nat>, c: nat) {
    exists i: nat :: i < |table| / 2 && Lo(table, i) <= c <= Hi(table, i)
  }

  /** In 16-bit tables a last high value of 0xffff has no upper end. */
  ghost predicate InPairs16(table: seq<nat>, c: nat) {
    || InPairs(table, c)
    || (|table| >= 2 && c >= INFINITY16 && Hi(table, |table| / 2 - 1) == INFINITY16 && c >= Lo(table, 0))
  }

  /** What the executor's binary search relies on. */
  ghost predicate SortedPairs(table: seq<nat>) {
    && |table| >= 2 && |table| % 2 == 0
    && (forall i: nat :: i < |table| / 2 ==> Lo(table, i) <= Hi(table, i))
    && (forall i: nat, j: nat :: i < j < |table| / 2 ==> Hi(table, i) < Lo(table, j))
  }

  lemma {:induction false} PairTableSorted(points: seq<nat>, inf: nat)
    requires IsBoundaryList(points) && points != []
    requires Hi(points, |points| / 2 - 1) == UINT32_MAX ==> Lo(points, |points| / 2 - 1) <= inf
    ensures SortedPairs(PairTable(points, inf))
    ensures forall i: nat :: i < |points| / 2 - 1 ==> Hi(points, i) < UINT32_MAX
  {
    var t := PairTable(points, inf);
    var last := |points| / 2 - 1;
    forall i: nat | i < |points| / 2
      ensures Lo(t, i) <= Hi(t, i) && (i < last ==> Hi(points, i) < UINT32_MAX)
    {
      assert points[2 * i] < points[2 * i + 1];
      if i < last {
        assert points[2 * i + 1] < points[|points| - 1];
      }
    }
    forall i: nat, j: nat | i < j < |points| / 2
      ensures Hi(t, i) < Lo(t, j)
    {
      assert points[2 * i + 1] < points[2 * j];
    }
  }

  /** The instruction's meaning as a test of one character. */
  ghost predicate Hits(i: Instr, c: nat) {
    match i
    case IChar(d) => c == d
    case IDot => !IsLineTerminator(c)
    case IAny => true
    case IRange16(t) => InPairs16(t, c)
    case IRange32(t) => InPairs(t, c)
    case _ => false
  }

  lemma {:induction false} Pairs32Exact(points: seq<nat>, c: nat)
    requires IsBoundaryList(points) && points != [] && c <= CHAR_MAX
    ensures InPairs(PairTable(points, UINT32_MAX - 1), c) <==> InSet(points, c)
  {
    var t := PairTable(points, UINT32_MAX - 1);
    forall i: nat | i < |points| / 2
      ensures Lo(t, i) <= c <= Hi(t, i) <==> Lo(points, i) <= c < Hi(points, i)
    {
    }
  }

  lemma {:induction false} Pairs16Exact(points: seq<nat>, c: nat)
    requires IsBoundaryList(points) && points != [] && c <= CHAR_MAX
    requires Hi(points, |points| / 2 - 1) == UINT32_MAX || Hi(points, |points| / 2 - 1) <= INFINITY16
    requires Hi(points, |points| / 2 - 1) == UINT32_MAX ==> Lo(points, |points| / 2 - 1) <= INFINITY16
    ensures InPairs16(PairTable(points, INFINITY16), c) <==> InSet(points, c)
  {
    var t := PairTable(points, INFINITY16);
    var last := |points| / 2 - 1;
    PairTableSorted(points, INFINITY16);
    forall i: nat | i < last
      ensures Lo(t, i) <= c <= Hi(t, i) <==> Lo(points, i) <= c < Hi(points, i)
    {
    }
    assert Lo(t, last) <= c <= Hi(t, last) ==> Lo(points, last) <= c < Hi(points, last);
    if Lo(points, last) <= c < Hi(points, last) {
      assert Lo(t, 0) <= Lo(t, last);
      assert Lo(t, last) <= c <= Hi(t, last) || (c >= INFINITY16 && Hi(t, last) == INFINITY16);
    }
  }

  /** For every canonical set and every character, the emitted table accepts
      exactly the members, and the executor's search is licensed. */
  lemma {:induction false} RangeInstrExact(points: seq<nat>, c: nat)
    requires IsBoundaryList(points) && c <= CHAR_MAX
    ensures Hits(RangeInstr(points), c) <==> InSet(points, c)
    ensures RangeInstr(points).IChar? || (IsRange(RangeInstr(points)) && SortedPairs(RangeInstr(points).table))
  {
    if points != [] {
      var last := |points| / 2 - 1;
      assert Lo(points, last) == points[|points| - 2] && Hi(points, last) == points[|points| - 1];
      var r := RangeInstr(points);
      if r.IRange16? {
        PairTableSorted(points, INFINITY16);
        Pairs16Exact(points, c);
      } else {
        assert points[|points| - 2] < points[|points| - 1];
        PairTableSorted(points, UINT32_MAX - 1);
        Pairs32Exact(points, c);
      }
    }
  }

  predicate IsRange(i: Instr) { i.IRange16? || i.IRange32? }

  // ----- the scan of an atom's code -----

  predicate IsAdvancing(i: Instr) {
    i.IChar? || i.IDot? || i.IAny? || IsRange(i)
  }

  /** Instructions after which the scan gives up. */
  predicate IsOpaque(i: Instr) {
    || i.IMatch? || i.ISplit? || i.IGoto? || i.ILook? || i.ILookMatch?
    || i.ICheckAdvance? || i.ILoop? || i.ILoopSplit?
  }

  /** Some instruction before the first opaque one consumes a character. */
  ghost predicate Advances(code: seq<Instr>) {
    exists i :: 0 <= i < |code| && IsAdvancing(code[i]) && (forall j :: 0 <= j < i ==> !IsOpaque(code[j]))
  }

  /** The atom's captures may be read or left unset by one pass of its code. */
  ghost predicate NeedsInit(code: seq<Instr>) {
    exists i :: 0 <= i < |code| && (IsOpaque(code[i]) || code[i].IBackRef?)
  }

  /** re_need_check_adv_and_capture_init: one pass over the atom's code. */
  method ScanAtom(code: seq<Instr>) returns (needCheckAdv: bool, needCaptureInit: bool)
    ensures needCheckAdv == !Advances(code)
    ensures needCaptureInit == NeedsInit(code)
  {
    needCheckAdv, needCaptureInit := true, false;
    var pos := 0;
    while pos < |code|
      invariant 0 <= pos <= |code|
      invariant forall j :: 0 <= j < pos ==> !IsOpaque(code[j])
      invariant needCaptureInit == exists j :: 0 <= j < pos && code[j].IBackRef?
      invariant needCheckAdv == forall j :: 0 <= j < pos ==> !IsAdvancing(code[j])
    {
      if IsAdvancing(code[pos]) {
        needCheckAdv := false;
      } else if code[pos].IBackRef? {
        needCaptureInit := true;
      } else if IsOpaque(code[pos]) {
        needCaptureInit := true;
        return;
      }
      pos := pos + 1;
    }
  }

  // ----- the emitted code -----

  function Reset(b: Node, g: nat): seq<Instr> {
    if Groups(b) > 0 then [ISaveReset(g, g + Groups(b) - 1)] else []
  }

  /** The atom as it is scanned: registers not yet allocated. */
  ghost function Scanned(b: Node, g: nat): seq<Instr>
    decreases b, 1
  {
    Code(b, g, 0, true)
  }

  ghost predicate Checked(b: Node, g: nat)
    decreases b, 2
  {
    !Advances(Scanned(b, g))
  }

  ghost predicate Initialized(b: Node, g: nat)
    decreases b, 2
  {
    NeedsInit(Scanned(b, g))
  }

  /** The repeated block: captures are reset on every pass unless one pass is
      known to set them all. */
  ghost function Body(b: Node, g: nat, d: nat, raw: bool): seq<Instr>
    decreases b, 3
  {
    (if Initialized(b, g) then Reset(b, g) else []) + Code(b, g, d, raw)
  }

  function One(b: bool): nat { if b then 1 else 0 }

  function CharPos(chk: bool, r: nat): (s: seq<Instr>)
    ensures |s| == One(chk)
  {
    if chk then [ISetCharPos(r)] else []
  }

  function CheckPos(chk: bool, r: nat): (s: seq<Instr>)
    ensures |s| == One(chk)
  {
    if chk then [ICheckAdvance(r)] else []
  }

  /** `?` and `*`. */
  function OptionalCode(body: seq<Instr>, chk: bool, star: bool, greedy: bool, r: nat): seq<Instr> {
    [ISplit(greedy, |body| + 2 * One(chk) + One(star))]
    + CharPos(chk, r) + body + CheckPos(chk, r)
    + (if star then [IGoto(-(|body| + 2 * One(chk) + 2))] else [])
  }

  /** A counted loop of at least one pass: counter in r, position in r + 1. */
  function CountedCode(body: seq<Instr>, chk: bool, simple: bool, greedy: bool, r: nat, r1: nat, count: nat,
          limit: nat): seq<Instr> {
    [ISetI32(r, count)] + CharPos(chk, r1) + body
    + [if simple then ILoop(r, -(|body| + One(chk) + 1))
       else ILoopSplit(chk, !greedy, r, limit, -(|body| + One(chk) + 1))]
  }

  /** Which shape a quantifier compiles to. */
  datatype Shape = Never | Optional(star: bool) | OptionalCounted | Plus | Counted(simple: bool)

  ghost function ShapeOf(b: Node, g: nat, min: nat, max: nat): Shape
    decreases b, 3
  {
    if min == 0 then
      if max == 0 then Never
      else if max == 1 || max == INT32_MAX then Optional(max == INT32_MAX)
      else OptionalCounted
    else if min == 1 && max == INT32_MAX && !Checked(b, g) then Plus
    else Counted(min == max)
  }

  /** Does the shape keep a position register, and how many registers in all? */
  ghost function LoopCheck(b: Node, g: nat, shape: Shape): bool
    decreases b, 3
  {
    match shape
    case Optional(_) => Checked(b, g)
    case OptionalCounted => Checked(b, g)
    case Counted(simple) => Checked(b, g) && !simple
    case _ => false
  }

  ghost function LoopRegs(b: Node, g: nat, shape: Shape): nat
    decreases b, 4
  {
    One(shape.OptionalCounted? || shape.Counted?) + One(LoopCheck(b, g, shape))
  }

  function AltCode(ca: seq<Instr>, cb: seq<Instr>): seq<Instr> {
    [ISplit(true, |ca| + 1)] + ca + [IGoto(|cb|)] + cb
  }

  function GroupCode(g: nat, cb: seq<Instr>): seq<Instr> {
    [ISaveStart(g)] + cb + [ISaveEnd(g)]
  }

  function LookCode(neg: bool, cb: seq<Instr>): seq<Instr> {
    [ILook(neg, |cb| + 1)] + cb + [ILookMatch(neg)]
  }

  /** A quantifier around its compiled body; `pre` resets captures that a
      skipped body would leave set. */
  function QuantCode(shape: Shape, chk: bool, pre: seq<Instr>, body: seq<Instr>, min: nat, max: nat, greedy: bool,
          r: nat, r1: nat): seq<Instr> {
    match shape
    case Never => pre
    case Optional(star) => pre + OptionalCode(body, chk, star, greedy, r)
    case OptionalCounted =>
      pre + ([ISplit(greedy, |body| + One(chk) + 2)] + CountedCode(body, chk, false, greedy, r, r1, max, max))
    case Plus => body + [ISplit(!greedy, -(|body| + 1))]
    case Counted(simple) => CountedCode(body, chk, simple, greedy, r, r1, max, if min <= max then max - min else 0)
  }

  ghost function Preset(b: Node, g: nat, min: nat): seq<Instr>
    decreases b, 3
  {
    if min == 0 && !Initialized(b, g) then Reset(b, g) else []
  }

  /** The code of a node whose first capture is `g`, with loop registers from
      `d` upwards; `raw` is the form before register allocation. */
  ghost function Code(node: Node, g: nat, d: nat, raw: bool): seq<Instr>
    decreases node, 0
  {
    match node
    case Empty => []
    case Char(c) => [IChar(c)]
    case Dot => [IDot]
    case Any => [IAny]
    case Class(points) => if IsBoundaryList(points) then [RangeInstr(points)] else []
    case Assert(kind) => [IAssert(kind)]
    case BackRef(k) => [IBackRef(k)]
    case Cat(a, b) => Code(a, g, d, raw) + Code(b, g + Groups(a), d, raw)
    case Alt(a, b) => AltCode(Code(a, g, d, raw), Code(b, g + Groups(a), d, raw))
    case Group(b) => GroupCode(g, Code(b, g + 1, d, raw))
    case Look(neg, b) => LookCode(neg, Code(b, g, d, raw))
    case Quant(b, min, max, greedy) =>
      var shape := ShapeOf(b, g, min, max);
      var body := Body(b, g, d + LoopRegs(b, g, shape), raw);
      QuantCode(shape, LoopCheck(b, g, shape), Preset(b, g, min), body, min, max, greedy,
                if raw then 0 else d, if raw then 0 else d + 1)
  }

  /** Deepest nesting of loop registers. */
  ghost function Registers(node: Node, g: nat): nat
    decreases node
  {
    match node
    case Cat(a, b) => Max(Registers(a, g), Registers(b, g + Groups(a)))
    case Alt(a, b) => Max(Registers(a, g), Registers(b, g + Groups(a)))
    case Group(b) => Registers(b, g + 1)
    case Look(_, b) => Registers(b, g)
    case Quant(b, min, max, _) =>
      var shape := ShapeOf(b, g, min, max);
      if shape.Never? then 0 else LoopRegs(b, g, shape) + Registers(b, g)
    case _ => 0
  }

  function Max(a: nat, b: nat): nat { if a < b then b else a }
}
