/** Register allocation: one linear pass treats loop registers as a stack. */
module RegexRegisters {
  import opened Basics
  import opened RegexSyntax
  import opened RegexCode
  import opened RegexFrame
  import opened RegexAdvance

  const REGISTER_COUNT_MAX: nat := 255

  /** Registers an instruction opens or closes. */
  function Opens(i: Instr): nat { if i.ISetI32? || i.ISetCharPos? then 1 else 0 }

  function Closes(i: Instr): nat {
    match i
    case ICheckAdvance(_) => 1
    case ILoop(_, _) => 1
    case ILoopSplit(check, _, _, _, _) => if check then 2 else 1
    case _ => 0
  }

  /** The operand patched in: the register opened, or the lowest one closed. */
  function Patch(i: Instr, r: nat): Instr {
    match i
    case ISetI32(_, v) => ISetI32(r, v)
    case ISetCharPos(_) => ISetCharPos(r)
    case ICheckAdvance(_) => ICheckAdvance(r)
    case ILoop(_, rel) => ILoop(r, rel)
    case ILoopSplit(c, nf, _, l, rel) => ILoopSplit(c, nf, r, l, rel)
    case _ => i
  }

  /** The pass over a program from stack size d: patched code, final and largest
      size; None if some instruction closes more than is open. */
  datatype Allocation = Unbalanced | Allocated(code: seq<Instr>, depth: nat, max: nat)

  function Allocate(code: seq<Instr>, d: nat): Allocation
    decreases |code|
  {
    if code == [] then Allocated([], d, d)
    else if Closes(code[0]) > d then Unbalanced
    else
      var d' := d + Opens(code[0]) - Closes(code[0]);
      match Allocate(code[1..], d')
      case Unbalanced => Unbalanced
      case Allocated(rest, depth, max) => Allocated([Patch(code[0], d - Closes(code[0]))] + rest, depth, Max(d, max))
  }

  function Then(a: Allocation, b: Allocation): Allocation {
    if a.Allocated? && b.Allocated? then Allocated(a.code + b.code, b.depth, Max(a.max, b.max)) else Unbalanced
  }

  function Before(i: Instr, d: nat, r: Allocation): Allocation
    requires Closes(i) <= d
  {
    match r
    case Unbalanced => Unbalanced
    case Allocated(rest, depth, max) => Allocated([Patch(i, d - Closes(i))] + rest, depth, Max(d, max))
  }

  lemma {:induction false} AllocateCons(code: seq<Instr>, d: nat)
    requires code != []
    ensures Allocate(code, d) ==
            if Closes(code[0]) > d then Unbalanced else Before(code[0], d,
              Allocate(code[1..], d + Opens(code[0]) - Closes(code[0])))
  {
    hide Patch, Opens, Closes;
  }

  lemma {:induction false} BeforeThen(i: Instr, d: nat, a: Allocation, b: Allocation)
    requires Closes(i) <= d
    ensures Before(i, d, Then(a, b)) == Then(Before(i, d, a), b)
  {
    hide Patch, Opens, Closes;
    if a.Allocated? && b.Allocated? {
      var p := Patch(i, d - Closes(i));
      assert [p] + (a.code + b.code) == ([p] + a.code) + b.code;
    }
  }

  lemma {:induction false} ThenNothing(b: Allocation, d: nat)
    requires b.Allocated? ==> d <= b.max
    ensures Then(Allocated([], d, d), b) == b
  {
    if b.Allocated? {
      assert [] + b.code == b.code;
    }
  }

  lemma {:induction false} AllocateConcat(a: seq<Instr>, b: seq<Instr>, d: nat)
    requires Allocate(a, d).Allocated?
    ensures Allocate(a + b, d) == Then(Allocate(a, d), Allocate(b, Allocate(a, d).depth))
    decreases |a|
  {
    hide Allocate, Patch, Opens, Closes;
    if a == [] {
      assert a + b == b;
      AllocateNothing(d);
      AllocateBounds(b, d);
      ThenNothing(Allocate(b, d), d);
    } else {
      assert (a + b)[0] == a[0] && (a + b)[1..] == a[1..] + b;
      AllocateCons(a, d);
      AllocateCons(a + b, d);
      var d' := d + Opens(a[0]) - Closes(a[0]);
      AllocateConcat(a[1..], b, d');
      BeforeThen(a[0], d, Allocate(a[1..], d'), Allocate(b, Allocate(a[1..], d').depth));
    }
  }

  lemma {:induction false} AllocateBounds(code: seq<Instr>, d: nat)
    ensures Allocate(code, d).Allocated? ==> |Allocate(code, d).code| == |code| && d <= Allocate(code, d).max
    decreases |code|
  {
    if code != [] && Closes(code[0]) <= d {
      AllocateBounds(code[1..], d + Opens(code[0]) - Closes(code[0]));
    }
  }

  lemma {:induction false} AllocateOne(i: Instr, d: nat)
    ensures Closes(i) <= d ==>
      Allocate([i], d) == Allocated([Patch(i, d - Closes(i))], d + Opens(i) - Closes(i),
        Max(d, d + Opens(i) - Closes(i)))
  {
    assert [i][1..] == [];
    assert Closes(i) <= d ==> [Patch(i, d - Closes(i))] + [] == [Patch(i, d - Closes(i))];
  }

  /** Code whose registers are balanced: patched to `done`, deepest use r. */
  ghost predicate Settles(raw: seq<Instr>, d: nat, done: seq<Instr>, r: nat) {
    Allocate(raw, d) == Allocated(done, d, d + r)
  }

  lemma {:induction false} SettlesPlain(i: Instr, d: nat)
    requires Opens(i) == 0 && Closes(i) == 0
    ensures Settles([i], d, [i], 0)
  {
    AllocateOne(i, d);
  }

  lemma {:induction false} SettlesConcat(a: seq<Instr>, b: seq<Instr>, d: nat, da: seq<Instr>, db: seq<Instr>, ra: nat,
          rb: nat)
    requires Settles(a, d, da, ra) && Settles(b, d, db, rb)
    ensures Settles(a + b, d, da + db, Max(ra, rb))
  {
    AllocateConcat(a, b, d);
  }

  /** A block between an instruction that opens registers and one that closes
      as many. */
  lemma {:induction false} SettlesLoop(open: seq<Instr>, raw: seq<Instr>, close: Instr, d: nat, k: nat,
          entered: seq<Instr>, done: seq<Instr>, r: nat)
    requires Allocate(open, d) == Allocated(entered, d + k, d + k) && Settles(raw, d + k, done, r)
    requires Opens(close) == 0 && Closes(close) == k
    ensures Settles(open + raw + [close], d, entered + done + [Patch(close, d)], k + r)
  {
    hide Allocate;
    AllocateConcat(open, raw, d);
    AllocateOne(close, d + k);
    AllocateConcat(open + raw, [close], d);
  }

  lemma {:induction false} AllocateNothing(d: nat)
    ensures Allocate([], d) == Allocated([], d, d)
  {
  }

  /** What a counted loop opens. */
  lemma {:induction false} AllocateOpen(chk: bool, count: nat, d: nat)
    ensures Allocate(CharPos(chk, 0), d) == Allocated(CharPos(chk, d), d + One(chk), d + One(chk))
    ensures Allocate([ISetI32(0, count)] + CharPos(chk, 0), d) ==
            Allocated([ISetI32(d, count)] + CharPos(chk, d + 1), d + 1 + One(chk), d + 1 + One(chk))
  {
    hide Allocate;
    AllocateNothing(d);
    AllocateNothing(d + 1);
    AllocateOne(ISetCharPos(0), d);
    AllocateOne(ISetCharPos(0), d + 1);
    AllocateOne(ISetI32(0, count), d);
    AllocateConcat([ISetI32(0, count)], CharPos(chk, 0), d);
  }

  lemma {:induction false} SettlesCounted(raw: seq<Instr>, done: seq<Instr>, chk: bool, simple: bool, greedy: bool,
          d: nat, count: nat, limit: nat, r: nat)
    requires Settles(raw, d + 1 + One(chk), done, r) && |raw| == |done| && (simple ==> !chk)
    ensures Settles(CountedCode(raw, chk, simple, greedy, 0, 0, count, limit), d,
                    CountedCode(done, chk, simple, greedy, d, d + 1, count, limit), 1 + One(chk) + r)
  {
    hide Allocate;
    var close := if simple then ILoop(0, -(|raw| + One(chk) + 1))
      else ILoopSplit(chk, !greedy, 0, limit, -(|raw| + One(chk) + 1));
    AllocateOpen(chk, count, d);
    SettlesLoop([ISetI32(0, count)] + CharPos(chk, 0), raw, close, d, 1 + One(chk),
      [ISetI32(d, count)] + CharPos(chk, d + 1), done, r);
  }

  lemma {:induction false} SettlesChecked(raw: seq<Instr>, done: seq<Instr>, chk: bool, d: nat, r: nat)
    requires Settles(raw, d + One(chk), done, r)
    ensures Settles(CharPos(chk, 0) + raw + CheckPos(chk, 0), d, CharPos(chk, d) + done + CheckPos(chk, d),
            One(chk) + r)
  {
    hide Allocate;
    if chk {
      AllocateOpen(chk, 0, d);
      SettlesLoop(CharPos(chk, 0), raw, ICheckAdvance(0), d, 1, CharPos(chk, d), done, r);
    } else {
      assert [] + raw + [] == raw && [] + done + [] == done;
    }
  }

  lemma {:induction false} OptionalParts(body: seq<Instr>, chk: bool, star: bool, greedy: bool, r: nat)
    ensures OptionalCode(body, chk, star, greedy, r) ==
            [ISplit(greedy, |body| + 2 * One(chk) + One(star))] + (CharPos(chk, r) + body + CheckPos(chk, r))
            + (if star then [IGoto(-(|body| + 2 * One(chk) + 2))] else [])
  {
    var split := [ISplit(greedy, |body| + 2 * One(chk) + One(star))];
    assert split + CharPos(chk, r) + body + CheckPos(chk, r) == split + (CharPos(chk, r) + body + CheckPos(chk, r));
  }

  lemma {:induction false} SettlesOptional(raw: seq<Instr>, done: seq<Instr>, chk: bool, star: bool, greedy: bool,
          d: nat, r: nat)
    requires Settles(raw, d + One(chk), done, r) && |raw| == |done|
    ensures Settles(OptionalCode(raw, chk, star, greedy, 0), d, OptionalCode(done, chk, star, greedy, d), One(chk) + r)
  {
    hide Settles, OptionalCode;
    var split := ISplit(greedy, |raw| + 2 * One(chk) + One(star));
    var back := if star then [IGoto(-(|raw| + 2 * One(chk) + 2))] else [];
    var mid, mid' := CharPos(chk, 0) + raw + CheckPos(chk, 0), CharPos(chk, d) + done + CheckPos(chk, d);
    SettlesChecked(raw, done, chk, d, r);
    OptionalParts(raw, chk, star, greedy, 0);
    OptionalParts(done, chk, star, greedy, d);
    SettlesPlain(split, d);
    SettlesConcat([split], mid, d, [split], mid', 0, One(chk) + r);
    if star {
      SettlesPlain(back[0], d);
    } else {
      SettlesEmpty(d);
    }
    SettlesConcat([split] + mid, back, d, [split] + mid', back, One(chk) + r, 0);
  }

  lemma {:induction false} SettlesEmpty(d: nat)
    ensures Settles([], d, [], 0)
  {
  }

  lemma {:induction false} SettlesReset(b: Node, g: nat, on: bool, d: nat)
    ensures var s := if on then Reset(b, g) else []; Settles(s, d, s, 0)
  {
    SettlesEmpty(d);
    if on && Groups(b) > 0 {
      SettlesPlain(ISaveReset(g, g + Groups(b) - 1), d);
    }
  }

  lemma {:induction false} SettlesBody(b: Node, g: nat, d: nat, r: nat)
    requires Settles(Code(b, g, 0, true), d, Code(b, g, d, false), r)
    ensures Settles(Body(b, g, d, true), d, Body(b, g, d, false), r) && |Body(b, g, d, true)| == |Body(b, g, d, false)|
  {
    hide Code, Initialized, Settles;
    RawIsErased(b, g, d, d);
    RawSame(b, g, d);
    SettlesReset(b, g, Initialized(b, g), d);
    var pre := if Initialized(b, g) then Reset(b, g) else [];
    SettlesConcat(pre, Code(b, g, 0, true), d, pre, Code(b, g, d, false), 0, r);
  }

  lemma {:induction false} SettlesQuant(shape: Shape, chk: bool, pre: seq<Instr>, raw: seq<Instr>, done: seq<Instr>,
          min: nat, max: nat, greedy: bool, d: nat, r: nat)
    requires Settles(pre, d, pre, 0) && |raw| == |done|
    requires !shape.Never? ==> Settles(raw, d + One(shape.OptionalCounted? || shape.Counted?) + One(chk), done, r)
    requires (shape.Plus? ==> !chk) && (shape.Counted? && shape.simple ==> !chk)
    ensures Settles(QuantCode(shape, chk, pre, raw, min, max, greedy, 0, 0), d,
            QuantCode(shape, chk, pre, done, min, max, greedy, d, d + 1),
                    if shape.Never? then 0 else One(shape.OptionalCounted? || shape.Counted?) + One(chk) + r)
  {
    hide Settles, OptionalCode, CountedCode;
    match shape
    case Never =>
    case Optional(star) =>
      SettlesOptional(raw, done, chk, star, greedy, d, r);
      SettlesConcat(pre, OptionalCode(raw, chk, star, greedy, 0), d, pre, OptionalCode(done, chk, star, greedy, d), 0,
        One(chk) + r);
    case OptionalCounted =>
      var split := ISplit(greedy, |raw| + One(chk) + 2);
      var a, b := CountedCode(raw, chk, false, greedy, 0, 0, max, max),
        CountedCode(done, chk, false, greedy, d, d + 1, max, max);
      SettlesCounted(raw, done, chk, false, greedy, d, max, max, r);
      SettlesPlain(split, d);
      SettlesConcat([split], a, d, [split], b, 0, 1 + One(chk) + r);
      SettlesConcat(pre, [split] + a, d, pre, [split] + b, 0, 1 + One(chk) + r);
    case Plus =>
      var split := ISplit(!greedy, -(|raw| + 1));
      SettlesPlain(split, d);
      SettlesConcat(raw, [split], d, done, [split], r, 0);
    case Counted(simple) =>
      SettlesCounted(raw, done, chk, simple, greedy, d, max, if min <= max then max - min else 0, r);
  }

  lemma {:induction false} SettlesAlt(a: seq<Instr>, b: seq<Instr>, da: seq<Instr>, db: seq<Instr>, d: nat, ra: nat,
          rb: nat)
    requires Settles(a, d, da, ra) && Settles(b, d, db, rb) && |a| == |da| && |b| == |db|
    ensures Settles(AltCode(a, b), d, AltCode(da, db), Max(ra, rb))
  {
    hide Settles;
    var split, jump := ISplit(true, |a| + 1), IGoto(|b|);
    SettlesPlain(split, d);
    SettlesPlain(jump, d);
    SettlesConcat([split], a, d, [split], da, 0, ra);
    SettlesConcat([split] + a, [jump], d, [split] + da, [jump], ra, 0);
    SettlesConcat([split] + a + [jump], b, d, [split] + da + [jump], db, ra, rb);
  }

  lemma {:induction false} SettlesAround(open: Instr, raw: seq<Instr>, close: Instr, done: seq<Instr>, d: nat, r: nat)
    requires Settles(raw, d, done, r) && Opens(open) == Closes(open) == Opens(close) == Closes(close) == 0
    ensures Settles([open] + raw + [close], d, [open] + done + [close], r)
  {
    hide Settles;
    SettlesPlain(open, d);
    SettlesPlain(close, d);
    SettlesConcat([open], raw, d, [open], done, 0, r);
    SettlesConcat([open] + raw, [close], d, [open] + done, [close], r, 0);
  }

  lemma {:induction false} SameSize(node: Node, g: nat, d: nat)
    ensures |Code(node, g, 0, true)| == |Code(node, g, d, false)|
  {
    hide Code;
    RawIsErased(node, g, 0, d);
  }

  /** For every pattern: the pass never closes what is not open and ends where
      it began; every instruction gets the register of its own loop, above all
      registers of enclosing loops; and the largest size is the nesting. */
  lemma {:induction false} AllocationExact(node: Node, g: nat, d: nat)
    ensures Settles(Code(node, g, 0, true), d, Code(node, g, d, false), Registers(node, g))
    decreases node
  {
    hide Code, Settles, LoopRegs, ShapeOf, Registers, Groups;
    match node
    case Cat(a, b) =>
      AllocationExact(a, g, d);
      AllocationExact(b, g + Groups(a), d);
      AllocationCat(a, b, g, d);
    case Alt(a, b) =>
      AllocationExact(a, g, d);
      AllocationExact(b, g + Groups(a), d);
      AllocationAlt(a, b, g, d);
    case Group(b) =>
      AllocationExact(b, g + 1, d);
      AllocationGroup(b, g, d);
    case Look(neg, b) =>
      AllocationExact(b, g, d);
      AllocationLook(neg, b, g, d);
    case Quant(b, min, max, greedy) =>
      var k := LoopRegs(b, g, ShapeOf(b, g, min, max));
      AllocationExact(b, g, d + k);
      AllocationQuant(b, min, max, greedy, g, d, k);
    case _ => AllocationLeaf(node, g, d);
  }

  lemma {:induction false} AllocationCat(a: Node, b: Node, g: nat, d: nat)
    requires Settles(Code(a, g, 0, true), d, Code(a, g, d, false), Registers(a, g))
    requires var h := g + Groups(a);
             Settles(Code(b, h, 0, true), d, Code(b, h, d, false), Registers(b, h))
    ensures Settles(Code(Cat(a, b), g, 0, true), d, Code(Cat(a, b), g, d, false), Registers(Cat(a, b), g))
  {
    hide Code, Settles;
    var h := g + Groups(a);
    CatUnfold(a, b, g, 0, true);
    CatUnfold(a, b, g, d, false);
    SettlesConcat(Code(a, g, 0, true), Code(b, h, 0, true), d, Code(a, g, d, false), Code(b, h, d, false),
      Registers(a, g), Registers(b, h));
  }

  lemma {:induction false} AllocationAlt(a: Node, b: Node, g: nat, d: nat)
    requires Settles(Code(a, g, 0, true), d, Code(a, g, d, false), Registers(a, g))
    requires var h := g + Groups(a);
             Settles(Code(b, h, 0, true), d, Code(b, h, d, false), Registers(b, h))
    ensures Settles(Code(Alt(a, b), g, 0, true), d, Code(Alt(a, b), g, d, false), Registers(Alt(a, b), g))
  {
    hide Code, Settles, AltCode;
    var h := g + Groups(a);
    AltUnfold(a, b, g, 0, true);
    AltUnfold(a, b, g, d, false);
    SameSize(a, g, d);
    SameSize(b, h, d);
    SettlesAlt(Code(a, g, 0, true), Code(b, h, 0, true), Code(a, g, d, false), Code(b, h, d, false), d,
      Registers(a, g), Registers(b, h));
  }

  lemma {:induction false} AllocationGroup(b: Node, g: nat, d: nat)
    requires Settles(Code(b, g + 1, 0, true), d, Code(b, g + 1, d, false), Registers(b, g + 1))
    ensures Settles(Code(Group(b), g, 0, true), d, Code(Group(b), g, d, false), Registers(Group(b), g))
  {
    hide Code, Settles;
    AroundUnfold(b, false, g, 0, true);
    AroundUnfold(b, false, g, d, false);
    SettlesAround(ISaveStart(g), Code(b, g + 1, 0, true), ISaveEnd(g), Code(b, g + 1, d, false), d,
      Registers(b, g + 1));
  }

  lemma {:induction false} AllocationLook(neg: bool, b: Node, g: nat, d: nat)
    requires Settles(Code(b, g, 0, true), d, Code(b, g, d, false), Registers(b, g))
    ensures Settles(Code(Look(neg, b), g, 0, true), d, Code(Look(neg, b), g, d, false), Registers(Look(neg, b), g))
  {
    hide Code, Settles;
    AroundUnfold(b, neg, g, 0, true);
    AroundUnfold(b, neg, g, d, false);
    SameSize(b, g, d);
    SettlesAround(ILook(neg, |Code(b, g, 0, true)| + 1), Code(b, g, 0, true), ILookMatch(neg), Code(b, g, d, false), d,
      Registers(b, g));
  }

  lemma {:induction false} AllocationLeaf(node: Node, g: nat, d: nat)
    requires IsLeaf(node)
    ensures Settles(Code(node, g, 0, true), d, Code(node, g, d, false), Registers(node, g))
  {
    hide Settles, QuantCode, AltCode, GroupCode, LookCode, Body, ShapeOf, LoopRegs, LoopCheck, Preset;
    var code := Code(node, g, 0, true);
    if code == [] {
      SettlesEmpty(d);
    } else {
      assert code == [code[0]];
      SettlesPlain(code[0], d);
    }
  }

  lemma {:induction false} AllocationQuant(b: Node, min: nat, max: nat, greedy: bool, g: nat, d: nat, k: nat)
    requires k == LoopRegs(b, g, ShapeOf(b, g, min, max))
    requires Settles(Code(b, g, 0, true), d + k, Code(b, g, d + k, false), Registers(b, g))
    ensures Settles(Code(Quant(b, min, max, greedy), g, 0, true), d, Code(Quant(b, min, max, greedy), g, d, false),
            Registers(Quant(b, min, max, greedy), g))
  {
    hide Code, Settles, Body, QuantCode, Checked, Initialized;
    var shape := ShapeOf(b, g, min, max);
    QuantUnfold(b, min, max, greedy, g, 0, true);
    QuantUnfold(b, min, max, greedy, g, d, false);
    SettlesBody(b, g, d + k, Registers(b, g));
    BodyRawSame(b, g, k, d + k);
    SettlesReset(b, g, min == 0 && !Initialized(b, g), d);
    SettlesQuant(shape, LoopCheck(b, g, shape), Preset(b, g, min), Body(b, g, k, true), Body(b, g, d + k, false), min,
      max, greedy, d, Registers(b, g));
  }

  lemma {:induction false} BodyRawSame(b: Node, g: nat, d: nat, d': nat)
    ensures Body(b, g, d, true) == Body(b, g, d', true)
  {
    hide Code;
    RawSame(b, g, d);
    RawSame(b, g, d');
  }

  /** One instruction of the pass. */
  lemma {:induction false} AllocateStep(raw: seq<Instr>, pos: nat, d: nat)
    requires pos < |raw| && Allocate(raw[pos..], d).Allocated?
    ensures Closes(raw[pos]) <= d
    ensures var now, rest := Allocate(raw[pos..], d), Allocate(raw[pos + 1..], d + Opens(raw[pos]) - Closes(raw[pos]));
            && rest.Allocated? && d + Opens(raw[pos]) - Closes(raw[pos]) <= rest.max && now.max == Max(d, rest.max)
            && |now.code| == |raw| - pos && now.code[0] == Patch(raw[pos], d - Closes(raw[pos]))
            && now.code[1..] == rest.code
  {
    hide Allocate, Patch, Opens, Closes;
    assert raw[pos..][0] == raw[pos] && raw[pos..][1..] == raw[pos + 1..];
    AllocateCons(raw[pos..], d);
    AllocateBounds(raw[pos..], d);
    AllocateBounds(raw[pos + 1..], d + Opens(raw[pos]) - Closes(raw[pos]));
  }

  /** The switch of compute_register_count: the operand of one instruction and
      the new stack size; not ok when the stack would grow too large. */
  method Slot(i: Instr, stackSize: nat) returns (ok: bool, r: nat, size: nat)
    requires Closes(i) <= stackSize <= REGISTER_COUNT_MAX
    ensures ok <==> stackSize + Opens(i) <= REGISTER_COUNT_MAX
    ensures r == stackSize - Closes(i) && size == stackSize + Opens(i) - Closes(i)
    ensures !ok ==> size > REGISTER_COUNT_MAX
  {
    ok, r, size := true, stackSize, stackSize;
    if i.ISetI32? || i.ISetCharPos? {
      size := stackSize + 1;
      ok := size <= REGISTER_COUNT_MAX;
    } else if i.ICheckAdvance? || i.ILoop? || (i.ILoopSplit? && !i.check) {
      r, size := stackSize - 1, stackSize - 1;
    } else if i.ILoopSplit? {
      r, size := stackSize - 2, stackSize - 2;
    }
  }

  /** compute_register_count: patches the operands in place; -1 when more than
      REGISTER_COUNT_MAX registers are open at once. */
  method ComputeRegisterCount(bc: array<Instr>) returns (count: int)
    requires Allocate(bc[..], 0).Allocated?
    modifies bc
    ensures count >= 0 <==> Allocate(old(bc[..]), 0).max <= REGISTER_COUNT_MAX
    ensures count >= 0 ==> count == Allocate(old(bc[..]), 0).max && bc[..] == Allocate(old(bc[..]), 0).code
  {
    hide Allocate, Patch, Opens, Closes;
    ghost var raw := bc[..];
    ghost var whole := Allocate(raw, 0);
    var stackSize: nat, stackSizeMax: nat, pos := 0, 0, 0;
    assert raw[0..] == raw && whole.code[0..] == whole.code;
    AllocateBounds(raw, 0);
    AllocateNothing(0);
    while pos < bc.Length
      invariant 0 <= pos <= bc.Length == |raw|
      invariant forall j :: pos <= j < bc.Length ==> bc[j] == raw[j]
      invariant Allocate(raw[pos..], stackSize).Allocated?
      invariant |whole.code| == |raw| && whole.code[pos..] == Allocate(raw[pos..], stackSize).code
      invariant forall j :: 0 <= j < pos ==> bc[j] == whole.code[j]
      invariant whole.max == Max(stackSizeMax, Allocate(raw[pos..], stackSize).max)
      invariant stackSize <= stackSizeMax <= REGISTER_COUNT_MAX
    {
      var i := bc[pos];
      ghost var d := stackSize;
      AllocateStep(raw, pos, d);
      var ok, r, size := Slot(i, stackSize);
      if !ok {
        return -1;
      }
      stackSize, stackSizeMax := size, Max(stackSizeMax, size);
      bc[pos] := Patch(i, r);
      assert whole.code[pos..][0] == whole.code[pos] && whole.code[pos..][1..] == whole.code[pos + 1..];
      pos := pos + 1;
    }
    assert raw[pos..] == [] && bc[..] == whole.code;
    AllocateNothing(stackSize);
    count := stackSizeMax;
  }
}
