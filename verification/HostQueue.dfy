/** The bounded queue of host requests: a 256-slot ring that refines a FIFO. */
module HostQueue {
  import opened Basics

  const CAP: nat := 256
  const MAX_OP_LEN: nat := 64

  /** A request; payload is the malloc'd buffer it owns, None once taken. */
  datatype Request = Request(id: nat, op: string, payload: Option<nat>, len: nat)

  /** The operation name, bounded. */
  function Bounded(op: string): (r: string)
    ensures r <= op && |r| == if |op| < 63 then |op| else 63
  {
    if |op| >= 64 then op[..63] else op
  }

  // ----- the FIFO it refines -----

  /** Requests waiting, the next id, and what became of the payloads: accepted in
      order, handed to a taker, freed. */
  datatype Fifo = Fifo(items: seq<Request>, nextId: nat, accepted: seq<nat>, handed: seq<nat>, freed: seq<nat>)

  function Empty(): Fifo { Fifo([], 1, [], [], []) }

  function PushId(f: Fifo): nat { if |f.items| >= 256 then 0 else f.nextId }

  function Push(f: Fifo, op: string, payload: nat, len: nat): Fifo {
    if |f.items| >= 256 then f.(freed := f.freed + [payload])
    else f.(items := f.items + [Request(f.nextId, Bounded(op), Some(payload), len)], nextId := f.nextId + 1,
            accepted := f.accepted + [payload])
  }

  function Take(f: Fifo): Fifo {
    if f.items == [] then f
    else f.(items := f.items[1..], handed := f.handed + Owned(f.items[..1]))
  }

  /** The payloads that requests own, in order. */
  function Owned(rs: seq<Request>): seq<nat> {
    if rs == [] then [] else (if rs[0].payload.Some? then [rs[0].payload.value] else []) + Owned(rs[1..])
  }

  lemma {:induction false} OwnedConcat(a: seq<Request>, b: seq<Request>)
    ensures Owned(a + b) == Owned(a) + Owned(b)
  {
    if a == [] {
      assert a + b == b;
    } else {
      var t := a[1..] + b;
      assert (a + b)[1..] == t && (a + b)[0] == a[0];
      OwnedConcat(a[1..], b);
      var x := if a[0].payload.Some? then [a[0].payload.value] else [];
      assert Owned(a) == x + Owned(a[1..]) && Owned(a + b) == x + Owned(t);
    }
  }

  datatype Event = PushEvent(op: string, payload: nat, len: nat) | TakeEvent

  function Step(f: Fifo, e: Event): Fifo {
    match e
    case PushEvent(op, payload, len) => Push(f, op, payload, len)
    case TakeEvent => Take(f)
  }

  function Run(f: Fifo, es: seq<Event>): Fifo {
    if es == [] then f else Step(Run(f, es[..|es| - 1]), es[|es| - 1])
  }

  /** The payloads offered by the pushes of a run. */
  function Offered(es: seq<Event>): seq<nat> {
    if es == [] then []
    else
      var e := es[|es| - 1];
      Offered(es[..|es| - 1]) + OfferedBy(e)
  }

  /** Bounded, ids strictly increasing below nextId, and first in, first out: what
      was accepted is what was handed out followed by what still waits. */
  ghost predicate FifoOk(f: Fifo) {
    && |f.items| <= 256 && f.nextId >= 1
    && (forall i, j :: 0 <= i < j < |f.items| ==> f.items[i].id < f.items[j].id)
    && (forall i :: 0 <= i < |f.items| ==>
          1 <= f.items[i].id < f.nextId && f.items[i].payload.Some? && |f.items[i].op| < 64)
    && f.accepted == f.handed + Owned(f.items)
  }

  lemma {:induction false} StepKeeps(f: Fifo, e: Event)
    requires FifoOk(f)
    ensures FifoOk(Step(f, e)) && Step(f, e).nextId >= f.nextId
  {
    if e.PushEvent? {
      PushKeeps(f, e.op, e.payload, e.len);
    } else {
      TakeKeeps(f);
    }
    hide FifoOk, Owned;
  }

  lemma {:induction false} PushKeeps(f: Fifo, op: string, payload: nat, len: nat)
    requires FifoOk(f)
    ensures FifoOk(Push(f, op, payload, len))
  {
    if |f.items| < CAP {
      var r := Request(f.nextId, Bounded(op), Some(payload), len);
      OwnedConcat(f.items, [r]);
      assert [r][1..] == [];
      assert Owned([r]) == [payload];
      hide Owned;
      assert f.accepted + [payload] == f.handed + (Owned(f.items) + [payload]);
    }
  }

  lemma {:induction false} TakeKeeps(f: Fifo)
    requires FifoOk(f)
    ensures FifoOk(Take(f))
  {
    hide Owned;
    if f.items != [] {
      OwnedConcat(f.items[..1], f.items[1..]);
      assert f.items == f.items[..1] + f.items[1..];
      assert f.handed + (Owned(f.items[..1]) + Owned(f.items[1..]))
        == f.handed + Owned(f.items[..1]) + Owned(f.items[1..]);
    }
  }

  /** Each payload is in one place. */
  ghost predicate Conserved(f: Fifo, offered: seq<nat>) {
    && multiset(offered) == multiset(f.accepted) + multiset(f.freed)
    && multiset(f.accepted) == multiset(f.handed) + multiset(Owned(f.items))
  }

  function OfferedBy(e: Event): seq<nat> { if e.PushEvent? then [e.payload] else [] }

  lemma {:induction false} StepConserves(f: Fifo, e: Event, offered: seq<nat>)
    requires FifoOk(f) && Conserved(f, offered)
    ensures Conserved(Step(f, e), offered + OfferedBy(e))
  {
    StepKeeps(f, e);
    AcceptedSplit(f, e);
    hide Owned, FifoOk;
    if e.PushEvent? {
      Joined(offered, [e.payload]);
      Regroup(multiset(f.accepted), multiset(f.freed), multiset([e.payload]));
      if |f.items| >= CAP {
        Joined(f.freed, [e.payload]);
      } else {
        Joined(f.accepted, [e.payload]);
      }
    } else {
      assert offered + [] == offered;
    }
  }

  lemma {:induction false} AcceptedSplit(f: Fifo, e: Event)
    requires FifoOk(Step(f, e))
    ensures multiset(Step(f, e).accepted) == multiset(Step(f, e).handed) + multiset(Owned(Step(f, e).items))
  {
    hide Step;
    var g := Step(f, e);
    assert g.accepted == g.handed + Owned(g.items);
    hide Owned, FifoOk;
    Joined(g.handed, Owned(g.items));
  }

  lemma {:induction false} Regroup(a: multiset<nat>, b: multiset<nat>, c: multiset<nat>)
    ensures a + b + c == a + (b + c) == a + c + b
  {}

  lemma {:induction false} Joined(a: seq<nat>, b: seq<nat>)
    ensures multiset(a + b) == multiset(a) + multiset(b)
  {}

  /** Every payload offered in a run is waiting, was handed out or was freed, each
      once: distinct payloads are never both handed out and freed. */
  lemma {:induction false} RunConserves(es: seq<Event>)
    ensures FifoOk(Run(Empty(), es)) && Conserved(Run(Empty(), es), Offered(es))
  {
    if es != [] {
      var n := |es| - 1;
      RunConserves(es[..n]);
      StepKeeps(Run(Empty(), es[..n]), es[n]);
      StepConserves(Run(Empty(), es[..n]), es[n], Offered(es[..n]));
    }
  }

  /** With distinct payloads, none is handed out twice, freed twice, or both. */
  lemma {:induction false} HandedOrFreed(es: seq<Event>, p: nat)
    requires multiset(Offered(es))[p] <= 1
    ensures var f := Run(Empty(), es);
            multiset(f.handed)[p] + multiset(f.freed)[p] + multiset(Owned(f.items))[p] <= 1
  {
    hide Owned, Run, Offered;
    RunConserves(es);
  }

  /** The end of a ring's life: what still waits is freed. */
  function Destroyed(f: Fifo): Fifo { f.(items := [], freed := f.freed + Owned(f.items)) }

  /** Over a whole life, ended by destroying the ring, every payload offered was
      handed out once or freed once, and no other payload was. */
  lemma {:induction false} LifeConserves(es: seq<Event>)
    ensures var f := Destroyed(Run(Empty(), es));
            && f.items == [] && multiset(Offered(es)) == multiset(f.handed) + multiset(f.freed)
            && forall p :: multiset(Offered(es))[p] == 1 ==> multiset(f.handed)[p] + multiset(f.freed)[p] == 1
  {
    hide Owned, Run, Offered;
    RunConserves(es);
    var f := Run(Empty(), es);
    Joined(f.freed, Owned(f.items));
    Regroup(multiset(f.handed), multiset(Owned(f.items)), multiset(f.freed));
  }

  /** Ids handed out by successive successful pushes strictly increase. */
  lemma {:induction false} IdsIncrease(es: seq<Event>, e: Event, more: seq<Event>)
    requires e.PushEvent? && PushId(Run(Empty(), es)) != 0 && PushId(Run(Empty(), es + [e] + more)) != 0
    ensures PushId(Run(Empty(), es)) < PushId(Run(Empty(), es + [e] + more))
  {
    var one := es + [e];
    assert one[..|es|] == es;
    RunConserves(es);
    NextIdGrows(one, more);
  }

  lemma {:induction false} NextIdGrows(es: seq<Event>, more: seq<Event>)
    ensures Run(Empty(), es).nextId <= Run(Empty(), es + more).nextId
    decreases |more|
  {
    hide Run, Step, FifoOk;
    if more == [] {
      assert es + more == es;
    } else {
      var n := |more| - 1;
      NextIdGrows(es, more[..n]);
      RunSnoc(es, more);
      RunConserves(es + more[..n]);
      StepKeeps(Run(Empty(), es + more[..n]), more[n]);
    }
  }

  lemma {:induction false} RunSnoc(es: seq<Event>, more: seq<Event>)
    requires more != []
    ensures var n := |more| - 1; Run(Empty(), es + more) == Step(Run(Empty(), es + more[..n]), more[n])
  {
    hide Step;
    var n := |more| - 1;
    assert (es + more)[..|es| + n] == es + more[..n];
  }

  // ----- the ring -----

  /** The slots in order from the head. */
  ghost function Rotated(s: seq<Request>, head: nat): (r: seq<Request>)
    requires head <= |s|
    ensures |r| == |s|
  {
    s[head..] + s[..head]
  }

  lemma {:induction false} RotatedUpdate(s: seq<Request>, head: nat, k: nat, x: Request)
    requires |s| == CAP && head < CAP && k < CAP
    ensures Rotated(s[(head + k) % CAP := x], head) == Rotated(s, head)[k := x]
    ensures Rotated(s, head)[k] == s[(head + k) % CAP]
  {
    if head + k < CAP {
      assert (head + k) % CAP == head + k;
    } else {
      assert (head + k) % CAP == head + k - CAP;
    }
  }

  lemma {:induction false} RotatedNext(s: seq<Request>, head: nat)
    requires |s| == CAP && head < CAP
    ensures Rotated(s, (head + 1) % CAP) == Rotated(s, head)[1..] + [Rotated(s, head)[0]]
  {
    if head + 1 < CAP {
      assert (head + 1) % CAP == head + 1;
    } else {
      assert (head + 1) % CAP == 0;
    }
  }

  ghost predicate NoPayload(rs: seq<Request>) {
    forall i :: 0 <= i < |rs| ==> rs[i].payload == None
  }

  lemma {:induction false} OwnedNone(rs: seq<Request>)
    requires NoPayload(rs)
    ensures Owned(rs) == []
  {
    if rs != [] {
      assert NoPayload(rs[1..]);
      OwnedNone(rs[1..]);
    }
  }

  /** The live slots, from the head, are the waiting requests; all others own
      nothing. */
  ghost predicate Holds(s: seq<Request>, head: nat, count: nat, items: seq<Request>) {
    && |s| == CAP && head < CAP && count <= CAP
    && Rotated(s, head)[..count] == items && NoPayload(Rotated(s, head)[count..])
  }

  lemma {:induction false} HoldsPush(s: seq<Request>, head: nat, count: nat, items: seq<Request>, r: Request)
    requires Holds(s, head, count, items) && count < CAP
    ensures Holds(s[(head + count) % CAP := r], head, count + 1, items + [r])
  {
    var was := Rotated(s, head);
    RotatedUpdate(s, head, count, r);
    var now := was[count := r];
    assert now[..count + 1] == was[..count] + [r];
    assert now[count + 1..] == was[count..][1..];
  }

  lemma {:induction false} HoldsTake(s: seq<Request>, head: nat, count: nat, items: seq<Request>, gone: Request)
    requires Holds(s, head, count, items) && count > 0 && gone.payload == None
    ensures items != [] && s[head] == items[0]
    ensures Holds(s[head := gone], (head + 1) % CAP, count - 1, items[1..])
  {
    var was := Rotated(s, head);
    RotatedUpdate(s, head, 0, gone);
    RotatedNext(s[head := gone], head);
    assert (head + 0) % CAP == head;
    assert was[..count][0] == was[0];
    var now := was[1..] + [gone];
    assert was[0 := gone][1..] == was[1..];
    assert now[..count - 1] == was[..count][1..];
    assert now[count - 1..] == was[count..] + [gone];
  }

  lemma {:induction false} TailMoves(head: nat, count: nat)
    requires head < CAP && count <= CAP
    ensures ((head + count) % CAP + 1) % CAP == (head + count + 1) % CAP
    ensures count > 0 ==> ((head + 1) % CAP + (count - 1)) % CAP == (head + count) % CAP
  {}

  /** free() on every slot; a null payload is a no-op. */
  method FreeAll(slots: array<Request>) returns (ghost freed: seq<nat>)
    modifies slots
    ensures NoPayload(slots[..]) && freed == Owned(old(slots[..]))
  {
    ghost var s := slots[..];
    hide Owned;
    freed := Owned([]);
    var i := 0;
    assert s[..0] == [];
    while i < slots.Length
      invariant 0 <= i <= slots.Length
      invariant forall k :: i <= k < slots.Length ==> slots[k] == s[k]
      invariant forall k :: 0 <= k < i ==> slots[k].payload == None
      invariant freed == Owned(s[..i])
    {
      OwnedConcat(s[..i], [s[i]]);
      assert s[..i + 1] == s[..i] + [s[i]];
      freed := freed + Owned([s[i]]);
      slots[i] := slots[i].(payload := None);
      i := i + 1;
    }
    assert s[..i] == s;
  }

  /** The copy of the operation name in req_set. */
  method CopyName(op: string) returns (name: string)
    ensures name == Bounded(op)
  {
    var opLen := |op|;
    if opLen >= MAX_OP_LEN {
      opLen := MAX_OP_LEN - 1;
    }
    name := op[..opLen];
  }

  class Ring {
    const slots: array<Request>
    var head: nat
    var tail: nat
    var count: nat
    var nextId: nat
    ghost var model: Fifo

    ghost predicate Valid()
      reads this, slots
    {
      && FifoOk(model) && nextId == model.nextId && tail == (head + count) % CAP
      && slots.Length == CAP && head < CAP && count <= CAP && |model.items| == count
      && Holds(slots[..], head, count, model.items)
    }

    constructor ()
      ensures Valid() && model == Empty() && fresh(slots)
    {
      slots := new Request[CAP](_ => Request(0, "", None, 0));
      head, tail, count, nextId := 0, 0, 0, 1;
      model := Empty();
      new;
      hide Owned;
      assert Owned([]) == [] by { OwnedNone([]); }
    }

    /** Takes ownership of the payload; 0 means full, and the payload is freed. */
    method PushRequest(op: string, payload: nat, len: nat) returns (id: nat)
      requires Valid()
      modifies this, slots
      ensures Valid() && model == Push(old(model), op, payload, len) && id == PushId(old(model))
    {
      hide Owned, Holds, FifoOk, Bounded;
      StepKeeps(model, PushEvent(op, payload, len));
      if count >= CAP {
        model := Push(model, op, payload, len);
        return 0;
      }
      id := nextId;
      var name := CopyName(op);
      var r := Request(id, name, Some(payload), len);
      HoldsPush(slots[..], head, count, model.items, r);
      TailMoves(head, count);
      ghost var s := slots[..];
      slots[tail] := r;
      assert slots[..] == s[tail := r];
      nextId := nextId + 1;
      tail := (tail + 1) % CAP;
      count := count + 1;
      model := Push(model, op, payload, len);
    }

    /** Hands the oldest request and its payload to the caller. */
    method TakeRequest() returns (r: Option<Request>)
      requires Valid()
      modifies this, slots
      ensures Valid() && model == Take(old(model))
      ensures r == if old(model).items == [] then None else Some(old(model).items[0])
    {
      hide Owned, Holds, FifoOk, Bounded, Take, Step;
      StepKeeps(model, TakeEvent);
      BoundedAlready(model);
      TakeFacts(model);
      if count == 0 {
        return None;
      }
      var req := slots[head];
      var gone := req.(payload := None, len := 0, id := 0);
      HoldsTake(slots[..], head, count, model.items, gone);
      TailMoves(head, count);
      var name := CopyName(req.op);
      r := Some(req.(op := name));
      ghost var s := slots[..];
      slots[head] := gone;
      assert slots[..] == s[head := gone];
      head := (head + 1) % CAP;
      count := count - 1;
      model := Take(model);
    }

    /** Frees every payload still owned by a slot. */
    method Destroy() returns (ghost freed: seq<nat>)
      requires Valid()
      modifies this, slots
      ensures multiset(freed) == multiset(Owned(old(model).items))
      ensures model == Destroyed(old(model)).(freed := old(model).freed + freed)
      ensures multiset(model.freed) == multiset(Destroyed(old(model)).freed)
      ensures NoPayload(slots[..]) && count == 0 && head == 0 && tail == 0 && nextId == 0
    {
      hide Owned, Holds, FifoOk;
      RingOwns(slots[..], head, count, model.items);
      freed := FreeAll(slots);
      head, tail, count, nextId := 0, 0, 0, 0;
      Joined(model.freed, freed);
      Joined(model.freed, Owned(model.items));
      model := Destroyed(model).(freed := model.freed + freed);
    }
  }

  lemma {:induction false} TakeFacts(f: Fifo)
    ensures Step(f, TakeEvent) == Take(f) && Take(f).nextId == f.nextId
    ensures if f.items == [] then Take(f) == f else Take(f).items == f.items[1..]
  {}

  lemma {:induction false} BoundedAlready(f: Fifo)
    requires FifoOk(f)
    ensures f.items != [] ==> Bounded(f.items[0].op) == f.items[0].op
  {}

  /** All payloads in the ring are those of the waiting requests. */
  lemma {:induction false} RingOwns(s: seq<Request>, head: nat, count: nat, items: seq<Request>)
    requires Holds(s, head, count, items)
    ensures multiset(Owned(s)) == multiset(Owned(items))
  {
    hide Owned;
    var r := Rotated(s, head);
    OwnedConcat(s[head..], s[..head]);
    OwnedConcat(s[..head], s[head..]);
    assert s == s[..head] + s[head..] && r == r[..count] + r[count..];
    OwnedConcat(r[..count], r[count..]);
    OwnedNone(r[count..]);
    assert Owned(items) + [] == Owned(items);
  }
}
