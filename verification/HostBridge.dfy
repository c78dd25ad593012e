/** Host calls and their promises: requests go through the ring, each id's promise
    is settled at most once. */
module HostBridge {
  import opened Basics
  import opened HostQueue

  const MAX_PROMISES: nat := 256

  // ----- what the bridge does, over values -----

  /** The queue, the ids whose promise is open, and the ids settled, in order. */
  datatype Model = Model(fifo: Fifo, open: set<nat>, settled: seq<nat>)

  datatype BridgeEvent = CallEvent(op: string, payload: nat, len: nat) | DrainEvent | ResolveEvent(id: nat)

  function Start(): Model { Model(Empty(), {}, []) }

  /** A call queues a request and opens a promise for its id; when the promise
      table is full the request stays queued without one. */
  function Call(m: Model, op: string, payload: nat, len: nat): Model {
    var id := PushId(m.fifo);
    m.(fifo := Push(m.fifo, op, payload, len),
       open := if id != 0 && |m.open| < 256 then m.open + {id} else m.open)
  }

  function Resolve(m: Model, id: nat): Model {
    if id in m.open then m.(open := m.open - {id}, settled := m.settled + [id]) else m
  }

  function Next(m: Model, e: BridgeEvent): Model {
    match e
    case CallEvent(op, payload, len) => Call(m, op, payload, len)
    case DrainEvent => m.(fifo := Take(m.fifo))
    case ResolveEvent(id) => Resolve(m, id)
  }

  function RunBridge(es: seq<BridgeEvent>): Model {
    if es == [] then Start() else Next(RunBridge(es[..|es| - 1]), es[|es| - 1])
  }

  ghost predicate NoRepeats(s: seq<nat>) {
    forall i, j :: 0 <= i < j < |s| ==> s[i] != s[j]
  }

  ghost predicate ModelOk(m: Model) {
    && FifoOk(m.fifo) && NoRepeats(m.settled) && |m.open| <= 256
    && (forall id :: id in m.open ==> 1 <= id < m.fifo.nextId && id !in m.settled)
    && (forall id :: id in m.settled ==> 1 <= id < m.fifo.nextId)
  }

  lemma {:induction false} NextKeeps(m: Model, e: BridgeEvent)
    requires ModelOk(m)
    ensures ModelOk(Next(m, e))
    ensures m.settled <= Next(m, e).settled
  {
    hide FifoOk, Owned;
    match e
    case CallEvent(op, payload, len) =>
      StepKeeps(m.fifo, PushEvent(op, payload, len));
      FreshId(m.fifo);
    case DrainEvent =>
      StepKeeps(m.fifo, TakeEvent);
    case ResolveEvent(id) =>
  }

  lemma {:induction false} FreshId(f: Fifo)
    requires FifoOk(f)
    ensures PushId(f) != 0 ==> PushId(f) == f.nextId >= 1
  {}

  /** In every run each id is settled at most once, and stays settled. */
  lemma {:induction false} SettledOnce(es: seq<BridgeEvent>)
    ensures ModelOk(RunBridge(es))
    ensures var s := RunBridge(es).settled; forall i, j :: 0 <= i < j < |s| ==> s[i] != s[j]
  {
    if es != [] {
      SettledOnce(es[..|es| - 1]);
      NextKeeps(RunBridge(es[..|es| - 1]), es[|es| - 1]);
    }
  }

  /** Resolving again, or resolving an id that was never given out, changes nothing. */
  lemma {:induction false} ResolveIgnored(es: seq<BridgeEvent>, id: nat)
    requires id in RunBridge(es).settled || id == 0 || id >= RunBridge(es).fifo.nextId
    ensures RunBridge(es + [ResolveEvent(id)]) == RunBridge(es)
  {
    SettledOnce(es);
    assert (es + [ResolveEvent(id)])[..|es|] == es;
  }

  // ----- the promise table -----

  datatype Slot = Slot(id: nat, resolve: nat, reject: nat, inUse: bool)

  ghost function Ids(s: seq<Slot>): set<nat> {
    set k | 0 <= k < |s| && s[k].inUse :: s[k].id
  }

  ghost predicate DistinctIds(s: seq<Slot>) {
    forall i, j :: 0 <= i < j < |s| && s[i].inUse && s[j].inUse ==> s[i].id != s[j].id
  }

  lemma {:induction false} IdsSnoc(s: seq<Slot>, x: Slot)
    ensures Ids(s + [x]) == if x.inUse then Ids(s) + {x.id} else Ids(s)
  {
    var t := s + [x];
    forall id | id in Ids(t) ensures id in (if x.inUse then Ids(s) + {x.id} else Ids(s)) {
      var k :| 0 <= k < |t| && t[k].inUse && t[k].id == id;
      if k < |s| {
        assert s[k] == t[k];
      }
    }
    forall id | id in Ids(s) ensures id in Ids(t) {
      var k :| 0 <= k < |s| && s[k].inUse && s[k].id == id;
      assert t[k] == s[k];
    }
    if x.inUse {
      assert t[|s|] == x;
    }
  }

  lemma {:induction false} NewId(t: seq<Slot>, x: Slot)
    requires DistinctIds(t + [x]) && x.inUse
    ensures x.id !in Ids(t)
  {
    var s := t + [x];
    forall k | 0 <= k < |t| && t[k].inUse ensures t[k].id != x.id {
      assert s[k] == t[k] && s[|t|] == x;
    }
  }

  /** The table is full exactly when as many promises are open as it has slots. */
  lemma {:induction false} IdsCount(s: seq<Slot>)
    requires DistinctIds(s)
    ensures |Ids(s)| <= |s|
    ensures |Ids(s)| == |s| <==> forall k :: 0 <= k < |s| ==> s[k].inUse
  {
    if s == [] {
      assert Ids(s) == {};
    } else {
      var t, x := s[..|s| - 1], s[|s| - 1];
      assert s == t + [x];
      IdsCount(t);
      IdsSnoc(t, x);
      if x.inUse {
        NewId(t, x);
        assert |Ids(t) + {x.id}| == |Ids(t)| + 1;
      }
      assert (forall k :: 0 <= k < |s| ==> s[k].inUse) <==> x.inUse && forall k :: 0 <= k < |t| ==> t[k].inUse;
    }
  }

  lemma {:induction false} IdsInsert(s: seq<Slot>, k: nat, x: Slot)
    requires k < |s| && !s[k].inUse && x.inUse && DistinctIds(s) && x.id !in Ids(s)
    ensures Ids(s[k := x]) == Ids(s) + {x.id} && DistinctIds(s[k := x])
  {
    var t := s[k := x];
    forall id | id in Ids(t) ensures id in Ids(s) + {x.id} {
      var i :| 0 <= i < |t| && t[i].inUse && t[i].id == id;
      if i != k {
        assert s[i] == t[i];
      }
    }
    forall id | id in Ids(s) ensures id in Ids(t) {
      var i :| 0 <= i < |s| && s[i].inUse && s[i].id == id;
      assert t[i] == s[i];
    }
    assert t[k] == x;
    forall i, j | 0 <= i < j < |t| && t[i].inUse && t[j].inUse ensures t[i].id != t[j].id {
      if i == k {
        assert s[j].id in Ids(s);
      } else if j == k {
        assert s[i].id in Ids(s);
      }
    }
  }

  lemma {:induction false} IdsRemove(s: seq<Slot>, k: nat, x: Slot)
    requires k < |s| && s[k].inUse && !x.inUse && DistinctIds(s)
    ensures Ids(s[k := x]) == Ids(s) - {s[k].id} && DistinctIds(s[k := x])
  {
    var t := s[k := x];
    forall id | id in Ids(t) ensures id in Ids(s) - {s[k].id} {
      var i :| 0 <= i < |t| && t[i].inUse && t[i].id == id;
      assert i != k && s[i] == t[i];
      assert i < k ==> s[i].id != s[k].id;
    }
    forall id | id in Ids(s) - {s[k].id} ensures id in Ids(t) {
      var i :| 0 <= i < |s| && s[i].inUse && s[i].id == id;
      assert i != k && t[i] == s[i];
    }
  }

  /** Every open promise has the functions of its call. */
  ghost predicate Remembered(s: seq<Slot>, callbacks: map<nat, (nat, nat)>) {
    forall k :: 0 <= k < |s| && s[k].inUse ==>
      s[k].id in callbacks && callbacks[s[k].id] == (s[k].resolve, s[k].reject)
  }

  lemma {:induction false} RememberedInsert(s: seq<Slot>, k: nat, x: Slot, callbacks: map<nat, (nat, nat)>)
    requires k < |s| && x.inUse && x.id !in Ids(s) && Remembered(s, callbacks)
    ensures Remembered(s[k := x], callbacks[x.id := (x.resolve, x.reject)])
  {
    var t := s[k := x];
    forall i | 0 <= i < |t| && t[i].inUse && i != k ensures t[i].id != x.id {
      assert t[i].id in Ids(s);
    }
  }

  datatype Outcome = Overload | TableFull(id: nat) | Pending(id: nat)

  class Bridge {
    const ring: Ring
    const promises: array<Slot>
    ghost var model: Model
    /** the functions given with each call: resolve and reject */
    ghost var callbacks: map<nat, (nat, nat)>

    ghost predicate Valid()
      reads this, ring, ring.slots, promises
    {
      && ring.Valid() && promises.Length == MAX_PROMISES
      && ModelOk(model) && model.fifo == ring.model
      && DistinctIds(promises[..]) && Ids(promises[..]) == model.open
      && Remembered(promises[..], callbacks)
    }

    constructor ()
      ensures Valid() && model == Start() && fresh(ring) && fresh(ring.slots) && fresh(promises)
    {
      ring := new Ring();
      promises := new Slot[MAX_PROMISES](_ => Slot(0, 0, 0, false));
      model := Start();
      callbacks := map[];
      new;
      hide FifoOk, Owned;
      StartOk();
      assert Ids(promises[..]) == {};
    }

    /** The first free slot, if there is one. */
    method PromiseInsert(resolve: nat, reject: nat, id: nat, ghost given: map<nat, (nat, nat)>) returns (ok: bool)
      requires promises.Length == MAX_PROMISES && DistinctIds(promises[..]) && id !in Ids(promises[..])
      requires Remembered(promises[..], given)
      modifies promises
      ensures Remembered(promises[..], if ok then given[id := (resolve, reject)] else given)
      ensures ok <==> |old(Ids(promises[..]))| < MAX_PROMISES
      ensures DistinctIds(promises[..])
      ensures Ids(promises[..]) == if ok then old(Ids(promises[..])) + {id} else old(Ids(promises[..]))
    {
      ghost var s := promises[..];
      IdsCount(s);
      hide Ids, DistinctIds, Remembered;
      var i := 0;
      while i < MAX_PROMISES
        invariant 0 <= i <= MAX_PROMISES && promises[..] == s
        invariant forall k :: 0 <= k < i ==> s[k].inUse
      {
        assert promises[i] == s[i];
        if !promises[i].inUse {
          IdsInsert(s, i, Slot(id, resolve, reject, true));
          RememberedInsert(s, i, Slot(id, resolve, reject, true), given);
          promises[i] := Slot(id, resolve, reject, true);
          assert promises[..] == s[i := Slot(id, resolve, reject, true)];
          return true;
        }
        i := i + 1;
      }
      ok := false;
    }

    /** The slot in use for this id, or -1. */
    method PromiseFind(id: nat) returns (k: int)
      ensures k < 0 <==> id !in Ids(promises[..])
      ensures k >= 0 ==> k < promises.Length && promises[k].inUse && promises[k].id == id
    {
      var i := 0;
      while i < promises.Length
        invariant 0 <= i <= promises.Length
        invariant forall j :: 0 <= j < i ==> !(promises[j].inUse && promises[j].id == id)
      {
        if promises[i].inUse && promises[i].id == id {
          assert promises[..][i].id in Ids(promises[..]);
          return i;
        }
        i := i + 1;
      }
      k := -1;
    }

    /** host.later and host.rpc, from the queued request on. */
    method HostCall(op: string, payload: nat, len: nat, resolve: nat, reject: nat) returns (out: Outcome)
      requires Valid()
      modifies this, ring, ring.slots, promises
      ensures Valid() && model == Call(old(model), op, payload, len)
      ensures out == (if PushId(old(model).fifo) == 0 then Overload
                      else if |old(model).open| < 256 then Pending(PushId(old(model).fifo))
                      else TableFull(PushId(old(model).fifo)))
      ensures callbacks == if out.Pending? then old(callbacks)[out.id := (resolve, reject)] else old(callbacks)
    {
      hide FifoOk, Owned, Ids, DistinctIds, Remembered;
      NextKeeps(model, CallEvent(op, payload, len));
      FreshId(model.fifo);
      ghost var s := promises[..];
      ghost var m := model;
      var id := ring.PushRequest(op, payload, len);
      assert promises[..] == s;
      model := Call(m, op, payload, len);
      if id == 0 {
        return Overload;
      }
      var ok := PromiseInsert(resolve, reject, id, callbacks);
      if ok {
        callbacks := callbacks[id := (resolve, reject)];
      }
      out := if ok then Pending(id) else TableFull(id);
    }

    /** Settles the promise of a request; an unknown id is ignored. */
    method ResolvePromise(id: nat, badJson: bool) returns (called: Option<nat>)
      requires Valid()
      modifies this, promises
      ensures Valid() && model == Resolve(old(model), id)
      ensures called.Some? <==> id in old(model).open
      ensures called.Some? ==>
        id in callbacks && called.value == if badJson then callbacks[id].1 else callbacks[id].0
      ensures callbacks == old(callbacks)
    {
      NextKeeps(model, ResolveEvent(id));
      hide FifoOk, Owned, Ids, DistinctIds;
      ghost var s := promises[..];
      var k := PromiseFind(id);
      assert promises[..] == s;
      if k < 0 {
        return None;
      }
      called := Some(if badJson then promises[k].reject else promises[k].resolve);
      IdsRemove(s, k, promises[k].(inUse := false));
      promises[k] := promises[k].(inUse := false);
      assert promises[..] == s[k := s[k].(inUse := false)];
      model := Resolve(model, id);
    }

    method TakeOne() returns (r: Request)
      requires Valid() && model.fifo.items != []
      modifies this, ring, ring.slots
      ensures Valid() && model == Next(old(model), DrainEvent) && r == old(model).fifo.items[0]
      ensures callbacks == old(callbacks)
    {
      ghost var s := promises[..];
      NextKeeps(model, DrainEvent);
      hide FifoOk, Owned, Ids, DistinctIds;
      var taken := ring.TakeRequest();
      assert promises[..] == s;
      model := model.(fifo := Take(model.fifo));
      r := taken.value;
    }

    /** mlqjs_take_requests: drains what is waiting. */
    method TakeAll() returns (taken: seq<Request>)
      requires Valid()
      modifies this, ring, ring.slots
      ensures Valid() && taken == old(model).fifo.items
      ensures model.fifo.items == [] && model.open == old(model).open && model.settled == old(model).settled
      ensures model.fifo.nextId == old(model).fifo.nextId && callbacks == old(callbacks)
    {
      hide FifoOk, Owned, Ids, DistinctIds, Next, ModelOk, Holds;
      ghost var items := model.fifo.items;
      taken := [];
      var n := ring.count;
      var i := 0;
      while i < n
        invariant 0 <= i <= n == |items| && Valid()
        invariant taken == items[..i] && model.fifo.items == items[i..]
        invariant model.open == old(model).open && model.settled == old(model).settled
        invariant model.fifo.nextId == old(model).fifo.nextId && callbacks == old(callbacks)
      {
        assert items[i..][0] == items[i];
        DrainStep(model);
        var r := TakeOne();
        taken := taken + [r];
        assert items[..i + 1] == items[..i] + [items[i]];
        assert items[i..][1..] == items[i + 1..];
        i := i + 1;
      }
      assert items[..n] == items && items[n..] == [];
    }
  }

  lemma {:induction false} DrainStep(m: Model)
    requires m.fifo.items != []
    ensures var n := Next(m, DrainEvent);
            && n.fifo.items == m.fifo.items[1..] && n.open == m.open && n.settled == m.settled
            && n.fifo.nextId == m.fifo.nextId
  {}

  lemma {:induction false} StartOk()
    ensures ModelOk(Start())
  {
    OwnedNone([]);
  }
}
