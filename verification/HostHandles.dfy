/** Runtime handles: a 64-slot table with a generation number per slot. */
module HostHandles {
  import opened Basics

  const TABLE_CAP: nat := 64
  const SHIFT: nat := 0x1_0000

  /** (gen << 16) | index */
  function Encode(gen: nat, index: nat): int
    requires gen < SHIFT && index < SHIFT
  {
    ToInt32(gen * SHIFT + index)
  }

  /** h & 0xffff, and h >> 16 keeping the sign: Euclidean remainder and quotient. */
  function IndexOf(h: int): int { h % SHIFT }
  function GenOf(h: int): int { h / SHIFT }

  /** A handle gives its index and generation back exactly when the generation is
      below 2^15; from there on the sign bit gets in the way. */
  lemma {:induction false} DecodeExact(gen: nat, index: nat)
    requires gen < SHIFT && index < SHIFT
    ensures IndexOf(Encode(gen, index)) == index
    ensures GenOf(Encode(gen, index)) == gen <==> gen < 0x8000
  {
    var x := gen * SHIFT + index;
    if gen < 0x8000 {
      assert x < 0x8000_0000;
    } else {
      assert x >= 0x8000_0000;
      assert ToInt32(x) == (gen - SHIFT) * SHIFT + index;
    }
  }

  /** From 2^15 on, the generation read is negative. */
  lemma {:induction false} DecodeNegative(gen: nat, index: nat)
    requires 0x8000 <= gen < SHIFT && index < SHIFT
    ensures GenOf(Encode(gen, index)) == gen - SHIFT && Encode(gen, index) < 0
  {
    assert ToInt32(gen * SHIFT + index) == (gen - SHIFT) * SHIFT + index;
  }

  /** Handles are ints, and ints are what they are truncated to. */
  lemma {:induction false} HandleIsInt(gen: nat, index: nat)
    requires gen < SHIFT && index < SHIFT
    ensures ToInt32(Encode(gen, index)) == Encode(gen, index)
  {}

  lemma {:induction false} GenRange(h: int)
    ensures -0x8000 <= GenOf(ToInt32(h)) < 0x8000
  {}

  const WORN: nat := 0x8000

  /** A runtime, with the generation stored in it at allocation. */
  datatype Runtime = Runtime(name: nat, gen: nat)

  datatype Issued = Issued(name: nat, gen: nat, index: nat)

  class Table {
    const table: array<Option<Runtime>>
    const generation: array<nat>
    /** every handle given out, and those not destroyed since */
    ghost var issued: map<int, Issued>
    ghost var live: set<int>

    /** No generation passes 2^15: the handle of that generation is never found, so
        its slot is never cleared. */
    ghost predicate Valid()
      reads this, table, generation
    {
      && table.Length == TABLE_CAP && generation.Length == TABLE_CAP
      && live <= issued.Keys
      && InBounds(table[..], generation[..])
      && AllHandles(table[..], generation[..], issued) && LiveOnes(table[..], issued, live)
      && SlotsIssued(table[..], issued)
    }

    constructor ()
      ensures Valid() && issued == map[] && live == {} && fresh(table) && fresh(generation)
      ensures table.Length == 64 && forall i :: 0 <= i < 64 ==> table[i] == None && generation[i] == 0
    {
      table := new Option<Runtime>[TABLE_CAP](_ => None);
      generation := new nat[TABLE_CAP](_ => 0);
      issued := map[];
      live := {};
    }

    /** The first free slot, under its next generation; 0 when the table is full. */
    method Alloc(name: nat) returns (h: int)
      requires Valid()
      modifies this, table, generation
      ensures Valid()
      ensures h == 0 <==> forall i :: 0 <= i < TABLE_CAP ==> old(table[i]).Some?
      ensures h == 0 ==> issued == old(issued) && live == old(live)
      ensures h != 0 ==> h !in old(issued) && issued.Keys == old(issued).Keys + {h} && live == old(live) + {h}
      ensures forall k :: k in old(issued) ==> issued[k] == old(issued)[k]
      ensures h != 0 ==>
                var e := issued[h];
                && e.name == name && e.index < TABLE_CAP && e.gen == old(generation[e.index]) + 1 == generation[e.index]
                && (forall k :: 0 <= k < e.index ==> old(table[k]).Some?)
                && (forall k :: 0 <= k < TABLE_CAP && k != e.index ==> table[k] == old(table[k]))
    {
      var i := 0;
      while i < TABLE_CAP
        invariant 0 <= i <= TABLE_CAP
        invariant forall k :: 0 <= k < i ==> table[k].Some?
      {
        if table[i] == None {
          assert table[..][i] == None && generation[..][i] < WORN;
          var gen := (generation[i] + 1) % SHIFT;
          if gen == 0 {
            gen := 1;
          }
          h := Encode(gen, i);
          ghost var e := Issued(name, gen, i);
          NewHandle(table[..], generation[..], issued, live, e);
          ghost var t, g := table[..], generation[..];
          table[i] := Some(Runtime(name, gen));
          generation[i] := gen;
          issued := issued[h := e];
          live := live + {h};
          assert table[..] == t[i := Some(Runtime(name, gen))] && generation[..] == g[i := gen];
          return;
        }
        i := i + 1;
      }
      h := 0;
    }

    /** A live handle gives its own runtime if and only if its generation is below
        2^15; a destroyed or unknown one gives none. */
    method Get(handle: int) returns (r: Option<Runtime>)
      requires Valid()
      ensures r.Some? <==> ToInt32(handle) in live && issued[ToInt32(handle)].gen < 0x8000
      ensures r.Some? ==> r.value.name == issued[ToInt32(handle)].name
      ensures ToInt32(handle) in live ==> IndexOf(ToInt32(handle)) == issued[ToInt32(handle)].index
    {
      var h := ToInt32(handle);
      var index, gen := IndexOf(h), GenOf(h);
      GenRange(handle);
      if h in issued {
        Decoded(table[..], generation[..], h, issued[h]);
      } else if 0 <= gen < WORN {
        EncodeOf(h);
      }
      hide Encode, IndexOf, GenOf, ToInt32;
      if index < 0 || index >= TABLE_CAP {
        return None;
      }
      assert table[index] == table[..][index];
      if table[index] == None || table[index].value.gen != gen {
        return None;
      }
      assert SlotIssued(table[..][index].value.gen, index, issued);
      r := table[index];
    }

    /** Idempotent: a stale handle changes nothing, and neither does one that is not
        found. */
    method Destroy(handle: int)
      requires Valid()
      modifies this, table
      ensures Valid() && issued == old(issued)
      ensures var h := ToInt32(handle);
              var found := h in old(live) && issued[h].gen < WORN;
              && live == (if found then old(live) - {h} else old(live))
              && (found ==> issued[h].index < TABLE_CAP && table[issued[h].index] == None)
              && (forall k :: 0 <= k < TABLE_CAP && !(found && k == issued[h].index) ==> table[k] == old(table[k]))
    {
      var r := Get(handle);
      var h := ToInt32(handle);
      hide Encode, IndexOf, GenOf, ToInt32;
      if r.Some? {
        ghost var t := table[..];
        ghost var index := issued[h].index;
        Cleared(t, generation[..], issued, live, h);
        table[IndexOf(h)] := None;
        assert table[..] == t[index := None];
        live := live - {h};
      }
    }
  }

  /** A run that wears out a slot: after 2^15 allocations its runtime can be neither
      used nor destroyed. */
  method WearOut(name: nat) returns (t: Table, h: int, r: Option<Runtime>)
    ensures t.Valid() && h in t.live && t.issued[h] == Issued(name, WORN, 0)
    ensures t.table[0].Some? && t.table[0].value.name == name && r == None
  {
    t := new Table();
    var n := 0;
    assert t.table[0] == None;
    h := t.Alloc(name);
    while n < WORN - 1
      invariant 0 <= n <= WORN - 1 && t.Valid() && fresh(t) && fresh(t.table) && fresh(t.generation)
      invariant h in t.live && t.issued[h] == Issued(name, n + 1, 0)
      invariant forall k :: 1 <= k < TABLE_CAP ==> t.table[k] == None
    {
      LiveHandle(t, h);
      t.Destroy(h);
      h := t.Alloc(name);
      n := n + 1;
    }
    LiveHandle(t, h);
    t.Destroy(h);
    r := t.Get(h);
  }

  /** A live handle is an int, and its slot holds its runtime. */
  lemma {:induction false} LiveHandle(t: Table, h: int)
    requires t.Valid() && h in t.live
    ensures ToInt32(h) == h
    ensures var e := t.issued[h];
            && e.index < TABLE_CAP && t.generation[e.index] == e.gen
            && t.table[e.index] == Some(Runtime(e.name, e.gen))
  {
    var e := t.issued[h];
    Decoded(t.table[..], t.generation[..], h, e);
    assert Occupies(t.table[..], e);
    assert t.table[..][e.index] == t.table[e.index] && t.generation[..][e.index] == t.generation[e.index];
  }

  /** Only an occupied slot has reached the last generation. */
  ghost predicate InBounds(table: seq<Option<Runtime>>, generation: seq<nat>) {
    && |table| == |generation|
    && forall i :: 0 <= i < |table| ==>
         && generation[i] <= WORN && (generation[i] == WORN ==> table[i].Some?)
         && (table[i].Some? ==> table[i].value.gen == generation[i])
  }

  /** The handle encodes its slot and generation, which the slot has reached. */
  ghost predicate HandleOk(table: seq<Option<Runtime>>, generation: seq<nat>, h: int, e: Issued) {
    && e.index < TABLE_CAP <= |generation| && e.index < |table| && 1 <= e.gen <= WORN && h == Encode(e.gen, e.index)
    && e.gen <= generation[e.index]
    && (Occupies(table, e) ==> table[e.index].value.name == e.name)
  }

  ghost predicate Occupies(table: seq<Option<Runtime>>, e: Issued) {
    e.index < |table| && table[e.index].Some? && table[e.index].value.gen == e.gen
  }

  ghost predicate AllHandles(table: seq<Option<Runtime>>, generation: seq<nat>, issued: map<int, Issued>) {
    forall h :: h in issued ==> HandleOk(table, generation, h, issued[h])
  }

  /** What a slot holds was given out under its handle. */
  ghost predicate SlotsIssued(table: seq<Option<Runtime>>, issued: map<int, Issued>) {
    forall i :: 0 <= i < |table| && table[i].Some? ==> SlotIssued(table[i].value.gen, i, issued)
  }

  ghost predicate SlotIssued(gen: nat, i: nat, issued: map<int, Issued>) {
    gen <= WORN && i < SHIFT && Encode(gen, i) in issued
  }

  lemma {:induction false} EncodeOf(h: int)
    requires 0 <= GenOf(h) < 0x8000
    ensures 0 <= IndexOf(h) < SHIFT && Encode(GenOf(h), IndexOf(h)) == h
  {}

  /** A handle is live exactly when its slot still holds its generation. */
  ghost predicate LiveOnes(table: seq<Option<Runtime>>, issued: map<int, Issued>, live: set<int>) {
    forall h :: h in issued ==> (h in live <==> Occupies(table, issued[h]))
  }

  lemma {:induction false} Decoded(table: seq<Option<Runtime>>, generation: seq<nat>, h: int, e: Issued)
    requires HandleOk(table, generation, h, e)
    ensures IndexOf(h) == e.index && h != 0 && ToInt32(h) == h
    ensures GenOf(h) == if e.gen < WORN then e.gen else e.gen - SHIFT
  {
    DecodeExact(e.gen, e.index);
    HandleIsInt(e.gen, e.index);
    if e.gen == WORN {
      DecodeNegative(e.gen, e.index);
    } else {
      assert GenOf(0) == 0;
    }
  }

  /** Allocating a new generation of a free slot. */
  lemma {:induction false} NewHandle(table: seq<Option<Runtime>>, generation: seq<nat>, issued: map<int, Issued>,
          live: set<int>, e: Issued)
    requires |table| == TABLE_CAP == |generation| && e.index < TABLE_CAP && table[e.index] == None
    requires e.gen == generation[e.index] + 1 && InBounds(table, generation)
    requires AllHandles(table, generation, issued) && LiveOnes(table, issued, live) && live <= issued.Keys
             && SlotsIssued(table, issued)
    ensures var h := Encode(e.gen, e.index);
            var t, g := table[e.index := Some(Runtime(e.name, e.gen))], generation[e.index := e.gen];
            && h !in issued && h != 0
            && AllHandles(t, g, issued[h := e]) && LiveOnes(t, issued[h := e], live + {h})
            && SlotsIssued(t, issued[h := e]) && InBounds(t, g)
  {
    var h := Encode(e.gen, e.index);
    assert generation[e.index] < WORN;
    var t, g := table[e.index := Some(Runtime(e.name, e.gen))], generation[e.index := e.gen];
    hide Encode, GenOf, IndexOf;
    Decoded(t, g, h, e);
    if h in issued {
      Decoded(table, generation, h, issued[h]);
    }
    forall k | k in issued ensures HandleOk(t, g, k, issued[k]) && (k in live <==> Occupies(t, issued[k])) {
      assert HandleOk(table, generation, k, issued[k]);
    }
  }

  /** Clearing the slot of a live handle. */
  lemma {:induction false} Cleared(table: seq<Option<Runtime>>, generation: seq<nat>, issued: map<int, Issued>,
          live: set<int>, h: int)
    requires |table| == TABLE_CAP == |generation| && h in issued && h in live && issued[h].index < TABLE_CAP
    requires AllHandles(table, generation, issued) && LiveOnes(table, issued, live)
    ensures var t := table[issued[h].index := None];
            AllHandles(t, generation, issued) && LiveOnes(t, issued, live - {h})
  {
    var t := table[issued[h].index := None];
    forall k | k in issued
      ensures HandleOk(t, generation, k, issued[k]) && (k in live - {h} <==> Occupies(t, issued[k])) {
      assert HandleOk(table, generation, k, issued[k]) && HandleOk(table, generation, h, issued[h]);
      if issued[k].index == issued[h].index && Occupies(table, issued[k]) {
        assert issued[k].gen == issued[h].gen;
      }
    }
  }
}
