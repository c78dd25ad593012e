/** Canonical JSON: object keys sorted at every level, no spaces. */
module CanonicalJson {
  import opened Basics
  import opened KeySort

  /** A double is given by its bits. */
  datatype Json =
    | Null
    | Bool(b: bool)
    | Int(n: int)
    | Float(bits: nat)
    | Text(s: Bytes)
    | Array(items: seq<Json>)
    | Object(members: seq<Keyed<Json>>)

  type Member = Keyed<Json>

  // ----- sorting keys -----

  function Sort(v: Json): Json
    decreases v
  {
    match v
    case Array(items) => Array(SortItems(items))
    case Object(members) => Object(SortKeyed(SortValues(members)))
    case _ => v
  }

  function SortItems(items: seq<Json>): seq<Json>
    decreases items
  {
    if items == [] then [] else [Sort(items[0])] + SortItems(items[1..])
  }

  function SortValues(ms: seq<Keyed<Json>>): seq<Member>
    decreases ms
  {
    if ms == [] then [] else [Keyed(ms[0].key, Sort(ms[0].value))] + SortValues(ms[1..])
  }

  // ----- text -----

  function Digits(n: nat): Bytes {
    if n < 10 then [0x30 + n] else Digits(n / 10) + [0x30 + n % 10]
  }

  function IntText(n: int): Bytes { if n < 0 then [0x2d] + Digits(-n) else Digits(n) }

  function HexDigit(n: nat): byte
    requires n < 16
  {
    if n < 10 then 0x30 + n else 0x61 + n - 10
  }

  /** One byte of a string, escaped where JSON requires it. */
  function Escaped(c: byte): Bytes {
    if c == 0x22 then [0x5c, 0x22]
    else if c == 0x5c then [0x5c, 0x5c]
    else if c == 0x0a then [0x5c, 0x6e]
    else if c == 0x0d then [0x5c, 0x72]
    else if c == 0x09 then [0x5c, 0x74]
    else if c == 0x08 then [0x5c, 0x62]
    else if c == 0x0c then [0x5c, 0x66]
    else if c < 0x20 then [0x5c, 0x75, 0x30, 0x30, HexDigit(c / 16), HexDigit(c % 16)]
    else [c]
  }

  function EscapedAll(s: Bytes): Bytes {
    if s == [] then [] else Escaped(s[0]) + EscapedAll(s[1..])
  }

  function Quoted(s: Bytes): Bytes { [0x22] + EscapedAll(s) + [0x22] }

  /** The text without spaces; floatText prints a double. */
  function Encode(floatText: nat -> Bytes, v: Json): Bytes
    decreases v
  {
    match v
    case Null => [0x6e, 0x75, 0x6c, 0x6c]
    case Bool(b) => if b then [0x74, 0x72, 0x75, 0x65] else [0x66, 0x61, 0x6c, 0x73, 0x65]
    case Int(n) => IntText(n)
    case Float(bits) => floatText(bits)
    case Text(s) => Quoted(s)
    case Array(items) => [0x5b] + EncodeItems(floatText, items) + [0x5d]
    case Object(members) => [0x7b] + EncodeMembers(floatText, members) + [0x7d]
  }

  function EncodeItems(floatText: nat -> Bytes, items: seq<Json>): Bytes
    decreases items
  {
    if items == [] then []
    else Encode(floatText, items[0]) + (if |items| == 1 then [] else [0x2c]) + EncodeItems(floatText, items[1..])
  }

  function EncodeMembers(floatText: nat -> Bytes, ms: seq<Keyed<Json>>): Bytes
    decreases ms
  {
    if ms == [] then []
    else Quoted(ms[0].key) + [0x3a] + Encode(floatText, ms[0].value)
         + (if |ms| == 1 then [] else [0x2c]) + EncodeMembers(floatText, ms[1..])
  }

  /** Canonical_json.to_string */
  function ToText(floatText: nat -> Bytes, v: Json): Bytes { Encode(floatText, Sort(v)) }

  // ----- the meaning of a value: objects are maps -----

  datatype Meaning = Atom(v: Json) | List(items: seq<Meaning>) | Map(members: map<Bytes, Meaning>)

  function MeaningOf(v: Json): Meaning
    decreases v
  {
    match v
    case Array(items) => List(ItemMeanings(items))
    case Object(members) => Map(MemberMeanings(members))
    case _ => Atom(v)
  }

  function ItemMeanings(items: seq<Json>): seq<Meaning>
    decreases items
  {
    if items == [] then [] else [MeaningOf(items[0])] + ItemMeanings(items[1..])
  }

  function MemberMeanings(ms: seq<Keyed<Json>>): map<Bytes, Meaning>
    decreases ms
  {
    if ms == [] then map[] else MemberMeanings(ms[1..])[ms[0].key := MeaningOf(ms[0].value)]
  }

  /** No object has the same key twice. */
  predicate NoRepeats(v: Json)
    decreases v
  {
    match v
    case Array(items) => forall i :: 0 <= i < |items| ==> NoRepeats(items[i])
    case Object(members) => Distinct(members) && forall i :: 0 <= i < |members| ==> NoRepeats(members[i].value)
    case _ => true
  }

  // ----- the text depends on the meaning alone -----

  lemma {:induction false} SortItemsAt(items: seq<Json>)
    ensures |SortItems(items)| == |items| && |ItemMeanings(items)| == |items|
    ensures forall i :: 0 <= i < |items| ==> SortItems(items)[i] == Sort(items[i])
    ensures forall i :: 0 <= i < |items| ==> ItemMeanings(items)[i] == MeaningOf(items[i])
  {
    hide Sort, MeaningOf;
    if items != [] {
      SortItemsAt(items[1..]);
    }
  }

  lemma {:induction false} SortValuesAt(ms: seq<Member>)
    ensures |SortValues(ms)| == |ms|
    ensures forall i :: 0 <= i < |ms| ==> SortValues(ms)[i] == Keyed(ms[i].key, Sort(ms[i].value))
  {
    hide Sort;
    if ms != [] {
      SortValuesAt(ms[1..]);
    }
  }

  /** The meanings of the members are a map of the list of meanings. */
  function Meanings(ms: seq<Member>): seq<Keyed<Meaning>> {
    seq(|ms|, i requires 0 <= i < |ms| => Keyed(ms[i].key, MeaningOf(ms[i].value)))
  }

  lemma {:induction false} MeaningsMap(ms: seq<Member>)
    ensures MemberMeanings(ms) == KeyMap(Meanings(ms))
  {
    hide MeaningOf;
    if ms != [] {
      MeaningsMap(ms[1..]);
      assert Meanings(ms)[1..] == Meanings(ms[1..]);
    }
  }

  /** The members of an object, sorted, and the map they stand for. */
  lemma {:induction false} ObjectParts(ms: seq<Member>)
    requires Distinct(ms)
    ensures var t := SortKeyed(SortValues(ms));
            Sorted(t) && Distinct(t) && KeyMap(t) == KeyMap(SortValues(ms)) && multiset(t) == multiset(SortValues(ms))
    ensures Distinct(SortValues(ms)) && Distinct(Meanings(ms))
  {
    hide Sort, MeaningOf;
    SortValuesAt(ms);
    var u := SortValues(ms);
    forall i, j | 0 <= i < j < |u| ensures u[i].key != u[j].key {
      assert ms[i].key != ms[j].key;
    }
    SortSorts(u);
    SortPermutes(u);
    KeyMapPermuted(u, SortKeyed(u));
  }

  /** Values with the same meaning sort to the same value. */
  lemma {:induction false} SameMeaning(x: Json, y: Json)
    requires NoRepeats(x) && NoRepeats(y) && MeaningOf(x) == MeaningOf(y)
    ensures Sort(x) == Sort(y)
    decreases x, 1
  {
    match x
    case Array(items) =>
      SortItemsAt(items);
      SortItemsAt(y.items);
      forall i | 0 <= i < |items| ensures SortItems(items)[i] == SortItems(y.items)[i] {
        assert ItemMeanings(items)[i] == ItemMeanings(y.items)[i];
        SameMeaning(items[i], y.items[i]);
      }
    case Object(members) =>
      SameValues(x, y);
      ObjectParts(members);
      ObjectParts(y.members);
      SortedUnique(SortKeyed(SortValues(members)), SortKeyed(SortValues(y.members)));
    case _ =>
  }

  /** One key in the sorted values and in the meanings. */
  lemma {:induction false} Lookup(ms: seq<Member>, k: Bytes) returns (i: nat)
    requires Distinct(ms)
    ensures k in KeyMap(SortValues(ms)) <==> k in MemberMeanings(ms)
    ensures k in MemberMeanings(ms) ==>
              && i < |ms| && ms[i].key == k
              && KeyMap(SortValues(ms))[k] == Sort(ms[i].value) && MemberMeanings(ms)[k] == MeaningOf(ms[i].value)
  {
    MeaningsMap(ms);
    ObjectParts(ms);
    SortValuesAt(ms);
    hide Sort, MeaningOf, SortValues, KeyMap, MemberMeanings;
    var u, w := SortValues(ms), Meanings(ms);
    KeyMapHas(u, k);
    KeyMapHas(w, k);
    i := 0;
    if j :| 0 <= j < |ms| && ms[j].key == k {
      i := j;
      assert u[i].key == k && w[i].key == k;
      KeyMapAt(u, i);
      KeyMapAt(w, i);
    }
  }

  lemma {:induction false} SameValues(x: Json, y: Json)
    requires x.Object? && y.Object? && NoRepeats(x) && NoRepeats(y)
    requires MemberMeanings(x.members) == MemberMeanings(y.members)
    ensures KeyMap(SortValues(x.members)) == KeyMap(SortValues(y.members))
    decreases x, 0
  {
    hide Sort, MeaningOf, SortValues, KeyMap, MemberMeanings;
    var a, b := x.members, y.members;
    forall k ensures k in KeyMap(SortValues(a)) <==> k in KeyMap(SortValues(b)) {
      var i := Lookup(a, k);
      var j := Lookup(b, k);
    }
    forall k | k in KeyMap(SortValues(a)) ensures KeyMap(SortValues(a))[k] == KeyMap(SortValues(b))[k] {
      var i := Lookup(a, k);
      var j := Lookup(b, k);
      SameMeaning(a[i].value, b[j].value);
    }
  }

  /** Sorting keeps the meaning. */
  lemma {:induction false} SortKeepsMeaning(x: Json)
    requires NoRepeats(x)
    ensures MeaningOf(Sort(x)) == MeaningOf(x) && NoRepeats(Sort(x))
    decreases x, 1
  {
    match x
    case Array(items) =>
      SortItemsAt(items);
      SortItemsAt(SortItems(items));
      forall i | 0 <= i < |items|
        ensures MeaningOf(SortItems(items)[i]) == MeaningOf(items[i]) && NoRepeats(SortItems(items)[i]) {
        SortKeepsMeaning(items[i]);
      }
      assert ItemMeanings(SortItems(items)) == ItemMeanings(items);
    case Object(members) =>
      SortKeepsValues(x);
      ObjectParts(members);
      var u, t := SortValues(members), SortKeyed(SortValues(members));
      MeaningsPermuted(u, t);
    case _ =>
  }

  lemma {:induction false} SortKeepsValues(x: Json)
    requires x.Object? && NoRepeats(x)
    ensures var u := SortValues(x.members);
            Meanings(u) == Meanings(x.members) && MemberMeanings(u) == MemberMeanings(x.members)
    ensures forall i :: 0 <= i < |SortValues(x.members)| ==> NoRepeats(SortValues(x.members)[i].value)
    decreases x, 0
  {
    hide Sort, MeaningOf;
    var a, u := x.members, SortValues(x.members);
    SortValuesAt(a);
    forall i | 0 <= i < |a| ensures MeaningOf(u[i].value) == MeaningOf(a[i].value) && NoRepeats(u[i].value) {
      SortKeepsMeaning(a[i].value);
    }
    assert Meanings(u) == Meanings(a);
    MeaningsMap(a);
    MeaningsMap(u);
  }

  lemma {:induction false} MeaningsPermuted(u: seq<Member>, t: seq<Member>)
    requires Distinct(u) && multiset(u) == multiset(t)
    requires forall i :: 0 <= i < |u| ==> NoRepeats(u[i].value)
    ensures MemberMeanings(u) == MemberMeanings(t) && Distinct(t)
    ensures forall i :: 0 <= i < |t| ==> NoRepeats(t[i].value)
  {
    hide MeaningOf, NoRepeats;
    KeyMapPermuted(u, t);
    MapMeanings(u);
    MapMeanings(t);
    forall i | 0 <= i < |t| ensures NoRepeats(t[i].value) {
      assert t[i] in multiset(u);
      var k :| 0 <= k < |u| && u[k] == t[i];
    }
  }

  /** The map of meanings is the map of values, value by value. */
  lemma {:induction false} MapMeanings(ms: seq<Member>)
    ensures MemberMeanings(ms) == map k | k in KeyMap(ms) :: MeaningOf(KeyMap(ms)[k])
  {
    hide MeaningOf;
    if ms != [] {
      MapMeanings(ms[1..]);
    }
  }

  /** Two values without repeated keys have the same canonical form if and only if
      they differ in the order of object members alone. */
  lemma {:induction false} OrderIrrelevant(x: Json, y: Json)
    requires NoRepeats(x) && NoRepeats(y)
    ensures Sort(x) == Sort(y) <==> MeaningOf(x) == MeaningOf(y)
  {
    hide Sort, MeaningOf, NoRepeats;
    SortKeepsMeaning(x);
    SortKeepsMeaning(y);
    if MeaningOf(x) == MeaningOf(y) {
      SameMeaning(x, y);
    }
  }

  /** Sorting again changes nothing. */
  lemma {:induction false} SortIdempotent(x: Json)
    requires NoRepeats(x)
    ensures Sort(Sort(x)) == Sort(x)
  {
    hide Sort, MeaningOf, NoRepeats;
    SortKeepsMeaning(x);
    SameMeaning(Sort(x), x);
  }
}
