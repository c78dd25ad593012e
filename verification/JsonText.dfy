/** Canonical JSON text determines the value: what makes it fit for digests. */
module JsonText {
  import opened Basics
  import opened KeySort
  import opened CanonicalJson

  // ----- numbers -----

  predicate IsDigit(b: byte) { 0x30 <= b <= 0x39 }

  predicate AllDigits(s: Bytes) { forall i :: 0 <= i < |s| ==> IsDigit(s[i]) }

  function DigitsValue(s: Bytes): int {
    if s == [] then 0 else (DigitsValue(s[..|s| - 1]) * 10 + s[|s| - 1]) - 0x30
  }

  lemma {:induction false} DigitsRead(n: nat)
    ensures Digits(n) != [] && AllDigits(Digits(n)) && DigitsValue(Digits(n)) == n
  {
    if n < 10 {
      assert Digits(n)[..0] == [];
    } else {
      DigitsRead(n / 10);
      var d := Digits(n / 10);
      assert (d + [0x30 + n % 10])[..|d|] == d;
    }
  }

  /** What may follow a value. */
  predicate Follows(r: Bytes) { r == [] || r[0] == 0x2c || r[0] == 0x5d || r[0] == 0x7d }

  lemma {:induction false} DigitRun(a: Bytes, r: Bytes, b: Bytes, t: Bytes)
    requires AllDigits(a) && AllDigits(b) && Follows(r) && Follows(t) && a + r == b + t
    ensures a == b && r == t
  {
    var s := a + r;
    assert s == b + t;
    assert |a| < |b| ==> IsDigit(s[|a|]);
    assert |b| < |a| ==> IsDigit(s[|b|]);
    assert |a| < |s| ==> s[|a|] == r[0];
    assert |b| < |s| ==> s[|b|] == t[0];
    SamePrefix(a, r, b, t);
  }

  lemma {:induction false} SamePrefix(a: Bytes, r: Bytes, b: Bytes, t: Bytes)
    requires a + r == b + t && |a| == |b|
    ensures a == b && r == t
  {
    assert (a + r)[..|a|] == a && (b + t)[..|b|] == b && (a + r)[|a|..] == r && (b + t)[|b|..] == t;
  }

  lemma {:induction false} IntForm(n: int, r: Bytes)
    ensures IntText(n) + r != [] && ((IntText(n) + r)[0] == 0x2d <==> n < 0)
    ensures n < 0 ==> IntText(n) + r == [0x2d] + (Digits(-n) + r)
  {
    hide Digits;
    DigitsRead(if n < 0 then -n else n);
  }

  lemma {:induction false} IntUnique(n: int, r: Bytes, m: int, t: Bytes)
    requires Follows(r) && Follows(t) && IntText(n) + r == IntText(m) + t
    ensures n == m && r == t
  {
    hide Digits, Follows, DigitsValue, AllDigits;
    IntForm(n, r);
    IntForm(m, t);
    if n < 0 {
      DigitsRead(-n);
      DigitsRead(-m);
      SamePrefix([0x2d], Digits(-n) + r, [0x2d], Digits(-m) + t);
      DigitRun(Digits(-n), r, Digits(-m), t);
    } else {
      DigitsRead(n);
      DigitsRead(m);
      DigitRun(Digits(n), r, Digits(m), t);
    }
  }

  // ----- strings -----

  lemma {:induction false} HexUnique(x: nat, y: nat)
    requires x < 16 && y < 16 && HexDigit(x) == HexDigit(y)
    ensures x == y
  {}

  lemma {:induction false} EscapedUnique(c: byte, x: Bytes, d: byte, y: Bytes)
    requires Escaped(c) + x == Escaped(d) + y
    ensures c == d && x == y
  {
    var u, w := Escaped(c), Escaped(d);
    assert (u + x)[0] == u[0] && (w + y)[0] == w[0];
    if u[0] == 0x5c {
      assert (u + x)[1] == u[1] && (w + y)[1] == w[1];
      if u[1] == 0x75 {
        assert (u + x)[4] == u[4] && (w + y)[4] == w[4] && (u + x)[5] == u[5] && (w + y)[5] == w[5];
        HexUnique(c / 16, d / 16);
        HexUnique(c % 16, d % 16);
      }
    }
    SamePrefix(u, x, w, y);
  }

  lemma {:induction false} EscapedStart(c: byte)
    ensures Escaped(c) != [] && Escaped(c)[0] != 0x22
  {}

  lemma {:induction false} EscapedAllUnique(s: Bytes, r: Bytes, u: Bytes, t: Bytes)
    requires EscapedAll(s) + ([0x22] + r) == EscapedAll(u) + ([0x22] + t)
    ensures s == u && r == t
    decreases |s|
  {
    hide Escaped;
    var x, y := [0x22] + r, [0x22] + t;
    if s == [] || u == [] {
      QuoteFirst(s, x);
      QuoteFirst(u, y);
      assert [] + x == x && [] + y == y;
      SamePrefix([0x22], r, [0x22], t);
    } else {
      var a, b := EscapedAll(s[1..]) + x, EscapedAll(u[1..]) + y;
      assert EscapedAll(s) + x == Escaped(s[0]) + a;
      assert EscapedAll(u) + y == Escaped(u[0]) + b;
      EscapedUnique(s[0], a, u[0], b);
      EscapedAllUnique(s[1..], r, u[1..], t);
      assert s == [s[0]] + s[1..] && u == [u[0]] + u[1..];
    }
  }

  /** The text of a string starts with its end exactly when it is empty. */
  lemma {:induction false} QuoteFirst(s: Bytes, x: Bytes)
    requires x != [] && x[0] == 0x22
    ensures EscapedAll(s) + x != []
    ensures (EscapedAll(s) + x)[0] == 0x22 <==> s == []
  {
    hide Escaped;
    if s != [] {
      EscapedStart(s[0]);
      assert (EscapedAll(s) + x)[0] == Escaped(s[0])[0];
    }
  }

  lemma {:induction false} QuotedUnique(s: Bytes, r: Bytes, u: Bytes, t: Bytes)
    requires Quoted(s) + r == Quoted(u) + t
    ensures s == u && r == t
  {
    hide EscapedAll;
    var a, b := EscapedAll(s) + ([0x22] + r), EscapedAll(u) + ([0x22] + t);
    assert Quoted(s) + r == [0x22] + a && Quoted(u) + t == [0x22] + b;
    SamePrefix([0x22], a, [0x22], b);
    EscapedAllUnique(s, r, u, t);
  }

  // ----- values -----

  /** Doubles are printed by a function that is not known here. */
  predicate NoFloats(v: Json)
    decreases v
  {
    match v
    case Float(_) => false
    case Array(items) => forall i :: 0 <= i < |items| ==> NoFloats(items[i])
    case Object(members) => forall i :: 0 <= i < |members| ==> NoFloats(members[i].value)
    case _ => true
  }

  /** The kind of a value, told by the first byte of its text. */
  function Kind(v: Json): nat {
    match v
    case Null => 0
    case Bool(b) => if b then 1 else 2
    case Int(n) => 3
    case Float(_) => 7
    case Text(_) => 4
    case Array(_) => 5
    case Object(_) => 6
  }

  function KindOf(b: byte): nat {
    if b == 0x6e then 0 else if b == 0x74 then 1 else if b == 0x66 then 2
    else if b == 0x2d || IsDigit(b) then 3
    else if b == 0x22 then 4 else if b == 0x5b then 5 else if b == 0x7b then 6 else 7
  }

  lemma {:induction false} FirstByte(f: nat -> Bytes, v: Json, r: Bytes)
    requires !v.Float?
    ensures Encode(f, v) != [] && KindOf(Encode(f, v)[0]) == Kind(v) && (Encode(f, v) + r)[0] == Encode(f, v)[0]
  {
    hide Digits, EscapedAll, EncodeItems, EncodeMembers;
    if v.Int? {
      DigitsRead(if v.n < 0 then -v.n else v.n);
    }
  }

  /** The text of each kind of value, with what follows it. */
  lemma {:induction false} EncodeForms(f: nat -> Bytes, v: Json, r: Bytes)
    ensures v.Int? ==> Encode(f, v) == IntText(v.n)
    ensures v.Text? ==> Encode(f, v) == Quoted(v.s)
    ensures v.Array? ==> Encode(f, v) + r == [0x5b] + (EncodeItems(f, v.items) + ([0x5d] + r))
    ensures v.Object? ==> Encode(f, v) + r == [0x7b] + (EncodeMembers(f, v.members) + ([0x7d] + r))
  {
    hide IntText, Quoted, EncodeItems, EncodeMembers;
  }

  lemma {:induction false} EncodePlain(f: nat -> Bytes, v: Json, w: Json)
    requires Kind(v) == Kind(w) && (v.Null? || v.Bool?)
    ensures v == w
  {}

  lemma {:induction false} KindIs(v: Json, w: Json)
    requires Kind(v) == Kind(w)
    ensures v.Int? == w.Int? && v.Text? == w.Text? && v.Array? == w.Array? && v.Object? == w.Object?
  {}

  /** Encodings are uniquely decodable. */
  lemma {:induction false} EncodeUnique(f: nat -> Bytes, v: Json, r: Bytes, w: Json, t: Bytes)
    requires NoFloats(v) && NoFloats(w) && Follows(r) && Follows(t) && Encode(f, v) + r == Encode(f, w) + t
    ensures v == w && r == t
    decreases v
  {
    hide Follows, KindOf, Kind, IntText, Quoted, EncodeItems, EncodeMembers, Encode;
    FirstByte(f, v, r);
    FirstByte(f, w, t);
    KindIs(v, w);
    EncodeForms(f, v, r);
    EncodeForms(f, w, t);
    match v
    case Int(n) => IntUnique(n, r, w.n, t);
    case Text(s) => QuotedUnique(s, r, w.s, t);
    case Array(items) =>
      SamePrefix([0x5b], EncodeItems(f, items) + ([0x5d] + r), [0x5b], EncodeItems(f, w.items) + ([0x5d] + t));
      ItemsUnique(f, items, r, w.items, t);
    case Object(members) =>
      SamePrefix([0x7b], EncodeMembers(f, members) + ([0x7d] + r), [0x7b], EncodeMembers(f, w.members) + ([0x7d] + t));
      MembersUnique(f, members, r, w.members, t);
    case _ =>
      EncodePlain(f, v, w);
      SamePrefix(Encode(f, v), r, Encode(f, w), t);
  }

  /** What follows the first item. */
  function AfterItem(f: nat -> Bytes, items: seq<Json>, r: Bytes): Bytes
    requires items != []
  {
    (if |items| == 1 then [] else [0x2c]) + EncodeItems(f, items[1..]) + ([0x5d] + r)
  }

  lemma {:induction false} ItemsSplit(f: nat -> Bytes, items: seq<Json>, r: Bytes)
    requires items != []
    ensures EncodeItems(f, items) + ([0x5d] + r) == Encode(f, items[0]) + AfterItem(f, items, r)
    ensures AfterItem(f, items, r) != [] && Follows(AfterItem(f, items, r))
    ensures AfterItem(f, items, r)[0] == 0x5d <==> |items| == 1
    ensures |items| == 1 ==> AfterItem(f, items, r) == [0x5d] + r
    ensures |items| > 1 ==> AfterItem(f, items, r) == [0x2c] + (EncodeItems(f, items[1..]) + ([0x5d] + r))
  {
    hide Encode;
    if |items| == 1 {
      assert items[1..] == [];
      assert [] + [] + ([0x5d] + r) == [0x5d] + r;
    }
  }

  lemma {:induction false} ItemsUnique(f: nat -> Bytes, items: seq<Json>, r: Bytes, jtems: seq<Json>, t: Bytes)
    requires forall i :: 0 <= i < |items| ==> NoFloats(items[i])
    requires forall i :: 0 <= i < |jtems| ==> NoFloats(jtems[i])
    requires EncodeItems(f, items) + ([0x5d] + r) == EncodeItems(f, jtems) + ([0x5d] + t)
    ensures items == jtems && r == t
    decreases items
  {
    hide Encode, NoFloats, Follows, AfterItem;
    if items == [] || jtems == [] {
      ItemsFirst(f, items, r);
      ItemsFirst(f, jtems, t);
      SamePrefix([0x5d], r, [0x5d], t);
    } else {
      ItemsSplit(f, items, r);
      ItemsSplit(f, jtems, t);
      EncodeUnique(f, items[0], AfterItem(f, items, r), jtems[0], AfterItem(f, jtems, t));
      assert items == [items[0]] + items[1..] && jtems == [jtems[0]] + jtems[1..];
      if |items| == 1 {
        SamePrefix([0x5d], r, [0x5d], t);
      } else {
        var a, b := EncodeItems(f, items[1..]) + ([0x5d] + r), EncodeItems(f, jtems[1..]) + ([0x5d] + t);
        SamePrefix([0x2c], a, [0x2c], b);
        ItemsUnique(f, items[1..], r, jtems[1..], t);
      }
    }
  }

  /** The text of an array starts with its end exactly when it is empty. */
  lemma {:induction false} ItemsFirst(f: nat -> Bytes, items: seq<Json>, r: Bytes)
    requires forall i :: 0 <= i < |items| ==> NoFloats(items[i])
    ensures (EncodeItems(f, items) + ([0x5d] + r))[0] == 0x5d <==> items == []
    ensures items == [] ==> EncodeItems(f, items) + ([0x5d] + r) == [0x5d] + r
  {
    hide Encode;
    if items != [] {
      ItemsSplit(f, items, r);
      FirstByte(f, items[0], AfterItem(f, items, r));
    }
  }

  /** What follows the first member's key, and its value. */
  function AfterMember(f: nat -> Bytes, ms: seq<Member>, r: Bytes): Bytes
    requires ms != []
  {
    (if |ms| == 1 then [] else [0x2c]) + EncodeMembers(f, ms[1..]) + ([0x7d] + r)
  }

  lemma {:induction false} MembersSplit(f: nat -> Bytes, ms: seq<Member>, r: Bytes)
    requires ms != []
    ensures EncodeMembers(f, ms) + ([0x7d] + r)
            == Quoted(ms[0].key) + ([0x3a] + (Encode(f, ms[0].value) + AfterMember(f, ms, r)))
    ensures AfterMember(f, ms, r) != [] && Follows(AfterMember(f, ms, r))
    ensures AfterMember(f, ms, r)[0] == 0x7d <==> |ms| == 1
    ensures |ms| == 1 ==> AfterMember(f, ms, r) == [0x7d] + r
    ensures |ms| > 1 ==> AfterMember(f, ms, r) == [0x2c] + (EncodeMembers(f, ms[1..]) + ([0x7d] + r))
  {
    hide Encode, Quoted, EncodeMembers, AfterMember;
    MembersAfter(f, ms, r);
    MembersForm(f, ms, r);
  }

  lemma {:induction false} MembersAfter(f: nat -> Bytes, ms: seq<Member>, r: Bytes)
    requires ms != []
    ensures |ms| == 1 ==> AfterMember(f, ms, r) == [0x7d] + r
    ensures |ms| > 1 ==> AfterMember(f, ms, r) == [0x2c] + (EncodeMembers(f, ms[1..]) + ([0x7d] + r))
  {
    hide Encode, Quoted;
    if |ms| == 1 {
      assert ms[1..] == [];
      assert [] + [] + ([0x7d] + r) == [0x7d] + r;
    }
  }

  lemma {:induction false} MembersForm(f: nat -> Bytes, ms: seq<Member>, r: Bytes)
    requires ms != []
    ensures EncodeMembers(f, ms) + ([0x7d] + r)
            == Quoted(ms[0].key) + ([0x3a] + (Encode(f, ms[0].value) + AfterMember(f, ms, r)))
  {
    hide Encode, Quoted;
    var q, e := Quoted(ms[0].key), Encode(f, ms[0].value);
    FivePieces(q, [0x3a], e, if |ms| == 1 then [] else [0x2c], EncodeMembers(f, ms[1..]), [0x7d] + r);
  }

  lemma {:induction false} FivePieces(a: Bytes, b: Bytes, c: Bytes, d: Bytes, e: Bytes, g: Bytes)
    ensures a + b + c + d + e + g == a + (b + (c + (d + e + g)))
  {}

  lemma {:induction false} MembersUnique(f: nat -> Bytes, ms: seq<Member>, r: Bytes, ns: seq<Member>, t: Bytes)
    requires forall i :: 0 <= i < |ms| ==> NoFloats(ms[i].value)
    requires forall i :: 0 <= i < |ns| ==> NoFloats(ns[i].value)
    requires EncodeMembers(f, ms) + ([0x7d] + r) == EncodeMembers(f, ns) + ([0x7d] + t)
    ensures ms == ns && r == t
    decreases ms
  {
    hide Encode, NoFloats, Follows, AfterMember, Quoted;
    if ms == [] || ns == [] {
      MembersFirst(f, ms, r);
      MembersFirst(f, ns, t);
      SamePrefix([0x7d], r, [0x7d], t);
    } else {
      MembersSplit(f, ms, r);
      MembersSplit(f, ns, t);
      var a, b := Encode(f, ms[0].value) + AfterMember(f, ms, r), Encode(f, ns[0].value) + AfterMember(f, ns, t);
      QuotedUnique(ms[0].key, [0x3a] + a, ns[0].key, [0x3a] + b);
      SamePrefix([0x3a], a, [0x3a], b);
      EncodeUnique(f, ms[0].value, AfterMember(f, ms, r), ns[0].value, AfterMember(f, ns, t));
      assert ms == [ms[0]] + ms[1..] && ns == [ns[0]] + ns[1..];
      if |ms| == 1 {
        SamePrefix([0x7d], r, [0x7d], t);
      } else {
        SamePrefix([0x2c], EncodeMembers(f, ms[1..]) + ([0x7d] + r), [0x2c], EncodeMembers(f, ns[1..]) + ([0x7d] + t));
        MembersUnique(f, ms[1..], r, ns[1..], t);
      }
    }
  }

  lemma {:induction false} MembersFirst(f: nat -> Bytes, ms: seq<Member>, r: Bytes)
    ensures (EncodeMembers(f, ms) + ([0x7d] + r))[0] == 0x7d <==> ms == []
    ensures ms == [] ==> EncodeMembers(f, ms) + ([0x7d] + r) == [0x7d] + r
  {
    hide Encode, EscapedAll;
    if ms != [] {
      MembersSplit(f, ms, r);
      assert Quoted(ms[0].key)[0] == 0x22;
    }
  }

  lemma {:induction false} SortNoFloats(v: Json)
    requires NoFloats(v)
    ensures NoFloats(Sort(v))
    decreases v
  {
    match v
    case Array(items) =>
      SortItemsAt(items);
      forall i | 0 <= i < |items| ensures NoFloats(SortItems(items)[i]) {
        SortNoFloats(items[i]);
      }
    case Object(members) =>
      SortValuesAt(members);
      var u := SortValues(members);
      forall i | 0 <= i < |u| ensures NoFloats(u[i].value) {
        SortNoFloats(members[i].value);
      }
      SortPermutes(u);
      forall i | 0 <= i < |SortKeyed(u)| ensures NoFloats(SortKeyed(u)[i].value) {
        assert SortKeyed(u)[i] in multiset(u);
        var k :| 0 <= k < |u| && u[k] == SortKeyed(u)[i];
      }
    case _ =>
  }

  /** Values without doubles and repeated keys have the same canonical text if and only
      if they differ in the order of object members alone. */
  lemma {:induction false} TextExact(f: nat -> Bytes, x: Json, y: Json)
    requires NoFloats(x) && NoFloats(y) && NoRepeats(x) && NoRepeats(y)
    ensures ToText(f, x) == ToText(f, y) <==> MeaningOf(x) == MeaningOf(y)
  {
    hide Sort, MeaningOf, NoRepeats, NoFloats, Encode;
    OrderIrrelevant(x, y);
    SortNoFloats(x);
    SortNoFloats(y);
    if ToText(f, x) == ToText(f, y) {
      assert Encode(f, Sort(x)) + [] == Encode(f, Sort(y)) + [];
      EncodeUnique(f, Sort(x), [], Sort(y), []);
    }
  }

  /** Doubles break this: a whole one is printed as the integer, so the two share their
      text. */
  lemma {:induction false} WholeDouble(f: nat -> Bytes, bits: nat, n: int)
    requires f(bits) == IntText(n)
    ensures ToText(f, Float(bits)) == ToText(f, Int(n)) && MeaningOf(Float(bits)) != MeaningOf(Int(n))
  {}
}
