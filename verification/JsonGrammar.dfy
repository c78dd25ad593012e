/** The JSON grammar of RFC 8259, without white space: canonical text is text of this
    grammar for the value it was made from. */
module JsonGrammar {
  import opened Basics
  import opened KeySort
  import opened CanonicalJson
  import opened JsonText

  function Ascii(s: string): (b: Bytes)
    requires forall i :: 0 <= i < |s| ==> s[i] as nat < 128
    ensures |b| == |s|
  {
    seq(|s|, i requires 0 <= i < |s| => s[i] as nat)
  }

  // ----- strings, section 7 -----

  function HexValue(b: byte): Option<nat> {
    if '0' as nat <= b <= '9' as nat then Some(b - '0' as nat)
    else if 'a' as nat <= b <= 'f' as nat then Some(b - 'a' as nat + 10)
    else if 'A' as nat <= b <= 'F' as nat then Some(b - 'A' as nat + 10)
    else None
  }

  /** The character behind a backslash and one letter. */
  function ShortEscape(b: byte): Option<byte> {
    if b == '"' as nat || b == '\\' as nat || b == '/' as nat then Some(b)
    else if b == 'b' as nat then Some(8)
    else if b == 't' as nat then Some(9)
    else if b == 'n' as nat then Some(10)
    else if b == 'f' as nat then Some(12)
    else if b == 'r' as nat then Some(13)
    else None
  }

  /** \uXXXX, for the characters of one byte. */
  function HexEscape(t: Bytes): Option<byte>
    requires |t| >= 6
  {
    var a, b, c, d := HexValue(t[2]), HexValue(t[3]), HexValue(t[4]), HexValue(t[5]);
    if t[1] == 'u' as nat && a == Some(0) && b == Some(0) && c.Some? && d.Some? && 16 * c.value + d.value < 128
    then Some(16 * c.value + d.value) else None
  }

  /** The characters between the quotes. */
  function ReadBody(t: Bytes): Option<Bytes>
    decreases |t|
  {
    if t == [] then Some([])
    else if t[0] == '\\' as nat then
      if |t| >= 2 && ShortEscape(t[1]).Some? then Before(ShortEscape(t[1]).value, ReadBody(t[2..]))
      else if |t| >= 6 && HexEscape(t).Some? then Before(HexEscape(t).value, ReadBody(t[6..]))
      else None
    else if t[0] == '"' as nat || t[0] < 0x20 then None
    else Before(t[0], ReadBody(t[1..]))
  }

  function Before(c: byte, s: Option<Bytes>): Option<Bytes> { if s.None? then None else Some([c] + s.value) }

  predicate IsString(t: Bytes, s: Bytes) {
    && |t| >= 2 && t[0] == '"' as nat && t[|t| - 1] == '"' as nat
    && ReadBody(t[1..|t| - 1]) == Some(s)
  }

  // ----- numbers, section 6 -----

  function ReadNumber(t: Bytes): int {
    if t == [] then 0 else 10 * ReadNumber(t[..|t| - 1]) + (t[|t| - 1] - '0' as int)
  }

  /** Decimal digits, the first of them zero only if it stands alone. */
  predicate IsNatural(t: Bytes, n: nat) {
    && t != [] && (forall i :: 0 <= i < |t| ==> '0' as nat <= t[i] <= '9' as nat)
    && (|t| > 1 ==> t[0] != '0' as nat) && ReadNumber(t) == n
  }

  predicate IsInteger(t: Bytes, n: int) {
    if n < 0 then t != [] && t[0] == '-' as nat && IsNatural(t[1..], -n) else IsNatural(t, n)
  }

  // ----- values, sections 3 to 5 -----

  function Commas(parts: seq<Bytes>): Bytes {
    if parts == [] then []
    else if |parts| == 1 then parts[0]
    else parts[0] + Ascii(",") + Commas(parts[1..])
  }

  ghost predicate IsText(f: nat -> Bytes, t: Bytes, v: Json)
    decreases v
  {
    match v
    case Null => t == Ascii("null")
    case Bool(b) => t == Ascii(if b then "true" else "false")
    case Int(n) => IsInteger(t, n)
    case Float(bits) => t == f(bits)
    case Text(s) => IsString(t, s)
    case Array(items) => exists parts :: AreItems(f, t, parts, items)
    case Object(members) => exists keys, parts :: AreMembers(f, t, keys, parts, members)
  }

  ghost predicate AreItems(f: nat -> Bytes, t: Bytes, parts: seq<Bytes>, items: seq<Json>)
    decreases items, 0
  {
    && |parts| == |items| && t == Ascii("[") + Commas(parts) + Ascii("]")
    && forall i :: 0 <= i < |items| ==> IsText(f, parts[i], items[i])
  }

  ghost predicate AreMembers(f: nat -> Bytes, t: Bytes, keys: seq<Bytes>, parts: seq<Bytes>, members: seq<Keyed<Json>>)
    decreases members, 0
  {
    && |keys| == |parts| == |members| && t == Ascii("{") + Commas(Pairs(keys, parts)) + Ascii("}")
    && forall i :: 0 <= i < |members| ==> IsString(keys[i], members[i].key) && IsText(f, parts[i], members[i].value)
  }

  function Pairs(keys: seq<Bytes>, parts: seq<Bytes>): (r: seq<Bytes>)
    requires |keys| == |parts|
  {
    seq(|keys|, i requires 0 <= i < |keys| => keys[i] + Ascii(":") + parts[i])
  }

  // ----- what the encoder writes -----

  lemma {:induction false} EscapeReads(c: byte, t: Bytes)
    ensures ReadBody(Escaped(c) + t) == Before(c, ReadBody(t))
  {
    var w := Escaped(c) + t;
    if |Escaped(c)| == 1 {
      assert w[1..] == t;
    } else if |Escaped(c)| == 2 {
      assert w[2..] == t;
    } else {
      assert w[6..] == t;
    }
  }

  lemma {:induction false} BodyReads(s: Bytes)
    ensures ReadBody(EscapedAll(s)) == Some(s)
  {
    hide Escaped, ReadBody;
    if s != [] {
      BodyReads(s[1..]);
      EscapeReads(s[0], EscapedAll(s[1..]));
      assert [s[0]] + s[1..] == s;
    } else {
      EmptyBody();
    }
  }

  lemma {:induction false} EmptyBody()
    ensures ReadBody([]) == Some([])
  {}

  /** A string is read back from its text. */
  lemma {:induction false} QuotedReads(s: Bytes)
    ensures IsString(Quoted(s), s)
  {
    hide EscapedAll, ReadBody;
    BodyReads(s);
    var t := Quoted(s);
    assert t[1..|t| - 1] == EscapedAll(s);
  }

  lemma {:induction false} NaturalReads(n: nat)
    ensures IsNatural(Digits(n), n) && (n > 0 ==> Digits(n)[0] != '0' as nat)
  {
    if n >= 10 {
      NaturalReads(n / 10);
      var d := Digits(n / 10);
      assert (d + [0x30 + n % 10])[..|d|] == d;
    }
  }

  lemma {:induction false} IntegerReads(n: int)
    ensures IsInteger(IntText(n), n)
  {
    hide Digits, IsNatural;
    NaturalReads(if n < 0 then -n else n);
    if n < 0 {
      assert IntText(n)[1..] == Digits(-n);
    }
  }

  /** The encoder writes text of the grammar for the value. */
  lemma {:induction false} EncodeIsText(f: nat -> Bytes, v: Json)
    ensures IsText(f, Encode(f, v), v)
    decreases v
  {
    hide Quoted, IntText, IsString, IsInteger;
    match v
    case Int(n) => IntegerReads(n);
    case Text(s) => QuotedReads(s);
    case Array(items) =>
      hide IsText, Encode, EncodeItems, Commas;
      var parts := seq(|items|, i requires 0 <= i < |items| => Encode(f, items[i]));
      forall i | 0 <= i < |items| ensures IsText(f, parts[i], items[i]) {
        EncodeIsText(f, items[i]);
      }
      ItemsJoin(f, items, parts);
      ArrayText(f, v, parts);
    case Object(members) =>
      hide IsText, Encode, EncodeMembers, Commas;
      var keys := seq(|members|, i requires 0 <= i < |members| => Quoted(members[i].key));
      var parts := seq(|members|, i requires 0 <= i < |members| => Encode(f, members[i].value));
      forall i | 0 <= i < |members| ensures IsString(keys[i], members[i].key) && IsText(f, parts[i], members[i].value) {
        QuotedReads(members[i].key);
        EncodeIsText(f, members[i].value);
      }
      MembersJoin(f, members, keys, parts);
      ObjectText(f, v, keys, parts);
    case _ =>
  }

  lemma {:induction false} ArrayText(f: nat -> Bytes, v: Json, parts: seq<Bytes>)
    requires v.Array? && |parts| == |v.items| && EncodeItems(f, v.items) == Commas(parts)
    requires forall i :: 0 <= i < |v.items| ==> IsText(f, parts[i], v.items[i])
    ensures IsText(f, Encode(f, v), v)
  {
    hide EncodeItems, Commas;
    assert Ascii("[") == [0x5b] && Ascii("]") == [0x5d];
    assert AreItems(f, Encode(f, v), parts, v.items);
  }

  lemma {:induction false} ObjectText(f: nat -> Bytes, v: Json, keys: seq<Bytes>, parts: seq<Bytes>)
    requires v.Object? && |keys| == |parts| == |v.members|
    requires EncodeMembers(f, v.members) == Commas(Pairs(keys, parts))
    requires forall i :: 0 <= i < |v.members| ==>
      IsString(keys[i], v.members[i].key) && IsText(f, parts[i], v.members[i].value)
    ensures IsText(f, Encode(f, v), v)
  {
    hide EncodeMembers, Commas, Pairs, IsString;
    assert Ascii("{") == [0x7b] && Ascii("}") == [0x7d];
    assert AreMembers(f, Encode(f, v), keys, parts, v.members);
  }

  lemma {:induction false} ItemsJoin(f: nat -> Bytes, items: seq<Json>, parts: seq<Bytes>)
    requires |parts| == |items| && forall i :: 0 <= i < |items| ==> parts[i] == Encode(f, items[i])
    ensures EncodeItems(f, items) == Commas(parts)
    decreases |items|
  {
    hide Encode;
    if items != [] {
      ItemsJoin(f, items[1..], parts[1..]);
      assert Ascii(",") == [0x2c];
    }
  }

  lemma {:induction false} MembersJoin(f: nat -> Bytes, ms: seq<Keyed<Json>>, keys: seq<Bytes>, parts: seq<Bytes>)
    requires |keys| == |parts| == |ms|
    requires forall i :: 0 <= i < |ms| ==> keys[i] == Quoted(ms[i].key) && parts[i] == Encode(f, ms[i].value)
    ensures EncodeMembers(f, ms) == Commas(Pairs(keys, parts))
    decreases |ms|
  {
    hide Encode, Quoted;
    if ms != [] {
      var all := Pairs(keys, parts);
      assert Pairs(keys[1..], parts[1..]) == all[1..];
      MembersJoin(f, ms[1..], keys[1..], parts[1..]);
      assert Ascii(",") == [0x2c] && Ascii(":") == [0x3a];
      assert all[0] == Quoted(ms[0].key) + [0x3a] + Encode(f, ms[0].value);
    }
  }
}
