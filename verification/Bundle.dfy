/** The MLB1 bundle format: writer, parser, and why they are inverse. SHA-256, the
    JSON parsers and the path syntax are parameters. */
module Bundle {
  import opened Basics
  import opened KeySort
  import opened CanonicalJson

  datatype Result<+T> = Ok(value: T) | Err(error: Error)

  datatype Error =
    | TooShort | BadMagic | U32OutOfRange | U16OutOfRange | TooManyModules
    | HeaderExceeds | ManifestExceeds | BadHeaderJson | BadManifestJson
    | PathLength | PathExceeds | BadPath | ContentLength | DigestExceeds | ContentExceeds
    | DigestMismatch | NotSorted | TotalTooLarge | FooterPosition | FooterMismatch

  /** What the format takes for granted: a 32-byte hash, the JSON reader, how a double
      is printed, and which manifest texts and module paths are accepted. */
  datatype Host = Host(hash: Bytes -> Bytes, decode: Bytes -> Option<Json>, floatText: nat -> Bytes,
                       manifestOk: Bytes -> bool, pathOk: Bytes -> bool)

  ghost predicate HostOk(host: Host) {
    forall b :: |host.hash(b)| == 32
  }

  /** A path and the content found there. */
  type Module = Keyed<Bytes>

  /** A bundle with the texts of its header and manifest. */
  datatype Raw = Raw(header: Bytes, manifest: Bytes, modules: seq<Module>)

  /** A bundle with their values. */
  datatype Contents = Contents(header: Json, manifest: Json, modules: seq<Module>)

  predicate HeaderOk(host: Host, b: Bytes) { host.decode(b).Some? }

  predicate ManifestOk(host: Host, b: Bytes) { host.manifestOk(b) && host.decode(b).Some? }

  const MAX_MODULES: nat := 4096
  const MAX_MODULE_BYTES: nat := 16 * 1024 * 1024
  const MAX_TOTAL_BYTES: nat := 64 * 1024 * 1024
  const MAX_PATH: nat := 1024
  const MAGIC: Bytes := [0x4d, 0x4c, 0x42, 0x31]
  const U32: nat := 0x1_0000_0000

  // ----- big-endian integers -----

  function Be32(n: nat): (b: Bytes)
    ensures |b| == 4
  {
    [n / 0x1000000 % 256, n / 0x10000 % 256, n / 0x100 % 256, n % 256]
  }

  function Be16(n: nat): (b: Bytes)
    ensures |b| == 2
  {
    [n / 0x100 % 256, n % 256]
  }

  function Join(hi: nat, b: byte): nat { hi * 256 + b }

  function ReadU32(s: Bytes, off: nat): Result<nat> {
    if off + 4 > |s| then Err(U32OutOfRange)
    else Ok(Join(Join(Join(s[off], s[off + 1]), s[off + 2]), s[off + 3]))
  }

  function ReadU16(s: Bytes, off: nat): Result<nat> {
    if off + 2 > |s| then Err(U16OutOfRange)
    else Ok(Join(s[off], s[off + 1]))
  }

  /** Reading inverts writing below 2^32, and writing inverts reading. */
  lemma {:induction false} U32RoundTrip(s: Bytes, off: nat, n: nat)
    requires n < U32 && off + 4 <= |s|
    ensures s[off..off + 4] == Be32(n) <==> ReadU32(s, off) == Ok(n)
  {
    var t := s[off..off + 4];
    assert t == [s[off], s[off + 1], s[off + 2], s[off + 3]];
    FourBytes(s[off], s[off + 1], s[off + 2], s[off + 3], n);
  }

  lemma {:induction false} LastByte(hi: nat, b: byte, n: nat)
    ensures Join(hi, b) == n <==> hi == n / 256 && b == n % 256
  {}

  lemma {:induction false} FourBytes(a: byte, b: byte, c: byte, d: byte, n: nat)
    requires n < U32
    ensures Join(Join(Join(a, b), c), d) == n <==> [a, b, c, d] == Be32(n)
  {
    LastByte(Join(Join(a, b), c), d, n);
    LastByte(Join(a, b), c, n / 256);
    LastByte(a, b, n / 256 / 256);
    assert n / 256 / 256 == n / 0x10000 && n / 256 / 256 / 256 == n / 0x1000000 < 256;
    hide Join;
    var w := Be32(n);
    assert w[0] == n / 0x1000000 && w[1] == n / 256 / 256 % 256 && w[2] == n / 256 % 256 && w[3] == n % 256;
    if [a, b, c, d] == w {
      assert [a, b, c, d][0] == a && [a, b, c, d][1] == b && [a, b, c, d][2] == c && [a, b, c, d][3] == d;
    }
  }

  lemma {:induction false} U16RoundTrip(s: Bytes, off: nat, n: nat)
    requires n < 0x10000 && off + 2 <= |s|
    ensures s[off..off + 2] == Be16(n) <==> ReadU16(s, off) == Ok(n)
  {
    var t := s[off..off + 2];
    assert t[0] == s[off] && t[1] == s[off + 1];
  }

  /** The high byte comes first. */
  lemma {:induction false} BigEndian(n: nat)
    ensures n < 0x10000 ==> Be16(n)[0] == n / 256 && Be16(n)[1] == n % 256
    ensures n < U32 ==>
      var b := Be32(n);
      (b[0] as int) * 0x1000000 + (b[1] as int) * 0x10000 + (b[2] as int) * 0x100 + (b[3] as int) == n
  {
    assert n / 0x10000 == n / 256 / 256 && n / 0x1000000 == n / 256 / 256 / 256;
  }

  lemma {:induction false} ReadBounds(s: Bytes, off: nat)
    ensures ReadU32(s, off).Ok? ==> ReadU32(s, off).value < U32 && off + 4 <= |s|
    ensures ReadU16(s, off).Ok? ==> ReadU16(s, off).value < 0x10000 && off + 2 <= |s|
  {}

  // ----- writer -----

  function WriteModule(host: Host, m: Module): Bytes {
    Be16(|m.key|) + m.key + Be32(|m.value|) + host.hash(m.value) + m.value
  }

  function WriteModules(host: Host, ms: seq<Module>): Bytes {
    if ms == [] then [] else WriteModule(host, ms[0]) + WriteModules(host, ms[1..])
  }

  function Front(c: Raw): Bytes {
    MAGIC + Be32(|c.header|) + Be32(|c.manifest|) + Be32(|c.modules|) + c.header + c.manifest
  }

  /** The canonical buffer of sorted modules. */
  function Layout(host: Host, c: Raw): Bytes {
    var body := Front(c) + WriteModules(host, c.modules);
    body + host.hash(body)
  }

  /** The texts that are written, and the modules in their order. */
  function Serialized(host: Host, c: Contents): Raw {
    Raw(ToText(host.floatText, c.header), ToText(host.floatText, c.manifest), SortKeyed(c.modules))
  }

  function Write(host: Host, c: Contents): Bytes { Layout(host, Serialized(host, c)) }

  // ----- parser -----

  predicate Follows(prev: seq<Module>, m: Module) {
    prev == [] || Before(prev[|prev| - 1].key, m.key)
  }

  /** One module record at off. */
  function ReadModule(host: Host, s: Bytes, off: nat): Result<(Module, nat)> {
    var plen := ReadU16(s, off);
    if plen.Err? then Err(plen.error)
    else if plen.value == 0 || plen.value > MAX_PATH then Err(PathLength)
    else if off + 2 + plen.value > |s| then Err(PathExceeds)
    else
      var p := off + 2 + plen.value;
      var path := s[off + 2..p];
      if !host.pathOk(path) then Err(BadPath)
      else
        var clen := ReadU32(s, p);
        if clen.Err? then Err(clen.error)
        else if clen.value > MAX_MODULE_BYTES then Err(ContentLength)
        else if p + 4 + 32 > |s| then Err(DigestExceeds)
        else if p + 36 + clen.value > |s| then Err(ContentExceeds)
        else
          var content := s[p + 36..p + 36 + clen.value];
          if s[p + 4..p + 36] != host.hash(content) then Err(DigestMismatch)
          else Ok((Keyed(path, content), p + 36 + clen.value))
  }

  /** n more records; acc holds the ones before, for the order check. */
  function ReadModules(host: Host, s: Bytes, off: nat, acc: seq<Module>, n: nat): Result<(seq<Module>, nat)>
    decreases n
  {
    if n == 0 then Ok((acc, off))
    else
      var r := ReadModule(host, s, off);
      if r.Err? then Err(r.error)
      else if !Follows(acc, r.value.0) then Err(NotSorted)
      else ReadModules(host, s, r.value.1, acc + [r.value.0], n - 1)
  }

  function Total(ms: seq<Module>): nat {
    if ms == [] then 0 else |ms[0].value| + Total(ms[1..])
  }

  /** Total adds up the sizes. */
  lemma {:induction false} TotalExact(ms: seq<Module>, ns: seq<Module>)
    ensures Total(ms + ns) == Total(ms) + Total(ns)
    ensures |ms| == 1 ==> Total(ms) == |ms[0].value|
  {
    if ms == [] {
      assert ms + ns == ns;
    } else {
      assert (ms + ns)[1..] == ms[1..] + ns;
      TotalExact(ms[1..], ns);
    }
  }

  function ParseRaw(host: Host, s: Bytes): Result<Raw> {
    if |s| < 16 then Err(TooShort)
    else if s[0..4] != MAGIC then Err(BadMagic)
    else
      var hlen, mlen, count := ReadU32(s, 4), ReadU32(s, 8), ReadU32(s, 12);
      if hlen.Err? then Err(hlen.error)
      else if mlen.Err? then Err(mlen.error)
      else if count.Err? then Err(count.error)
      else if count.value > MAX_MODULES then Err(TooManyModules)
      else if 16 + hlen.value > |s| then Err(HeaderExceeds)
      else if 16 + hlen.value + mlen.value > |s| then Err(ManifestExceeds)
      else
        var h := 16 + hlen.value;
        var m := h + mlen.value;
        if !HeaderOk(host, s[16..h]) then Err(BadHeaderJson)
        else if !ManifestOk(host, s[h..m]) then Err(BadManifestJson)
        else ParseModules(host, s, s[16..h], s[h..m], m, count.value)
  }

  /** The modules, the total size and the footer. */
  function ParseModules(host: Host, s: Bytes, header: Bytes, manifest: Bytes, off: nat, count: nat): Result<Raw> {
    var r := ReadModules(host, s, off, [], count);
    if r.Err? then Err(r.error)
    else if Total(r.value.0) > MAX_TOTAL_BYTES then Err(TotalTooLarge)
    else if r.value.1 + 32 != |s| then Err(FooterPosition)
    else if s[r.value.1..r.value.1 + 32] != host.hash(s[..r.value.1]) then Err(FooterMismatch)
    else Ok(Raw(header, manifest, r.value.0))
  }

  function Parse(host: Host, s: Bytes): Result<Contents> {
    var r := ParseRaw(host, s);
    if r.Err? then Err(r.error) else Decoded(host, r.value)
  }

  /** The header is read before the manifest; ParseRaw has made sure of both. */
  function Decoded(host: Host, r: Raw): Result<Contents> {
    var h, m := host.decode(r.header), host.decode(r.manifest);
    if h.None? then Err(BadHeaderJson)
    else if m.None? then Err(BadManifestJson)
    else Ok(Contents(h.value, m.value, r.modules))
  }

  // ----- one record -----

  /** A module that may appear in a bundle. */
  predicate ModuleOk(host: Host, m: Module) {
    1 <= |m.key| <= 1024 && host.pathOk(m.key) && |m.value| <= 16777216
  }

  /** A record is read if and only if it was written. */
  lemma {:induction false} ReadWrittenModule(host: Host, s: Bytes, off: nat, m: Module)
    requires HostOk(host) && ModuleOk(host, m) && off <= |s|
    requires var w := WriteModule(host, m); off + |w| <= |s| && s[off..off + |w|] == w
    ensures ReadModule(host, s, off) == Ok((m, off + |WriteModule(host, m)|))
  {
    hide Be16, Be32, ReadU16, ReadU32, Before;
    var w := WriteModule(host, m);
    var n, c := |m.key|, |m.value|;
    assert |w| == 2 + n + 4 + 32 + c;
    RecordParts(Be16(n), m.key, Be32(c), host.hash(m.value), m.value);
    var p := off + 2 + n;
    Piece(s, off, w, 0, 2);
    Piece(s, off, w, 2, 2 + n);
    Piece(s, off, w, 2 + n, 6 + n);
    Piece(s, off, w, 6 + n, 38 + n);
    Piece(s, off, w, 38 + n, 38 + n + c);
    U16RoundTrip(s, off, n);
    U32RoundTrip(s, p, c);
  }

  lemma {:induction false} RecordParts(a: Bytes, b: Bytes, c: Bytes, d: Bytes, e: Bytes)
    ensures var w := a + b + c + d + e;
            var i, j, k, l := |a|, |a| + |b|, |a| + |b| + |c|, |a| + |b| + |c| + |d|;
            w[0..i] == a && w[i..j] == b && w[j..k] == c && w[k..l] == d && w[l..l + |e|] == e
  {}

  lemma {:induction false} Piece(s: Bytes, off: nat, w: Bytes, i: nat, j: nat)
    requires off + |w| <= |s| && s[off..off + |w|] == w && i <= j <= |w|
    ensures s[off + i..off + j] == w[i..j]
  {
    forall k | 0 <= k < j - i ensures s[off + i..off + j][k] == w[i..j][k] {
      assert w[i + k] == s[off..off + |w|][i + k] == s[off + (i + k)];
    }
  }

  lemma {:induction false} FiveSlices(s: Bytes, a: nat, b: nat, c: nat, d: nat, e: nat, f: nat)
    requires a <= b <= c <= d <= e <= f <= |s|
    ensures s[a..f] == s[a..b] + s[b..c] + s[c..d] + s[d..e] + s[e..f]
  {
    assert s[a..c] == s[a..b] + s[b..c];
    assert s[a..d] == s[a..c] + s[c..d];
    assert s[a..e] == s[a..d] + s[d..e];
    assert s[a..f] == s[a..e] + s[e..f];
  }

  lemma {:induction false} WrittenModuleRead(host: Host, s: Bytes, off: nat)
    requires HostOk(host) && ReadModule(host, s, off).Ok?
    ensures var m, end := ReadModule(host, s, off).value.0, ReadModule(host, s, off).value.1;
            ModuleOk(host, m) && off <= end <= |s| && s[off..end] == WriteModule(host, m)
  {
    hide Be16, Be32, ReadU16, ReadU32;
    var m, end := ReadModule(host, s, off).value.0, ReadModule(host, s, off).value.1;
    ReadBounds(s, off);
    var p := off + 2 + |m.key|;
    ReadBounds(s, p);
    U16RoundTrip(s, off, |m.key|);
    U32RoundTrip(s, p, |m.value|);
    FiveSlices(s, off, off + 2, p, p + 4, p + 36, end);
  }

  // ----- all records -----

  predicate ModulesOk(host: Host, ms: seq<Module>) {
    forall i :: 0 <= i < |ms| ==> ModuleOk(host, ms[i])
  }

  /** acc and then ms, in order. */
  predicate Extends(acc: seq<Module>, ms: seq<Module>) {
    Sorted(ms) && (ms == [] || Follows(acc, ms[0]))
  }

  lemma {:induction false} ReadWrittenModules(host: Host, s: Bytes, off: nat, acc: seq<Module>, ms: seq<Module>)
    requires HostOk(host) && ModulesOk(host, ms) && Extends(acc, ms)
    requires var w := WriteModules(host, ms); off + |w| <= |s| && s[off..off + |w|] == w
    ensures ReadModules(host, s, off, acc, |ms|) == Ok((acc + ms, off + |WriteModules(host, ms)|))
    decreases |ms|
  {
    hide WriteModule, ReadModule, Before, ModuleOk, HostOk;
    if ms == [] {
      assert acc + ms == acc;
    } else {
      var w, x, y := WriteModules(host, ms), WriteModule(host, ms[0]), WriteModules(host, ms[1..]);
      Piece(s, off, w, 0, |x|);
      Piece(s, off, w, |x|, |w|);
      assert w[0..|x|] == x && w[|x|..|w|] == y;
      ReadWrittenModule(host, s, off, ms[0]);
      SortedTail(ms);
      if |ms| > 1 {
        assert Before(ms[0].key, ms[0 + 1].key);
      }
      ReadWrittenModules(host, s, off + |x|, acc + [ms[0]], ms[1..]);
      assert acc + [ms[0]] + ms[1..] == acc + ms;
    }
  }

  /** s[off..end] is exactly the records of ms, valid and in order after acc. */
  ghost predicate Spans(host: Host, s: Bytes, off: nat, end: nat, acc: seq<Module>, ms: seq<Module>) {
    && off <= end <= |s| && s[off..end] == WriteModules(host, ms)
    && ModulesOk(host, ms) && Extends(acc, ms)
  }

  lemma {:induction false} SpansCons(host: Host, s: Bytes, off: nat, mid: nat, end: nat, acc: seq<Module>, m: Module,
          ms: seq<Module>)
    requires off <= mid <= |s| && s[off..mid] == WriteModule(host, m) && ModuleOk(host, m) && Follows(acc, m)
    requires Spans(host, s, mid, end, acc + [m], ms)
    ensures Spans(host, s, off, end, acc, [m] + ms)
  {
    hide WriteModule, ModuleOk, Before;
    SortedCons(m, ms);
    assert ([m] + ms)[1..] == ms;
    assert s[off..end] == s[off..mid] + s[mid..end];
  }

  lemma {:induction false} WrittenModulesRead(host: Host, s: Bytes, off: nat, acc: seq<Module>, n: nat)
    returns (ms: seq<Module>)
    requires HostOk(host) && off <= |s| && ReadModules(host, s, off, acc, n).Ok?
    ensures var r := ReadModules(host, s, off, acc, n).value;
            r.0 == acc + ms && |ms| == n && Spans(host, s, off, r.1, acc, ms)
    decreases n
  {
    hide WriteModule, ReadModule, ModuleOk, Follows;
    if n == 0 {
      ms := [];
      assert s[off..off] == [];
    } else {
      var m, mid := ReadModule(host, s, off).value.0, ReadModule(host, s, off).value.1;
      WrittenModuleRead(host, s, off);
      var rest := WrittenModulesRead(host, s, mid, acc + [m], n - 1);
      ms := [m] + rest;
      hide Spans;
      SpansCons(host, s, off, mid, ReadModules(host, s, off, acc, n).value.1, acc, m, rest);
      assert acc + [m] + rest == acc + ms;
    }
  }

  // ----- the whole buffer -----

  /** What a bundle may contain: sorted valid modules within the caps, accepted
      header and manifest. */
  ghost predicate RawOk(host: Host, c: Raw) {
    && |c.header| < U32 && |c.manifest| < U32 && HeaderOk(host, c.header) && ManifestOk(host, c.manifest)
    && |c.modules| <= 4096 && ModulesOk(host, c.modules) && Sorted(c.modules)
    && Total(c.modules) <= 67108864
  }

  lemma {:induction false} FrontParts(s: Bytes, c: Raw)
    requires |Front(c)| <= |s| && s[..|Front(c)|] == Front(c)
    ensures |Front(c)| == 16 + |c.header| + |c.manifest|
    ensures s[0..4] == ['M' as nat, 'L' as nat, 'B' as nat, '1' as nat] && s[4..8] == Be32(|c.header|)
            && s[8..12] == Be32(|c.manifest|)
            && s[12..16] == Be32(|c.modules|)
    ensures s[16..16 + |c.header|] == c.header
    ensures s[16 + |c.header|..16 + |c.header| + |c.manifest|] == c.manifest
  {
    hide Be32;
    var w, h := Front(c), 16 + |c.header|;
    assert s[0..0 + |w|] == s[..|w|];
    Piece(s, 0, w, 0, 4);
    Piece(s, 0, w, 4, 8);
    Piece(s, 0, w, 8, 12);
    Piece(s, 0, w, 12, 16);
    Piece(s, 0, w, 16, h);
    Piece(s, 0, w, h, h + |c.manifest|);
    SixParts(MAGIC, Be32(|c.header|), Be32(|c.manifest|), Be32(|c.modules|), c.header, c.manifest);
  }

  lemma {:induction false} SixParts(a: Bytes, b: Bytes, c: Bytes, d: Bytes, e: Bytes, f: Bytes)
    requires |a| == 4 && |b| == 4 && |c| == 4 && |d| == 4
    ensures var w := a + b + c + d + e + f;
            && w[0..4] == a && w[4..8] == b && w[8..12] == c && w[12..16] == d
            && w[16..16 + |e|] == e && w[16 + |e|..16 + |e| + |f|] == f
  {}

  /** Every well-formed content is read back from its layout. */
  lemma {:induction false} ParseLayout(host: Host, c: Raw)
    requires HostOk(host) && RawOk(host, c)
    ensures ParseRaw(host, Layout(host, c)) == Ok(c)
  {
    hide Be32, ReadU32, WriteModules, ReadModules, Total, ModulesOk, Sorted;
    var s, f, w := Layout(host, c), Front(c), WriteModules(host, c.modules);
    var body := f + w;
    assert s[..|f|] == f && s[|f|..|f| + |w|] == w && s[..|body|] == body;
    FrontParts(s, c);
    U32RoundTrip(s, 4, |c.header|);
    U32RoundTrip(s, 8, |c.manifest|);
    U32RoundTrip(s, 12, |c.modules|);
    ReadWrittenModules(host, s, |f|, [], c.modules);
    assert [] + c.modules == c.modules;
    assert s[|body|..|body| + 32] == host.hash(body);
  }

  /** Every accepted buffer is the layout of what was read: nothing is skipped, and
      the content determines the buffer. */
  lemma {:induction false} LayoutParse(host: Host, s: Bytes)
    requires HostOk(host) && ParseRaw(host, s).Ok?
    ensures RawOk(host, ParseRaw(host, s).value) && s == Layout(host, ParseRaw(host, s).value)
  {
    hide Be32, ReadU32, WriteModules, ReadModules, Total, ModulesOk, Sorted;
    var c := ParseRaw(host, s).value;
    ReadBounds(s, 4);
    ReadBounds(s, 8);
    ReadBounds(s, 12);
    U32RoundTrip(s, 4, |c.header|);
    U32RoundTrip(s, 8, |c.manifest|);
    var h := 16 + |c.header|;
    var m := h + |c.manifest|;
    var n := ReadU32(s, 12).value;
    var ms := WrittenModulesRead(host, s, m, [], n);
    var r := ReadModules(host, s, m, [], n).value;
    assert [] + ms == ms == c.modules;
    U32RoundTrip(s, 12, |c.modules|);
    var e := r.1;
    FiveSlices(s, 0, 4, 8, 12, 16, h);
    assert s[..m] == s[0..h] + s[h..m];
    assert s[..e] == s[..m] + s[m..e];
    assert s == s[..e] + s[e..e + 32];
  }

  lemma {:induction false} ByteStep(x: nat, r: nat)
    ensures (x * 256 + r) / 256 == x + r / 256 && (x * 256 + r) % 256 == r % 256
  {}

  lemma {:induction false} Be32Steps(n: nat)
    ensures Be32(n) == [n / 256 / 256 / 256 % 256, n / 256 / 256 % 256, n / 256 % 256, n % 256]
  {
    assert n / 256 / 256 == n / 0x10000;
    assert n / 256 / 256 / 256 == n / 0x1000000;
  }

  lemma {:induction false} Be32Low(n: nat)
    ensures Be32(n) == Be32(n % U32)
  {
    hide Be32;
    var q, r := n / U32, n % U32;
    Be32Steps(n);
    Be32Steps(r);
    ByteStep(q * 0x1000000, r);
    ByteStep(q * 0x10000, r / 256);
    ByteStep(q * 0x100, r / 256 / 256);
    ByteStep(q, r / 256 / 256 / 256);
  }

  lemma {:induction false} Be32Injective(n: nat, k: nat)
    requires Be32(n) == Be32(k)
    ensures n % U32 == k % U32
  {
    Be32Low(n);
    Be32Low(k);
    hide Be32;
    var w := Be32(n);
    assert w == [w[0], w[1], w[2], w[3]];
    FourBytes(w[0], w[1], w[2], w[3], n % U32);
    FourBytes(w[0], w[1], w[2], w[3], k % U32);
  }

  /** Lengths that agree modulo 2^32 and in their sum, one pair below 2^32. */
  lemma {:induction false} LengthsAgree(a: nat, b: nat, c: nat, d: nat)
    requires a % U32 == c % U32 && a + b == c + d && a < U32 && b < U32
    ensures a == c && b == d
  {}

  /** The layout determines header and manifest, even where a length field of the
      other one wrapped around. */
  lemma {:induction false} LayoutInjective(host: Host, r: Raw, q: Raw)
    requires HostOk(host) && Layout(host, r) == Layout(host, q) && r.modules == q.modules
    requires |r.header| < U32 && |r.manifest| < U32
    ensures r == q
  {
    hide Be32, WriteModules;
    var s, f, g := Layout(host, r), Front(r), Front(q);
    var w := WriteModules(host, r.modules);
    assert s[..|f|] == f && s[..|g|] == g;
    FrontParts(s, r);
    FrontParts(s, q);
    assert |s| == |f| + |w| + 32 == |g| + |w| + 32;
    Be32Injective(|r.header|, |q.header|);
    LengthsAgree(|r.header|, |r.manifest|, |q.header|, |q.manifest|);
  }

  /** What comes back from its own buffer: values that their canonical text is read
      as, with distinct, valid modules within the caps. */
  ghost predicate Restorable(host: Host, c: Contents) {
    var r := Serialized(host, c);
    && host.decode(r.header) == Some(c.header) && host.decode(r.manifest) == Some(c.manifest)
    && host.manifestOk(r.manifest) && |r.header| < U32 && |r.manifest| < U32
    && Distinct(c.modules) && ModulesOk(host, c.modules)
    && |c.modules| <= 4096 && Total(c.modules) <= 67108864
  }

  /** parse(write(x)) returns x, its modules sorted by path, if and only if header and
      manifest are what their canonical texts are read as and the rest is valid. */
  lemma {:induction false} WriteThenParse(host: Host, c: Contents)
    requires HostOk(host)
    ensures Parse(host, Write(host, c)) == Ok(c.(modules := SortKeyed(c.modules))) <==> Restorable(host, c)
  {
    var r, s := Serialized(host, c), Write(host, c);
    SortPermutes(c.modules);
    SortTotal(c.modules);
    if Restorable(host, c) {
      SortSorts(c.modules);
      PermutedOk(host, c.modules, r.modules);
      hide SortKeyed, Layout, ParseRaw, Total, ModulesOk, Sorted, ToText;
      ParseLayout(host, r);
    }
    if Parse(host, s) == Ok(c.(modules := SortKeyed(c.modules))) {
      LayoutParse(host, s);
      hide SortKeyed, Layout, ParseRaw, Total, ModulesOk, Sorted, ToText;
      LayoutInjective(host, ParseRaw(host, s).value, r);
      PermutedOk(host, r.modules, c.modules);
      SortedDistinct(r.modules);
      DistinctPermuted(c.modules, r.modules);
    }
  }

  lemma {:induction false} PermutedOk(host: Host, ms: seq<Module>, t: seq<Module>)
    requires multiset(t) == multiset(ms) && ModulesOk(host, ms)
    ensures ModulesOk(host, t) && |t| == |ms|
  {
    hide ModuleOk;
    assert |multiset(t)| == |t| && |multiset(ms)| == |ms|;
    forall i | 0 <= i < |t| ensures ModuleOk(host, t[i]) {
      assert t[i] in multiset(ms);
      var k :| 0 <= k < |ms| && ms[k] == t[i];
    }
  }

  lemma {:induction false} InsertTotal(m: Module, ms: seq<Module>)
    ensures Total(Insert(m, ms)) == |m.value| + Total(ms)
  {
    if ms != [] && Before(ms[0].key, m.key) {
      InsertTotal(m, ms[1..]);
    }
  }

  lemma {:induction false} SortTotal(ms: seq<Module>)
    ensures Total(SortKeyed(ms)) == Total(ms)
  {
    if ms != [] {
      SortTotal(ms[1..]);
      InsertTotal(ms[0], SortKeyed(ms[1..]));
    }
  }

  /** Header and manifest of an accepted buffer were canonical. */
  ghost predicate WasCanonical(host: Host, r: Raw)
    requires HeaderOk(host, r.header) && ManifestOk(host, r.manifest)
  {
    && ToText(host.floatText, host.decode(r.header).value) == r.header
    && ToText(host.floatText, host.decode(r.manifest).value) == r.manifest
  }

  /** Writing what was read gives the same bytes back if and only if header and
      manifest were canonical. */
  lemma {:induction false} ParseThenWrite(host: Host, s: Bytes)
    requires HostOk(host) && Parse(host, s).Ok?
    ensures ParseRaw(host, s).Ok? && RawOk(host, ParseRaw(host, s).value)
    ensures Write(host, Parse(host, s).value) == s <==> WasCanonical(host, ParseRaw(host, s).value)
  {
    LayoutParse(host, s);
    hide ParseRaw, Layout, ToText;
    var r := ParseRaw(host, s).value;
    SortOfSorted(r.modules);
    var q := Serialized(host, Parse(host, s).value);
    assert q.modules == r.modules;
    if Layout(host, q) == s {
      LayoutInjective(host, r, q);
    }
  }

  /** Accepted buffers with the same header, manifest and modules are identical. */
  lemma {:induction false} AcceptedUnique(host: Host, s: Bytes, t: Bytes)
    requires HostOk(host) && ParseRaw(host, s).Ok? && ParseRaw(host, s) == ParseRaw(host, t)
    ensures s == t
  {
    hide ParseRaw, Layout;
    LayoutParse(host, s);
    LayoutParse(host, t);
  }

  // ----- bundles that do not come back unchanged -----

  const EMPTY_OBJECT: Bytes := [0x7b, 0x7d]
  const SPACED_OBJECT: Bytes := [0x7b, 0x20, 0x7d]

  lemma {:induction false} EmptyObjectText(floatText: nat -> Bytes)
    ensures ToText(floatText, Object([])) == EMPTY_OBJECT
  {
    assert [0x7b] + [] + [0x7d] == EMPTY_OBJECT;
  }

  /** A header "{ }" that is read as the empty object is written back as "{}". */
  lemma {:induction false} SpacesAreLost(host: Host, s: Bytes)
    requires HostOk(host) && Parse(host, s).Ok? && ParseRaw(host, s).value.header == SPACED_OBJECT
    requires host.decode(SPACED_OBJECT) == Some(Object([]))
    ensures Write(host, Parse(host, s).value) != s
  {
    hide ParseRaw, Write, ToText, RawOk;
    ParseThenWrite(host, s);
    EmptyObjectText(host.floatText);
    assert |SPACED_OBJECT| != |EMPTY_OBJECT|;
  }

  /** Such a bundle exists. */
  lemma {:induction false} SpacedBundle(host: Host) returns (s: Bytes)
    requires HostOk(host) && host.decode(SPACED_OBJECT) == Some(Object([])) && ManifestOk(host, EMPTY_OBJECT)
    ensures Parse(host, s).Ok? && Write(host, Parse(host, s).value) != s
  {
    var r := Raw(SPACED_OBJECT, EMPTY_OBJECT, []);
    s := Layout(host, r);
    assert RawOk(host, r);
    hide ParseRaw, Layout, Write, RawOk;
    ParseLayout(host, r);
    SpacesAreLost(host, s);
  }

  /** A header value with keys out of order is not what its canonical text is read
      as, if the reader keeps the order of the text. */
  lemma {:induction false} KeysAreReordered(host: Host, c: Contents)
    requires HostOk(host) && c.header == Object([Keyed([0x62], Null), Keyed([0x61], Null)])
    requires host.decode(ToText(host.floatText, c.header)) == Some(Object([Keyed([0x61], Null), Keyed([0x62], Null)]))
    ensures Parse(host, Write(host, c)) != Ok(c.(modules := SortKeyed(c.modules)))
  {
    hide Write, Parse, ToText;
    WriteThenParse(host, c);
    var a, b: Keyed<Json> := Keyed([0x61], Null), Keyed([0x62], Null);
    assert [a, b][0] != [b, a][0];
  }

  // ----- the loops of the implementation -----

  lemma {:induction false} XorBits(u: bv8, v: bv8, acc: bv8)
    ensures acc | (u ^ v) == 0 <==> acc == 0 && u == v
  {}

  /** Comparison that looks at every byte. */
  method CtEqBytes(a: seq<bv8>, b: seq<bv8>) returns (eq: bool)
    ensures eq <==> a == b
  {
    if |a| != |b| {
      return false;
    }
    var acc: bv8 := 0;
    var i := 0;
    while i < |a|
      invariant 0 <= i <= |a| && (acc == 0 <==> a[..i] == b[..i])
    {
      XorBits(a[i], b[i], acc);
      assert a[..i + 1] == a[..i] + [a[i]] && b[..i + 1] == b[..i] + [b[i]];
      acc := acc | (a[i] ^ b[i]);
      i := i + 1;
    }
    assert a[..i] == a && b[..i] == b;
    eq := acc == 0;
  }

  lemma {:induction false} WriteSnoc(host: Host, ms: seq<Module>, m: Module)
    ensures WriteModules(host, ms + [m]) == WriteModules(host, ms) + WriteModule(host, m)
  {
    if ms == [] {
      assert ms + [m] == [m] && [m][1..] == [];
    } else {
      WriteSnoc(host, ms[1..], m);
      assert (ms + [m])[1..] == ms[1..] + [m];
    }
  }

  /** The writer's buffer, filled piece by piece. */
  method WriteBuffer(host: Host, c: Contents) returns (buf: Bytes)
    ensures buf == Write(host, c)
  {
    hide WriteModule, Be16, Be32, ToText, SortKeyed;
    var sorted := SortKeyed(c.modules);
    var header := ToText(host.floatText, c.header);
    var manifest := ToText(host.floatText, c.manifest);
    buf := ['M' as nat, 'L' as nat, 'B' as nat, '1' as nat];
    buf := buf + Be32(|header|);
    buf := buf + Be32(|manifest|);
    buf := buf + Be32(|sorted|);
    buf := buf + header;
    buf := buf + manifest;
    ghost var front := buf;
    assert front == Front(Serialized(host, c));
    var i := 0;
    assert sorted[..0] == [];
    while i < |sorted|
      invariant 0 <= i <= |sorted| && buf == front + WriteModules(host, sorted[..i])
    {
      WriteSnoc(host, sorted[..i], sorted[i]);
      assert sorted[..i + 1] == sorted[..i] + [sorted[i]];
      buf := buf + WriteModule(host, sorted[i]);
      i := i + 1;
    }
    assert sorted[..i] == sorted;
    buf := buf + host.hash(buf);
  }
}
