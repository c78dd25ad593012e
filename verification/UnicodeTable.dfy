/** Run-length coded property tables: the indexed lookup and the full scan. */
module UnicodeTable {
  import opened Basics
  import opened RegexSyntax
  import opened UnicodeSets

  // ----- the coding -----

  /** Bytes of the code that begins with b. */
  function Size(b: byte): nat {
    if b < 0x40 || b >= 0x80 then 1 else if b < 0x60 then 2 else 3
  }

  /** Whole codes from p to the end. */
  predicate Complete(table: seq<byte>, p: nat)
    decreases |table| - p
  {
    p == |table| || (p < |table| && p + Size(table[p]) <= |table| && Complete(table, p + Size(table[p])))
  }

  function At(table: seq<byte>, i: nat): nat
    requires i < |table|
  {
    table[i]
  }

  /** A run length coded alone: 7 bits, 5 bits and a byte, or 5 bits and two bytes. */
  function Single(table: seq<byte>, p: nat): nat
    requires p < |table| && p + Size(table[p]) <= |table| && table[p] >= 0x40
  {
    if At(table, p) >= 0x80 then At(table, p) - 0x80 + 1
    else if At(table, p) < 0x60 then (At(table, p) - 0x40) * 256 + At(table, p + 1) + 1
    else (At(table, p) - 0x60) * 65536 + At(table, p + 1) * 256 + At(table, p + 2) + 1
  }

  /** The one or two run lengths coded at p. */
  function Code(table: seq<byte>, p: nat): seq<nat>
    requires p < |table| && p + Size(table[p]) <= |table|
  {
    if table[p] < 0x40 then [At(table, p) / 8 + 1, At(table, p) % 8 + 1] else [Single(table, p)]
  }

  function Runs(table: seq<byte>, p: nat): seq<nat>
    requires Complete(table, p)
    decreases |table| - p
  {
    if p == |table| then [] else Code(table, p) + Runs(table, p + Size(table[p]))
  }

  // ----- the coder -----

  /** The forms a run length can be written in: two short ones in a byte, or one of up
      to 7, 13 or 21 bits.  A length is written less one. */
  datatype Form = Packed(first: nat, second: nat) | Bits7(len: nat) | Bits13(len: nat) | Bits21(len: nat)

  predicate Fits(f: Form) {
    match f
    case Packed(a, b) => 1 <= a <= 8 && 1 <= b <= 8
    case Bits7(a) => 1 <= a <= 128
    case Bits13(a) => 1 <= a <= 8192
    case Bits21(a) => 1 <= a <= 2097152
  }

  predicate AllFit(fs: seq<Form>) {
    forall i :: 0 <= i < |fs| ==> Fits(fs[i])
  }

  function Bytes(f: Form): (s: seq<byte>)
    requires Fits(f)
    ensures s != []
  {
    match f
    case Packed(a, b) => [(a - 1) * 8 + (b - 1)]
    case Bits7(a) => [128 + (a - 1)]
    case Bits13(a) => [64 + (a - 1) / 256, (a - 1) % 256]
    case Bits21(a) => [96 + (a - 1) / 65536, (a - 1) / 256 % 256, (a - 1) % 256]
  }

  function Lengths(f: Form): seq<nat> {
    match f
    case Packed(a, b) => [a, b]
    case Bits7(a) => [a]
    case Bits13(a) => [a]
    case Bits21(a) => [a]
  }

  function Coded(fs: seq<Form>): seq<byte>
    requires AllFit(fs)
  {
    if fs == [] then [] else Bytes(fs[0]) + Coded(fs[1..])
  }

  function AllLengths(fs: seq<Form>): seq<nat> {
    if fs == [] then [] else Lengths(fs[0]) + AllLengths(fs[1..])
  }

  lemma {:induction false} Digits256(n: nat)
    ensures n / 65536 * 65536 + n / 256 % 256 * 256 + n % 256 == n
  {
    assert n / 65536 == n / 256 / 256;
  }

  /** A code standing alone. */
  lemma {:induction false} BytesRead(f: Form)
    requires Fits(f)
    ensures Size(Bytes(f)[0]) == |Bytes(f)| && Code(Bytes(f), 0) == Lengths(f)
  {
    if f.Bits21? {
      Digits256(f.len - 1);
    }
  }

  lemma {:induction false} CodeMoved(table: seq<byte>, p: nat, w: seq<byte>)
    requires w != [] && Size(w[0]) == |w| && p + |w| <= |table| && table[p..p + |w|] == w
    ensures p < |table| && table[p] == w[0] && Code(table, p) == Code(w, 0)
  {
    assert table[p] == table[p..p + |w|][0];
    assert |w| > 1 ==> table[p + 1] == table[p..p + |w|][1];
    assert |w| > 2 ==> table[p + 2] == table[p..p + |w|][2];
  }

  /** One code is read back, whatever follows. */
  lemma {:induction false} CodeReads(table: seq<byte>, p: nat, f: Form)
    requires Fits(f) && p + |Bytes(f)| <= |table| && table[p..p + |Bytes(f)|] == Bytes(f)
    ensures p < |table| && Size(table[p]) == |Bytes(f)| && Code(table, p) == Lengths(f)
  {
    hide Bytes, Code, Size, Lengths;
    BytesRead(f);
    CodeMoved(table, p, Bytes(f));
  }

  lemma {:induction false} RunsCoded(table: seq<byte>, p: nat, fs: seq<Form>)
    requires AllFit(fs) && p <= |table| && table[p..] == Coded(fs)
    ensures Complete(table, p) && Runs(table, p) == AllLengths(fs)
    decreases |fs|
  {
    if fs != [] {
      var f, rest := fs[0], fs[1..];
      var w := Bytes(f);
      assert table[p..] == w + Coded(rest);
      assert table[p..p + |w|] == table[p..][..|w|] == w;
      CodeReads(table, p, f);
      assert table[p + |w|..] == table[p..][|w|..] == Coded(rest);
      RunsCoded(table, p + |w|, rest);
    }
  }

  /** Run lengths written in any forms that fit are read back. */
  lemma {:induction false} CodedRuns(fs: seq<Form>)
    requires AllFit(fs)
    ensures Complete(Coded(fs), 0) && Runs(Coded(fs), 0) == AllLengths(fs)
  {
    assert Coded(fs)[0..] == Coded(fs);
    RunsCoded(Coded(fs), 0, fs);
  }

  // ----- the meaning of run lengths -----

  /** Runs alternate, starting with `bit` at `code`; beyond the last, nothing. */
  function Lookup(runs: seq<nat>, code: nat, bit: bool, c: nat): bool {
    if runs == [] then false
    else if c < code + runs[0] then bit
    else Lookup(runs[1..], code + runs[0], !bit, c)
  }

  function Sum(runs: seq<nat>): nat {
    if runs == [] then 0 else runs[0] + Sum(runs[1..])
  }

  /** The intervals of the true runs. */
  function Ranges(runs: seq<nat>, code: nat, bit: bool): seq<nat> {
    if runs == [] then []
    else (if bit then [code, code + runs[0]] else []) + Ranges(runs[1..], code + runs[0], !bit)
  }

  /** Skipping runs that end at or before c. */
  lemma {:induction false} LookupSkip(a: seq<nat>, b: seq<nat>, code: nat, bit: bool, c: nat)
    requires c >= code + Sum(a)
    ensures Lookup(a + b, code, bit, c) == Lookup(b, code + Sum(a), if |a| % 2 == 0 then bit else !bit, c)
  {
    if a == [] {
      assert a + b == b;
    } else {
      assert (a + b)[1..] == a[1..] + b;
      LookupSkip(a[1..], b, code + a[0], !bit, c);
    }
  }

  lemma {:induction false} LookupBeyond(runs: seq<nat>, code: nat, bit: bool, c: nat)
    requires c >= code + Sum(runs)
    ensures !Lookup(runs, code, bit, c)
  {
    if runs != [] {
      LookupBeyond(runs[1..], code + runs[0], !bit, c);
    }
  }

  lemma {:induction false} SumConcat(a: seq<nat>, b: seq<nat>)
    ensures Sum(a + b) == Sum(a) + Sum(b)
  {
    if a == [] {
      assert a + b == b;
    } else {
      assert (a + b)[1..] == a[1..] + b;
      SumConcat(a[1..], b);
    }
  }

  lemma {:induction false} RangesAbove(runs: seq<nat>, code: nat, bit: bool)
    ensures IsIntervalList(Ranges(runs, code, bit))
    ensures forall i :: 0 <= i < |Ranges(runs, code, bit)| ==> Ranges(runs, code, bit)[i] >= code
  {
    if runs != [] {
      RangesAbove(runs[1..], code + runs[0], !bit);
    }
  }

  lemma {:induction false} InSetCons(lo: nat, hi: nat, t: seq<nat>, c: nat)
    requires |t| % 2 == 0
    ensures InSet([lo, hi] + t, c) <==> lo <= c < hi || InSet(t, c)
  {
    var s := [lo, hi] + t;
    if lo <= c < hi {
      assert Lo(s, 0) <= c < Hi(s, 0);
    }
    if InSet(t, c) {
      var i: nat :| i < |t| / 2 && Lo(t, i) <= c < Hi(t, i);
      assert Lo(s, i + 1) == Lo(t, i) && Hi(s, i + 1) == Hi(t, i);
    }
    if InSet(s, c) {
      var i: nat :| i < |s| / 2 && Lo(s, i) <= c < Hi(s, i);
      if i > 0 {
        assert Lo(s, i) == Lo(t, i - 1) && Hi(s, i) == Hi(t, i - 1);
      }
    }
  }

  lemma {:induction false} NotBelow(pts: seq<nat>, code: nat, c: nat)
    requires (forall i :: 0 <= i < |pts| ==> pts[i] >= code) && c < code
    ensures !InSet(pts, c)
  {
    forall i: nat | i < |pts| / 2 ensures !(Lo(pts, i) <= c < Hi(pts, i)) {
      assert pts[2 * i] >= code;
    }
  }

  /** Scanning and listing agree. */
  lemma {:induction false} LookupIsInRanges(runs: seq<nat>, code: nat, bit: bool, c: nat)
    requires c >= code
    ensures Lookup(runs, code, bit, c) <==> InSet(Ranges(runs, code, bit), c)
  {
    if runs != [] {
      var rest := Ranges(runs[1..], code + runs[0], !bit);
      RangesAbove(runs[1..], code + runs[0], !bit);
      if c < code + runs[0] {
        NotBelow(rest, code + runs[0], c);
      } else {
        LookupIsInRanges(runs[1..], code + runs[0], !bit, c);
      }
      if bit {
        InSetCons(code, code + runs[0], rest, c);
      } else {
        assert [] + rest == rest;
      }
    }
  }

  // ----- positions inside a table -----

  /** A code begins at q, counting from the code at p. */
  ghost predicate Boundary(table: seq<byte>, p: nat, q: nat)
    requires Complete(table, p)
    decreases |table| - p
  {
    p == q || (p < |table| && Boundary(table, p + Size(table[p]), q))
  }

  ghost function RunsBetween(table: seq<byte>, p: nat, q: nat): seq<nat>
    requires Complete(table, p) && Boundary(table, p, q)
    decreases |table| - p
  {
    if p == q then [] else Code(table, p) + RunsBetween(table, p + Size(table[p]), q)
  }

  lemma {:induction false} BoundarySplits(table: seq<byte>, p: nat, q: nat)
    requires Complete(table, p) && Boundary(table, p, q)
    ensures Complete(table, q) && Runs(table, p) == RunsBetween(table, p, q) + Runs(table, q)
    decreases |table| - p
  {
    if p != q {
      BoundarySplits(table, p + Size(table[p]), q);
    } else {
      assert [] + Runs(table, q) == Runs(table, q);
    }
  }

  /** At byte offset q the running code is `code`, at false parity. */
  ghost predicate Checkpoint(table: seq<byte>, q: nat, code: nat)
    requires Complete(table, 0)
  {
    Boundary(table, 0, q) && Sum(RunsBetween(table, 0, q)) == code && |RunsBetween(table, 0, q)| % 2 == 0
  }

  lemma {:induction false} FromCheckpoint(table: seq<byte>, q: nat, code: nat, c: nat)
    requires Complete(table, 0) && Checkpoint(table, q, code) && code <= c
    ensures Complete(table, q)
    ensures Lookup(Runs(table, 0), 0, false, c) == Lookup(Runs(table, q), code, false, c)
    ensures Sum(Runs(table, 0)) == code + Sum(Runs(table, q))
  {
    BoundarySplits(table, 0, q);
    LookupSkip(RunsBetween(table, 0, q), Runs(table, q), 0, false, c);
    SumConcat(RunsBetween(table, 0, q), Runs(table, q));
  }

  // ----- the index -----

  const BLOCK: nat := 32
  const CODE_MAX: nat := 0x20_0000

  function Le24(index: seq<byte>, i: nat): nat
    requires 3 * i + 2 < |index|
  {
    At(index, 3 * i) + At(index, 3 * i + 1) * 256 + At(index, 3 * i + 2) * 65536
  }

  /** Entry i points at a checkpoint in block i + 1; the last entry is the total. */
  ghost predicate WellFormedIndex(table: seq<byte>, index: seq<byte>, n: nat)
    requires Complete(table, 0)
  {
    && 1 <= n && |index| == 3 * n
    && Le24(index, n - 1) == Sum(Runs(table, 0)) < CODE_MAX
    && forall i :: 0 <= i < n - 1 ==> EntryOk(table, index, i)
  }

  ghost predicate EntryOk(table: seq<byte>, index: seq<byte>, i: nat)
    requires Complete(table, 0) && 3 * i + 2 < |index|
  {
    Checkpoint(table, (i + 1) * BLOCK + Le24(index, i) / CODE_MAX, Le24(index, i) % CODE_MAX)
  }

  /** get_le24. */
  method GetLe24(index: seq<byte>, i: nat) returns (v: nat)
    requires 3 * i + 2 < |index|
    ensures v == Le24(index, i)
  {
    var p := 3 * i;
    v := At(index, p) + At(index, p + 1) * 0x100 + At(index, p + 2) * 0x1_0000;
  }

  /** Where to start scanning for c: -1 when c lies beyond the table. */
  method GetIndexPos(ghost table: seq<byte>, c: nat, index: seq<byte>, n: nat) returns (pos: int, code: nat)
    requires Complete(table, 0) && WellFormedIndex(table, index, n)
    ensures pos < 0 <==> c >= Sum(Runs(table, 0))
    ensures pos >= 0 ==> Checkpoint(table, pos, code) && code <= c
  {
    var lo := 0;
    var v := GetLe24(index, 0);
    code := v % 0x20_0000;
    if c < code {
      assert n == 1 ==> code == Sum(Runs(table, 0));
      if n > 1 {
        assert EntryOk(table, index, 0);
        CheckpointBelow(table, (0 + 1) * BLOCK + Le24(index, 0) / CODE_MAX, code);
      }
      return 0, 0;
    }
    var hi := n - 1;
    code := GetLe24(index, hi);
    if c >= code {
      return -1, 0;
    }
    while hi - lo > 1
      invariant 0 <= lo < hi < n && Le24(index, lo) % CODE_MAX <= c
    {
      var idx := (hi + lo) / 2;
      v := GetLe24(index, idx);
      code := v % 0x20_0000;
      if c < code {
        hi := idx;
      } else {
        lo := idx;
      }
    }
    assert EntryOk(table, index, lo);
    v := GetLe24(index, lo);
    code := v % 0x20_0000;
    pos := (lo + 1) * 32 + v / 0x20_0000;
  }

  lemma {:induction false} CheckpointBelow(table: seq<byte>, q: nat, code: nat)
    requires Complete(table, 0) && Checkpoint(table, q, code)
    ensures code <= Sum(Runs(table, 0))
  {
    BoundarySplits(table, 0, q);
    SumConcat(RunsBetween(table, 0, q), Runs(table, q));
  }

  lemma {:induction false} Unroll(table: seq<byte>, p: nat, code: nat, bit: bool, c: nat)
    requires Complete(table, p) && p < |table|
    ensures var rest := Runs(table, p + Size(table[p]));
            var k := Code(table, p);
            Complete(table, p + Size(table[p])) && 1 <= |k| <= 2
            && Sum(Runs(table, p)) == Sum(k) + Sum(rest) && Sum(k) == (if |k| == 1 then k[0] else k[0] + k[1])
            && Lookup(Runs(table, p), code, bit, c)
               == if c < code + k[0] then bit
                  else if |k| == 1 then Lookup(rest, code + k[0], !bit, c)
                  else if c < code + k[0] + k[1] then !bit
                  else Lookup(rest, code + k[0] + k[1], bit, c)
  {
    var rest, k := Runs(table, p + Size(table[p])), Code(table, p);
    var all := Runs(table, p);
    SumConcat(k, rest);
    assert all == k + rest;
    if |k| == 1 {
      assert k[1..] == [] && all[1..] == rest;
    } else {
      assert k[1..] == [k[1]] && k[1..][1..] == [];
      assert all[1..] == [k[1]] + rest && all[1..][1..] == rest;
    }
  }

  /** The indexed lookup gives the bit that scanning from the start would give. */
  method IsInTable(c: nat, table: seq<byte>, index: seq<byte>, n: nat) returns (found: bool)
    requires Complete(table, 0) && WellFormedIndex(table, index, n)
    ensures found == Lookup(Runs(table, 0), 0, false, c)
  {
    var p, code := GetIndexPos(table, c, index, n);
    if p < 0 {
      LookupBeyond(Runs(table, 0), 0, false, c);
      return false;
    }
    FromCheckpoint(table, p, code, c);
    found := ScanFrom(c, table, p, code);
  }

  /** Scans from a position at false parity. */
  method ScanFrom(c: nat, table: seq<byte>, p0: nat, code0: nat) returns (found: bool)
    requires Complete(table, p0) && code0 <= c < code0 + Sum(Runs(table, p0))
    ensures found == Lookup(Runs(table, p0), code0, false, c)
  {
    hide Lookup, Runs, Sum, Complete, Single, Code;
    var p, code, bit := p0, code0, false;
    while true
      invariant 0 <= p && 0 <= code <= c && Complete(table, p) && c < code + Sum(Runs(table, p))
      invariant Lookup(Runs(table, p0), code0, false, c) == Lookup(Runs(table, p), code, bit, c)
      decreases |table| - p
    {
      CompleteFacts(table, p, code, c);
      var b := At(table, p);
      p := p + 1;
      if b < 64 {
        UnrollTwo(table, p - 1, code, bit, c);
        code := code + (b / 8 + 1);
        if c < code {
          return bit;
        }
        bit := !bit;
        code := code + (b % 8 + 1);
      } else {
        UnrollOne(table, p - 1, code, bit, c);
        SingleForms(table, p - 1);
        if b >= 0x80 {
          code := code + (b - 0x80 + 1);
        } else if b < 0x60 {
          code := code + ((b - 0x40) * 256 + At(table, p) + 1);
          p := p + 1;
        } else {
          code := code + ((b - 0x60) * 65536 + At(table, p) * 256 + At(table, p + 1) + 1);
          p := p + 2;
        }
      }
      if c < code {
        return bit;
      }
      bit := !bit;
    }
  }

  lemma {:induction false} UnrollTwo(table: seq<byte>, p: nat, code: nat, bit: bool, c: nat)
    requires Complete(table, p) && p < |table| && table[p] < 64
    ensures Complete(table, p + Size(table[p]))
    ensures var rest := Runs(table, p + Size(table[p]));
            var k, l := At(table, p) / 8 + 1, At(table, p) % 8 + 1;
            && Sum(Runs(table, p)) == k + l + Sum(rest)
            && Lookup(Runs(table, p), code, bit, c)
               == if c < code + k then bit else if c < code + k + l then !bit else Lookup(rest, code + k + l, bit, c)
  {
    Unroll(table, p, code, bit, c);
  }

  lemma {:induction false} UnrollOne(table: seq<byte>, p: nat, code: nat, bit: bool, c: nat)
    requires Complete(table, p) && p < |table| && table[p] >= 64
    ensures p + Size(table[p]) <= |table| && Complete(table, p + Size(table[p]))
    ensures var rest := Runs(table, p + Size(table[p]));
            && Sum(Runs(table, p)) == Single(table, p) + Sum(rest)
            && Lookup(Runs(table, p), code, bit, c)
               == if c < code + Single(table, p) then bit else Lookup(rest, code + Single(table, p), !bit, c)
  {
    Unroll(table, p, code, bit, c);
  }

  /** Run lengths coded alone, by their first byte. */
  lemma {:induction false} SingleForms(table: seq<byte>, p: nat)
    requires p < |table| && p + Size(table[p]) <= |table| && table[p] >= 0x40
    ensures table[p] >= 0x80 ==> Size(table[p]) == 1 && Single(table, p) == At(table, p) - 0x80 + 1
    ensures 0x40 <= table[p] < 0x60 ==>
      Size(table[p]) == 2 && Single(table, p) == (At(table, p) - 0x40) * 256 + At(table, p + 1) + 1
    ensures 0x60 <= table[p] < 0x80 ==>
      && Size(table[p]) == 3
      && Single(table, p) == (At(table, p) - 0x60) * 65536 + At(table, p + 1) * 256 + At(table, p + 2) + 1
  {}

  lemma {:induction false} CompleteFacts(table: seq<byte>, p: nat, code: nat, c: nat)
    requires Complete(table, p) && code <= c < code + Sum(Runs(table, p))
    ensures p < |table| && p + Size(table[p]) <= |table| && Complete(table, p + Size(table[p]))
  {}

  // ----- the full scan -----

  lemma {:induction false} UnrollRanges(table: seq<byte>, p: nat, code: nat, bit: bool)
    requires Complete(table, p) && p < |table|
    ensures var rest := Runs(table, p + Size(table[p]));
            var k := Code(table, p);
            Complete(table, p + Size(table[p])) && 1 <= |k| <= 2
            && Ranges(Runs(table, p), code, bit)
               == if |k| == 1 then (if bit then [code, code + k[0]] else []) + Ranges(rest, code + k[0], !bit)
                  else if bit then [code, code + k[0]] + Ranges(rest, code + k[0] + k[1], bit)
                  else [code + k[0], code + k[0] + k[1]] + Ranges(rest, code + k[0] + k[1], bit)
  {
    var rest, k := Runs(table, p + Size(table[p])), Code(table, p);
    var all := Runs(table, p);
    assert all == k + rest;
    if |k| == 1 {
      assert all[1..] == rest;
    } else {
      assert all[1..] == [k[1]] + rest && all[1..][1..] == rest;
    }
  }

  /** One code moves its runs from the ranges to come to the ranges listed. */
  lemma {:induction false} RangesStep(table: seq<byte>, p: nat, c: nat, bit: bool, before: seq<nat>, all: seq<nat>)
    requires Complete(table, p) && p < |table| && before + Ranges(Runs(table, p), c, bit) == all
    ensures p + Size(table[p]) <= |table| && Complete(table, p + Size(table[p]))
    ensures table[p] < 64 ==>
      var k, l := At(table, p) / 8 + 1, At(table, p) % 8 + 1;
      (if bit then before + [c, c + k] else before + [c + k, c + k + l])
      + Ranges(Runs(table, p + Size(table[p])), c + k + l, bit) == all
    ensures table[p] >= 64 ==>
      (if bit then before + [c, c + Single(table, p)] else before)
      + Ranges(Runs(table, p + Size(table[p])), c + Single(table, p), !bit) == all
  {
    hide Runs, Ranges, Single, Complete, Code, Size;
    CompleteSize(table, p);
    CodeForm(table, p);
    UnrollRanges(table, p, c, bit);
    var k, rest := Code(table, p), Runs(table, p + Size(table[p]));
    if |k| == 1 {
      Regrouped(before, if bit then [c, c + k[0]] else [], Ranges(rest, c + k[0], !bit));
      assert before + [] == before;
    } else {
      Regrouped(before, if bit then [c, c + k[0]] else [c + k[0], c + k[0] + k[1]], Ranges(rest, c + k[0] + k[1], bit));
    }
  }

  lemma CodeForm(table: seq<byte>, p: nat)
    requires Complete(table, p) && p < |table|
    ensures Code(table, p) == if table[p] < 64 then [At(table, p) / 8 + 1, At(table, p) % 8 + 1] else [Single(table, p)]
  {}

  lemma Regrouped(a: seq<nat>, b: seq<nat>, c: seq<nat>)
    ensures a + (b + c) == a + b + c
  {}

  /** unicode_prop1: the range list of a table. */
  method PropRanges(table: seq<byte>, cr: CharRange)
    requires Complete(table, 0) && cr.points == []
    modifies cr
    ensures cr.points == Ranges(Runs(table, 0), 0, false)
  {
    hide Complete, Runs, Ranges, Single;
    var p, c, bit := 0, 0, false;
    while p < |table|
      invariant 0 <= p <= |table| && 0 <= c && Complete(table, p)
      invariant cr.points + Ranges(Runs(table, p), c, bit) == Ranges(Runs(table, 0), 0, false)
      decreases |table| - p
    {
      RangesStep(table, p, c, bit, cr.points, Ranges(Runs(table, 0), 0, false));
      var c0 := c;
      var b := At(table, p);
      p := p + 1;
      if b < 64 {
        c := c + (b / 8 + 1);
        if bit {
          cr.AddInterval(c0, c);
        }
        bit := !bit;
        c0 := c;
        c := c + (b % 8 + 1);
      } else {
        SingleForms(table, p - 1);
        if b >= 0x80 {
          c := c + (b - 0x80 + 1);
        } else if b < 0x60 {
          c := c + ((b - 0x40) * 256 + At(table, p) + 1);
          p := p + 1;
        } else {
          c := c + ((b - 0x60) * 65536 + At(table, p) * 256 + At(table, p + 1) + 1);
          p := p + 2;
        }
      }
      if bit {
        cr.AddInterval(c0, c);
      }
      bit := !bit;
    }
    NoMore(table, c, bit);
    assert cr.points + [] == cr.points;
  }

  lemma {:induction false} CompleteSize(table: seq<byte>, p: nat)
    requires Complete(table, p) && p < |table|
    ensures p + Size(table[p]) <= |table|
  {}

  lemma {:induction false} NoMore(table: seq<byte>, c: nat, bit: bool)
    requires Complete(table, |table|)
    ensures Ranges(Runs(table, |table|), c, bit) == []
  {}

  /** For every table with a well-formed index, the two agree on every code point. */
  method LookupAgrees(c: nat, table: seq<byte>, index: seq<byte>, n: nat) returns (found: bool)
    requires Complete(table, 0) && WellFormedIndex(table, index, n)
    ensures found <==> InSet(Ranges(Runs(table, 0), 0, false), c)
  {
    found := IsInTable(c, table, index, n);
    LookupIsInRanges(Runs(table, 0), 0, false, c);
  }

  // ----- tables of sets -----

  predicate Ascending(points: seq<nat>, from: nat) {
    points == [] || (from <= points[0] && Ascending(points[1..], points[0]))
  }

  /** The run lengths of a set given by its boundary points. */
  function Deltas(points: seq<nat>, from: nat): seq<nat>
    requires Ascending(points, from)
  {
    if points == [] then [] else [points[0] - from] + Deltas(points[1..], points[0])
  }

  /** Scanning the run lengths of a set lists its points. */
  lemma {:induction false} RangesOfDeltas(points: seq<nat>, from: nat)
    requires |points| % 2 == 0 && Ascending(points, from)
    ensures Ranges(Deltas(points, from), from, false) == points
    decreases |points|
  {
    if points != [] {
      var a, b, rest := points[0], points[1], points[2..];
      TwoDeltas(points, from);
      hide Ranges, Deltas, Ascending;
      RangesOfDeltas(rest, b);
      TwoRuns(a - from, b - a, Deltas(rest, b), from);
      assert points == [a, b] + rest;
    }
  }

  lemma {:induction false} TwoDeltas(points: seq<nat>, from: nat)
    requires |points| >= 2 && Ascending(points, from)
    ensures from <= points[0] <= points[1] && Ascending(points[2..], points[1])
    ensures Deltas(points, from) == [points[0] - from] + ([points[1] - points[0]] + Deltas(points[2..], points[1]))
  {
    var tail := points[1..];
    assert tail[0] == points[1] && tail[1..] == points[2..];
  }

  lemma {:induction false} TwoRuns(x: nat, y: nat, ds: seq<nat>, from: nat)
    ensures Ranges([x] + ([y] + ds), from, false) == [from + x, from + x + y] + Ranges(ds, from + x + y, false)
  {
    var t := [y] + ds;
    assert ([x] + t)[1..] == t && t[1..] == ds;
    assert Ranges(t, from + x, true) == [from + x, from + x + y] + Ranges(ds, from + x + y, false);
    assert Ranges([x] + t, from, false) == [] + Ranges(t, from + x, true);
  }

  /** A table that codes the run lengths of a set, in whatever forms, is listed as the set. */
  method PropRoundTrip(points: seq<nat>, fs: seq<Form>, cr: CharRange)
    requires |points| % 2 == 0 && Ascending(points, 0)
    requires AllFit(fs) && AllLengths(fs) == Deltas(points, 0) && cr.points == []
    modifies cr
    ensures cr.points == points
  {
    CodedRuns(fs);
    RangesOfDeltas(points, 0);
    PropRanges(Coded(fs), cr);
  }

  // ----- index tables -----

  /** An index entry: 21 bits of code, 3 bits of offset, low byte first. */
  function EntryBytes(code: nat, offset: nat): (s: seq<byte>)
    requires code < 2097152 && offset < 8
    ensures |s| == 3
  {
    [code % 256, code / 256 % 256, offset * 32 + code / 65536]
  }

  predicate EntriesFit(entries: seq<(nat, nat)>) {
    forall i :: 0 <= i < |entries| ==> entries[i].0 < 2097152 && entries[i].1 < 8
  }

  function IndexBytes(entries: seq<(nat, nat)>): (s: seq<byte>)
    requires EntriesFit(entries)
    ensures |s| == 3 * |entries|
  {
    if entries == [] then []
    else EntryBytes(entries[0].0, entries[0].1) + IndexBytes(entries[1..])
  }

  lemma {:induction false} EntryReads(code: nat, offset: nat, tail: seq<byte>)
    requires code < 2097152 && offset < 8
    ensures Le24(EntryBytes(code, offset) + tail, 0) == offset * 2097152 + code
  {
    Digits256(code);
  }

  lemma {:induction false} NextEntry(head: seq<byte>, tail: seq<byte>, i: nat)
    requires |head| == 3 && 3 * i + 2 < |tail|
    ensures Le24(head + tail, i + 1) == Le24(tail, i)
  {
    var all := head + tail;
    assert all[3 * (i + 1)] == tail[3 * i] && all[3 * (i + 1) + 1] == tail[3 * i + 1];
    assert all[3 * (i + 1) + 2] == tail[3 * i + 2];
  }

  lemma {:induction false} IndexReads(entries: seq<(nat, nat)>, i: nat)
    requires EntriesFit(entries) && i < |entries|
    ensures Le24(IndexBytes(entries), i) == entries[i].1 * 2097152 + entries[i].0
    decreases i
  {
    hide Le24, EntryBytes;
    var tail := IndexBytes(entries[1..]);
    if i == 0 {
      EntryReads(entries[0].0, entries[0].1, tail);
    } else {
      IndexReads(entries[1..], i - 1);
      NextEntry(EntryBytes(entries[0].0, entries[0].1), tail, i - 1);
    }
  }

  /** An index made of checkpoints is one the lookup can use. */
  lemma {:induction false} IndexCoded(table: seq<byte>, entries: seq<(nat, nat)>)
    requires Complete(table, 0) && entries != []
    requires EntriesFit(entries) && entries[|entries| - 1] == (Sum(Runs(table, 0)), 0)
    requires forall k :: 0 <= k < |entries| - 1 ==> Checkpoint(table, (k + 1) * 32 + entries[k].1, entries[k].0)
    ensures WellFormedIndex(table, IndexBytes(entries), |entries|)
  {
    hide Checkpoint, Sum, Runs, IndexBytes, Complete, Le24;
    var index, n := IndexBytes(entries), |entries|;
    IndexReads(entries, n - 1);
    forall i | 0 <= i < n - 1 ensures EntryOk(table, index, i) {
      IndexReads(entries, i);
      assert Le24(index, i) / CODE_MAX == entries[i].1 && Le24(index, i) % CODE_MAX == entries[i].0;
      assert Checkpoint(table, (i + 1) * 32 + entries[i].1, entries[i].0);
    }
  }
}
