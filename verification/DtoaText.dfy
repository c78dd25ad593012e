/** The text js_dtoa prints in free format, and that js_atod reads it back. */
module DtoaText {
  import opened DtoaPow
  import opened DtoaLimbs
  import opened DtoaBits
  import opened DtoaBig
  import opened DtoaReal
  import opened DtoaRound
  import opened DtoaTables
  import opened DtoaScale
  import opened DtoaSearch
  import opened DtoaDigits
  import opened DtoaScan
  import opened Dtoa

  // ----- whole numbers -----

  /** The digits of n without leading zeros (u32toa, u64toa_radix). */
  function IntDigits(n: nat, radix: nat): (s: seq<char>)
    requires IsRadix(radix)
    ensures s != []
    decreases n
  {
    if n < radix then [DigitChar(n)]
    else
      QuotientSmaller(n, radix);
      IntDigits(Quo(n, radix), radix) + [DigitChar(Rem(n, radix))]
  }

  lemma {:induction false} QuotientSmaller(n: nat, radix: nat)
    requires 2 <= radix <= n
    ensures 0 < Quo(n, radix) < n
  {
    Euclid(n, radix);
    MulMonotone(2, radix, n / radix);
  }

  lemma {:induction false} IntDigitsRead(n: nat, radix: nat)
    requires IsRadix(radix)
    ensures AllDigits(IntDigits(n, radix), radix) && ReadValue(IntDigits(n, radix), radix) == n
    ensures n > 0 ==> Leading(IntDigits(n, radix), radix)
    decreases n
  {
    hide DigitChar, ToDigit, Quo, Rem, ReadValue;
    if n < radix {
      DigitRoundTrip(n);
      ReadSnoc([], DigitChar(n), radix);
      ReadNothing(radix);
      assert [] + [DigitChar(n)] == [DigitChar(n)];
    } else {
      QuotientSmaller(n, radix);
      var q, d := Quo(n, radix), Rem(n, radix);
      IntDigitsRead(q, radix);
      DigitRoundTrip(d);
      ReadSnoc(IntDigits(q, radix), DigitChar(d), radix);
      DigitsSnoc(IntDigits(q, radix), DigitChar(d), radix);
      QuoRemOf(n, radix);
    }
  }

  /** Digits written from the end of a buffer. */
  method NumberToText(n0: nat, radix: nat) returns (s: seq<char>)
    requires IsRadix(radix)
    ensures s == IntDigits(n0, radix)
  {
    hide DigitChar, Quo, Rem;
    var n: nat := n0;
    s := [];
    assert IntDigits(n, radix) + [] == IntDigits(n, radix);
    while n >= radix
      invariant IntDigits(n, radix) + s == IntDigits(n0, radix)
    {
      QuotientSmaller(n, radix);
      var c := DigitChar(Rem(n, radix));
      ghost var q := IntDigits(Quo(n, radix), radix);
      assert q + [c] + s == q + ([c] + s);
      s := [c] + s;
      n := Quo(n, radix);
    }
    s := [DigitChar(n)] + s;
  }

  // ----- the format -----

  datatype ExpMode = Auto | Enabled | Disabled

  /** What output_digits leaves: the digits with a dot after the first k. */
  function WithDot(d: seq<char>, k: nat): seq<char>
    requires k <= |d|
  {
    if k == |d| then d else d[..k] + ['.'] + d[k..]
  }

  function Zeros(n: nat): (s: seq<char>)
    ensures |s| == n
  {
    seq(n, _ => '0')
  }

  function UsesExponent(E: int, radix: nat, mode: ExpMode): bool
    requires IsRadix(radix)
  {
    mode == Enabled || (mode == Auto && (E <= -6 || E > Info(radix).maxDigits + 4))
  }

  predicate BinaryExponent(radix: nat)
    requires IsRadix(radix)
  {
    radix != 10 && 1 <= RadixBits(radix) <= 4
  }

  function ExpChar(radix: nat): char
    requires IsRadix(radix)
  {
    if radix == 10 then 'e' else if BinaryExponent(radix) then 'p' else '@'
  }

  /** The exponent as printed. */
  function ExpValue(E: int, radix: nat): int
    requires IsRadix(radix)
  {
    if BinaryExponent(radix) then (E - 1) * RadixBits(radix) else E - 1
  }

  function ExponentText(x: int): seq<char> {
    [if x < 0 then '-' else '+'] + IntDigits(Abs(x), 10)
  }

  /** d is read as 0.d * radix^E. */
  function Format(d: seq<char>, E: int, radix: nat, mode: ExpMode): seq<char>
    requires IsRadix(radix) && d != []
  {
    if UsesExponent(E, radix, mode) then WithDot(d, 1) + [ExpChar(radix)] + ExponentText(ExpValue(E, radix))
    else if E <= 0 then ['0', '.'] + Zeros(-E) + d
    else if E < |d| then WithDot(d, E)
    else d + Zeros(E - |d|)
  }

  /** A run of zeros. */
  method PutZeros(text0: seq<char>, n: int) returns (text: seq<char>)
    ensures text == text0 + Zeros(if n > 0 then n else 0)
  {
    text := text0;
    var i := 0;
    assert text == text0 + Zeros(0);
    while i < n
      invariant 0 <= i && (i <= n || i == 0) && text == text0 + Zeros(i)
    {
      text := text + ['0'];
      i := i + 1;
      assert Zeros(i) == Zeros(i - 1) + ['0'];
    }
  }

  /** The digits of the number, with a dot after the first k. */
  method PutDigits(mant: nat, radix: nat, P: nat, k: nat) returns (text: seq<char>)
    requires IsRadix(radix) && P >= 1 && k <= P && mant < 0x1_0000_0000_0000_0000
    ensures text == WithDot(DigitString(mant, radix, P), k)
  {
    hide DigitString;
    var tmp := new Mpb(P + 8);
    tmp.SetU64(mant);
    var buf := new char[P + 2];
    var len := OutputDigits(buf, tmp, radix, P, k);
    text := buf[..len];
  }

  /** The exponent letter, the sign and the exponent. */
  method PutExponent(E: int, radix: nat) returns (text: seq<char>)
    requires IsRadix(radix)
    ensures text == [ExpChar(radix)] + ExponentText(ExpValue(E, radix))
  {
    hide IntDigits, Ctz, OddOf, DigitChar;
    RadixSplit(radix);
    var radixShift, radix1 := Ctz(radix), OddOf(radix);
    var x := E - 1;
    if radix == 10 {
      text := ['e'];
    } else if radix1 == 1 && radixShift <= 4 {
      BinaryShift(radix);
      x := x * radixShift;
      text := ['p'];
    } else {
      text := ['@'];
    }
    if x < 0 {
      text := text + ['-'];
      x := -x;
    } else {
      text := text + ['+'];
    }
    var digits := NumberToText(x, 10);
    text := text + digits;
  }

  lemma {:induction false} BinaryShift(radix: nat)
    requires IsRadix(radix) && OddOf(radix) == 1
    ensures Ctz(radix) >= 1
  {
    RadixSplit(radix);
    hide Ctz, OddOf;
    PowNext(2, 0);
  }

  /** The output of js_dtoa in free format, for the P digits of mant. */
  method OutputNumber(mant: nat, P: nat, E: int, radix: nat, mode: ExpMode) returns (text: seq<char>)
    requires IsRadix(radix) && P >= 1 && mant < 0x1_0000_0000_0000_0000
    ensures text == Format(DigitString(mant, radix, P), E, radix, mode)
  {
    hide DigitString, Info, ExpChar, ExponentText, ExpValue, WithDot;
    ghost var d := DigitString(mant, radix, P);
    WholeDot(d);
    var eMax := Info(radix).maxDigits + 4;
    if mode == Enabled || (mode == Auto && (E <= -6 || E > eMax)) {
      text := PutDigits(mant, radix, P, 1);
      var tail := PutExponent(E, radix);
      text := text + tail;
    } else if E <= 0 {
      text := PutZeros(['0', '.'], -E);
      var tail := PutDigits(mant, radix, P, P);
      text := text + tail;
    } else {
      text := PutDigits(mant, radix, P, if P < E then P else E);
      text := PutZeros(text, E - P);
    }
  }

  lemma {:induction false} WholeDot(d: seq<char>)
    ensures WithDot(d, |d|) == d && forall t: seq<char> :: t + Zeros(0) == t
  {
    forall t: seq<char> ensures t + Zeros(0) == t {
      assert Zeros(0) == [];
    }
  }

  // ----- reading the digits of each form -----

  /** The text ends here, or goes on with something that is not part of a number. */
  predicate Stops(s: seq<char>, p: nat, radix: nat) {
    CharAt(s, p) != '.' && ToDigit(CharAt(s, p)) >= radix
  }

  lemma {:induction false} SubDigits(d: seq<char>, radix: nat, i: nat, j: nat)
    requires AllDigits(d, radix) && i <= j <= |d|
    ensures AllDigits(d[i..j], radix)
  {
    hide ToDigit;
    forall k | 0 <= k < j - i ensures ToDigit(d[i..j][k]) < radix {
      assert d[i..j][k] == d[i + k];
    }
  }

  lemma {:induction false} ReadStops(s: seq<char>, start: nat, radix: nat, c: Cursor, acc: seq<char>)
    requires IsRadix(radix) && Stops(s, c.p, radix)
    ensures ReadAll(s, start, radix, c, acc) == (c, acc)
  {}

  /** Digits, a dot, digits. */
  lemma {:induction false} ReadDotted(s: seq<char>, start: nat, radix: nat, c: Cursor, d: seq<char>, k: nat)
    requires IsRadix(radix) && AllDigits(d, radix) && 0 < k <= |d| && c.dot < 0 && start <= c.p
    requires c.p + |WithDot(d, k)| <= |s| && s[c.p..c.p + |WithDot(d, k)|] == WithDot(d, k)
    requires Stops(s, c.p + |WithDot(d, k)|, radix)
    ensures ReadAll(s, start, radix, c, [])
            == (Cursor(c.p + |WithDot(d, k)|, if k == |d| then c.dot else c.pos + k, c.pos + |d|), d)
  {
    hide ToDigit, ReadAll, DotHere;
    var w := WithDot(d, k);
    var p := c.p;
    Inner(s, p, w, 0, k);
    assert w[0..k] == d[0..k] && s[p + 0..p + k] == s[p..p + k];
    SubDigits(d, radix, 0, k);
    DigitsPassed(s, start, radix, c, [], k);
    assert [] + d[0..k] == d[0..k];
    if k == |d| {
      assert d[0..k] == d;
      ReadStops(s, start, radix, Cursor(p + k, c.dot, c.pos + k), d);
    } else {
      ReadFraction(s, start, radix, c, d, k);
    }
  }

  lemma {:induction false} ReadFraction(s: seq<char>, start: nat, radix: nat, c: Cursor, d: seq<char>, k: nat)
    requires IsRadix(radix) && AllDigits(d, radix) && 0 < k < |d| && c.dot < 0 && start <= c.p
    requires c.p + |d| + 1 <= |s| && s[c.p..c.p + |d| + 1] == d[..k] + ['.'] + d[k..]
    requires Stops(s, c.p + |d| + 1, radix)
    ensures ReadAll(s, start, radix, Cursor(c.p + k, c.dot, c.pos + k), d[0..k])
            == (Cursor(c.p + |d| + 1, c.pos + k, c.pos + |d|), d)
  {
    hide ToDigit, ReadAll, DotHere;
    var w := d[..k] + ['.'] + d[k..];
    var p, n := c.p, |d|;
    assert |w| == n + 1;
    Inner(s, p, w, k + 1, n + 1);
    assert s[p + k] == w[k] && s[p + (k + 1)] == w[k + 1] && w[k + 1] == d[k] && ToDigit(d[k]) < radix;
    ReadPastDot(s, start, radix, Cursor(p + k, c.dot, c.pos + k), d[0..k]);
    assert w[k + 1..n + 1] == d[k..n];
    SubDigits(d, radix, k, n);
    assert s[p + (k + 1)..p + (n + 1)] == s[p + k + 1..p + k + 1 + (n - k)];
    DigitsPassed(s, start, radix, Cursor(p + k + 1, c.pos + k, c.pos + k), d[0..k], n - k);
    assert d[0..k] + d[k..n] == d;
    ReadStops(s, start, radix, Cursor(p + n + 1, c.pos + k, c.pos + n), d);
  }

  lemma {:induction false} Inner(s: seq<char>, p: nat, w: seq<char>, i: nat, j: nat)
    requires p + |w| <= |s| && s[p..p + |w|] == w && i <= j <= |w|
    ensures s[p + i..p + j] == w[i..j] && forall k :: 0 <= k < |w| ==> s[p + k] == w[k]
  {
    forall k | 0 <= k < |w| ensures s[p + k] == w[k] {
      assert s[p..p + |w|][k] == s[p + k];
    }
    forall k | 0 <= k < j - i ensures s[p + i..p + j][k] == w[i..j][k] {
      assert s[p + (i + k)] == w[i + k];
    }
  }

  /** Once past the dot, reading goes on as if it were not there. */
  lemma {:induction false} ReadPastDot(s: seq<char>, start: nat, radix: nat, c: Cursor, acc: seq<char>)
    requires IsRadix(radix) && c.p < |s| && s[c.p] == '.' && c.p > start && c.dot < 0
    requires ToDigit(CharAt(s, c.p + 1)) < radix || CharAt(s, c.p + 1) != '.'
    ensures ReadAll(s, start, radix, c, acc) == ReadAll(s, start, radix, Cursor(c.p + 1, c.pos, c.pos), acc)
  {
    DotIsNoDigit();
  }

  /** A leading digit stops the search for zeros. */
  lemma {:induction false} NoZeros(s: seq<char>, start: nat, radix: nat, c: Cursor)
    requires c.p < |s| && s[c.p] != '0' && s[c.p] != '.'
    ensures SkipZeros(s, start, radix, c) == c
  {}

  lemma {:induction false} LeadingChar(d: seq<char>, radix: nat)
    requires radix <= 36 && Leading(d, radix)
    ensures d[0] != '0' && d[0] != '.'
  {
    assert ToDigit('0') == 0 && ToDigit('.') == 36;
    assert ToDigit(d[0]) < radix;
  }

  /** Mantissa forms: the first character is the leading digit. */
  lemma {:induction false} ScanDotted(s: seq<char>, start: nat, radix: nat, d: seq<char>, k: nat)
    requires IsRadix(radix) && Leading(d, radix) && 0 < k <= |d|
    requires start + |WithDot(d, k)| <= |s| && s[start..start + |WithDot(d, k)|] == WithDot(d, k)
    requires Stops(s, start + |WithDot(d, k)|, radix)
    ensures SkipZeros(s, start, radix, Cursor(start, -1, 0)) == Cursor(start, -1, 0)
    ensures ReadAll(s, start, radix, Cursor(start, -1, 0), [])
            == (Cursor(start + |WithDot(d, k)|, if k == |d| then -1 else k, |d|), d)
  {
    hide ReadAll, SkipZeros;
    LeadingChar(d, radix);
    Inner(s, start, WithDot(d, k), 0, 0);
    assert s[start + 0] == d[0];
    hide ToDigit;
    NoZeros(s, start, radix, Cursor(start, -1, 0));
    ReadDotted(s, start, radix, Cursor(start, -1, 0), d, k);
  }

  /** Small numbers: 0.00ddd. */
  lemma {:induction false} ScanSmall(s: seq<char>, start: nat, radix: nat, d: seq<char>, z: nat)
    requires IsRadix(radix) && Leading(d, radix) && |s| == start + 2 + z + |d|
    requires s[start..] == ['0', '.'] + Zeros(z) + d
    ensures SkipZeros(s, start, radix, Cursor(start, -1, 0)) == Cursor(start + 2 + z, 1, 1 + z)
    ensures ReadAll(s, start, radix, Cursor(start + 2 + z, 1, 1 + z), []) == (Cursor(|s|, 1, 1 + z + |d|), d)
  {
    SmallChars(s, start, radix, d, z);
    ZeroPoint(s, start, radix, z);
    DotIsNoDigit();
    hide ReadAll, SkipZeros, ToDigit;
    ZerosPassed(s, start, radix, Cursor(start + 2, 1, 1), z);
    NoZeros(s, start, radix, Cursor(start + 2 + z, 1, 1 + z));
    DigitsPassed(s, start, radix, Cursor(start + 2 + z, 1, 1 + z), [], |d|);
    assert [] + d == d;
    ReadStops(s, start, radix, Cursor(|s|, 1, 1 + z + |d|), d);
  }

  lemma {:induction false} SmallChars(s: seq<char>, start: nat, radix: nat, d: seq<char>, z: nat)
    requires radix <= 36 && Leading(d, radix) && |s| == start + 2 + z + |d|
    requires s[start..] == ['0', '.'] + Zeros(z) + d
    ensures s[start] == '0' && s[start + 1] == '.' && s[start + 2 + z] != '0' && s[start + 2 + z] != '.'
    ensures forall i :: start + 2 <= i < start + 2 + z ==> s[i] == '0'
    ensures s[start + 2 + z..start + 2 + z + |d|] == d
  {
    LeadingChar(d, radix);
    hide ToDigit;
    var w := ['0', '.'] + Zeros(z) + d;
    assert s[start..start + |w|] == s[start..];
    Inner(s, start, w, 2 + z, |w|);
    assert w[2 + z..|w|] == d;
    assert s[start + 0] == w[0] && s[start + 1] == w[1] && s[start + (2 + z)] == w[2 + z] == d[0];
    forall i | start + 2 <= i < start + 2 + z ensures s[i] == '0' {
      assert s[start + (i - start)] == w[i - start];
    }
    assert s[start + (2 + z)..start + |w|] == s[start + 2 + z..start + 2 + z + |d|];
  }

  /** The zero before the dot, and the dot. */
  lemma {:induction false} ZeroPoint(s: seq<char>, start: nat, radix: nat, z: nat)
    requires start + 2 + z < |s| && s[start] == '0' && s[start + 1] == '.' && s[start + 2 + z] != '.'
    requires forall i :: start + 2 <= i < start + 2 + z ==> s[i] == '0'
    ensures SkipZeros(s, start, radix, Cursor(start, -1, 0)) == SkipZeros(s, start, radix, Cursor(start + 2, 1, 1))
  {
    var c := Cursor(start + 1, -1, 1);
    assert SkipZeros(s, start, radix, Cursor(start, -1, 0)) == SkipZeros(s, start, radix, c);
    var d := Cursor(start + 2, 1, 1);
    assert PassDot(s, start, radix, c) == d;
    assert s[start + 2] != '.';
  }

  // ----- reading the exponent -----

  lemma {:induction false} ReadHead(t: seq<char>, radix: nat)
    requires t != [] && AllDigits(t, radix)
    ensures ToDigit(t[0]) < radix && AllDigits(t[1..], radix)
    ensures ReadValue(t, radix) == ToDigit(t[0]) * Pow(radix, |t| - 1) + ReadValue(t[1..], radix)
  {
    SubDigits(t, radix, 1, |t|);
    hide ToDigit, Pow;
    assert t == [t[0]] + t[1..] && t[1..|t|] == t[1..];
    ReadConcat([t[0]], t[1..], radix);
    ReadSnoc([], t[0], radix);
    ReadNothing(radix);
    assert [] + [t[0]] == [t[0]];
  }

  lemma {:induction false} ExpDigitsRead(s: seq<char>, p: nat, acc: nat, t: seq<char>)
    requires p <= |s| && s[p..] == t && AllDigits(t, 10)
    requires acc * Pow(10, |t|) + ReadValue(t, 10) <= 2147483639
    ensures ExpDigits(s, p, acc, false) == (acc * Pow(10, |t|) + ReadValue(t, 10), false)
    decreases |t|
  {
    PowNext(10, 0);
    if t == [] {
      DotIsNoDigit();
    } else {
      var n, u := |t| - 1, t[1..];
      var c := ToDigit(t[0]);
      assert s[p] == s[p..][0] && s[p + 1..] == s[p..][1..] == u;
      ReadHead(t, 10);
      PowNext(10, n);
      hide ToDigit, Pow, ReadValue, AllDigits;
      var w := Pow(10, n);
      Distribute(w, acc * 10, c);
      Assoc(acc, 10, w);
      assert acc * (w * 10) + (c * w + ReadValue(u, 10)) == (acc * 10 + c) * w + ReadValue(u, 10);
      AccBound(acc, w);
      ExpDigitsRead(s, p + 1, acc * 10 + c, u);
    }
  }

  lemma {:induction false} AccBound(acc: nat, w: nat)
    requires w > 0 && acc * (w * 10) <= 2147483639
    ensures acc <= EXPN_LIMIT
  {
    MulAtLeast(w, EXPN_LIMIT + 1);
    if acc > EXPN_LIMIT {
      MulMonotone(EXPN_LIMIT + 1, acc, w * 10);
    }
  }

  lemma {:induction false} ExponentDigits(x: int) returns (t: seq<char>)
    ensures t == IntDigits(Abs(x), 10) && t != [] && ToDigit(t[0]) < 10 && AllDigits(t[1..], 10)
    ensures ToDigit(t[0]) * Pow(10, |t| - 1) + ReadValue(t[1..], 10) == Abs(x)
  {
    t := IntDigits(Abs(x), 10);
    IntDigitsRead(Abs(x), 10);
    ReadHead(t, 10);
    hide IntDigits, ReadValue, Pow;
  }

  /** A printed exponent is read with its sign. */
  lemma {:induction false} ExponentRead(s: seq<char>, start: nat, radix: nat, p: nat, x: int)
    requires IsRadix(radix) && start < p < |s| && s[p] == ExpChar(radix) && s[p + 1..] == ExponentText(x)
             && Abs(x) <= 2147483639
    ensures ReadExponent(s, start, radix, p) == Exponent(x, x < 0, BinaryExponent(radix), false)
  {
    hide IntDigits, Pow, ReadValue, ToDigit, RadixBits, AllDigits, ExpDigits, ExponentText;
    var t := ExponentDigits(x);
    ExponentChars(s, p, x, t);
    ExpDigitsRead(s, p + 3, ToDigit(t[0]), t[1..]);
  }

  lemma {:induction false} ExponentChars(s: seq<char>, p: nat, x: int, t: seq<char>)
    requires p < |s| && s[p + 1..] == ExponentText(x) && t == IntDigits(Abs(x), 10)
    ensures p + 2 < |s| && s[p + 1] == (if x < 0 then '-' else '+') && s[p + 2] == t[0] && s[p + 3..] == t[1..]
  {
    hide IntDigits;
    assert s[p + 1] == s[p + 1..][0];
    assert s[p + 2..] == s[p + 1..][1..] == t;
    assert s[p + 2] == s[p + 2..][0] == t[0];
    assert s[p + 3..] == s[p + 2..][1..] == t[1..];
  }

  // ----- each form is read back -----

  /** n stands for the digits d with exponent E. */
  ghost predicate StandsFor(n: Number, d: seq<char>, E: int, radix: nat)
    requires IsRadix(radix)
  {
    && n.Number? && !n.huge && !n.tiny && Leading(n.digits, radix)
    && Meant(n.digits, radix, n.expn, n.bexp) == Product(ReadValue(d, radix), 0, radix, E - |d|)
  }

  lemma {:induction false} MeantShort(d: seq<char>, radix: nat, f: int)
    requires IsRadix(radix) && |d| <= Info(radix).maxDigits
    ensures Meant(d, radix, f, 0) == Product(ReadValue(d, radix), 0, radix, f)
  {
    hide Info, RadixBits, Product, ReadValue;
    DigitsTable(radix);
    assert Kept(d, radix) == |d| && d[..|d|] == d;
    assert f + |d| - |d| == f;
  }

  lemma {:induction false} MeantBinary(d: seq<char>, radix: nat, E: int)
    requires IsRadix(radix) && BinaryExponent(radix)
    ensures Meant(d, radix, 1 - |d|, (E - 1) * RadixBits(radix)) == Product(ReadValue(d, radix), 0, radix, E - |d|)
  {
    hide RadixBits, Times, PowR, ReadValue, Product;
    var a, k := ReadValue(d, radix), (E - 1) * RadixBits(radix);
    BinaryFactor(a, k, radix, 1 - |d|);
    BinaryScale(a, radix, 1 - |d|, E - 1, 0);
    assert 1 - |d| + (E - 1) == E - |d|;
  }

  lemma {:induction false} ZerosValue(z: nat, radix: nat)
    ensures ReadValue(Zeros(z), radix) == 0
    decreases z
  {
    if z > 0 {
      ZerosValue(z - 1, radix);
      assert Zeros(z)[..z - 1] == Zeros(z - 1);
    }
  }

  lemma {:induction false} AppendZeros(d: seq<char>, z: nat, radix: nat)
    ensures ReadValue(d + Zeros(z), radix) == ReadValue(d, radix) * Pow(radix, z)
  {
    hide Pow, ReadValue;
    ReadConcat(d, Zeros(z), radix);
    ZerosValue(z, radix);
  }

  /** Trailing zeros, kept or not, change nothing. */
  lemma {:induction false} MeantZeros(d: seq<char>, z: nat, radix: nat)
    requires IsRadix(radix) && |d| <= Info(radix).maxDigits
    ensures Meant(d + Zeros(z), radix, 0, 0) == Product(ReadValue(d, radix), 0, radix, z)
  {
    hide Info, RadixBits, Product, ReadValue, Pow;
    DigitsTable(radix);
    var s := d + Zeros(z);
    AppendZeros(d, z, radix);
    ZerosMoved(ReadValue(d, radix), z, radix, 0);
    var n := Kept(s, radix);
    assert |d| <= n <= |s|;
    assert s[..n] == d + Zeros(n - |d|);
    AppendZeros(d, n - |d|, radix);
    ZerosMoved(ReadValue(d, radix), n - |d|, radix, |s| - n);
    assert |s| - n + (n - |d|) == z && 0 + |s| - n == |s| - n;
  }

  lemma {:induction false} LeadingZeros(d: seq<char>, z: nat, radix: nat)
    requires radix > 0 && Leading(d, radix)
    ensures Leading(d + Zeros(z), radix)
  {
    assert ToDigit('0') == 0;
    hide ToDigit;
  }

  lemma {:induction false} NothingFollows(s: seq<char>, start: nat, radix: nat)
    requires IsRadix(radix)
    ensures Stops(s, |s|, radix) && ReadExponent(s, start, radix, |s|) == NoExponent
  {
    DotIsNoDigit();
    hide RadixBits;
  }

  lemma {:induction false} ExpCharStops(s: seq<char>, p: nat, radix: nat)
    requires IsRadix(radix) && p < |s| && s[p] == ExpChar(radix)
    ensures Stops(s, p, radix)
  {
    if BinaryExponent(radix) {
      BinaryRadix(radix);
      PowMonotone(2, RadixBits(radix), 4);
      assert Pow(2, 4) == 16;
    }
  }

  lemma {:induction false} PlainResult(s: seq<char>, start: nat, radix: nat, c: Cursor, d: Cursor, digits: seq<char>)
    requires IsRadix(radix) && SkipZeros(s, start, radix, Cursor(start, -1, 0)) == c
             && ReadAll(s, start, radix, c, []) == (d, digits)
    requires ReadExponent(s, start, radix, d.p) == NoExponent && d.p != start
    ensures ScanNumber(s, start, start, radix)
            == Number(digits, (if d.dot < 0 then d.pos else d.dot) - c.pos - |digits|, 0, false, false)
  {
    hide SkipZeros, ReadAll, ReadExponent;
  }

  lemma {:induction false} ExponentResult(s: seq<char>, start: nat, radix: nat, c: Cursor, d: Cursor, digits: seq<char>,
          x: int, binary: bool)
    requires IsRadix(radix) && SkipZeros(s, start, radix, Cursor(start, -1, 0)) == c
             && ReadAll(s, start, radix, c, []) == (d, digits)
    requires ReadExponent(s, start, radix, d.p) == Exponent(x, x < 0, binary, false) && d.p != start
    ensures var shift := (if d.dot < 0 then d.pos else d.dot) - c.pos - |digits|;
            ScanNumber(s, start, start, radix)
            == if binary then Number(digits, shift, x, false, false) else Number(digits, x + shift, 0, false, false)
  {
    hide SkipZeros, ReadAll, ReadExponent;
  }

  lemma {:induction false} ExponentForm(s: seq<char>, start: nat, radix: nat, d: seq<char>, E: int)
    requires IsRadix(radix) && Leading(d, radix) && |d| <= Info(radix).maxDigits
             && Abs(ExpValue(E, radix)) <= 2147483639
    requires start <= |s| && s[start..] == WithDot(d, 1) + [ExpChar(radix)] + ExponentText(ExpValue(E, radix))
    ensures StandsFor(ScanNumber(s, start, start, radix), d, E, radix)
  {
    hide Meant, RadixBits, ReadValue, Product, ExpChar, ExponentText, Info, WithDot, ScanNumber, BinaryExponent,
         ExpValue, ToDigit, AllDigits;
    ExponentScan(s, start, radix, d, ExpValue(E, radix));
    MeantExponent(d, radix, E);
  }

  lemma {:induction false} ExponentScan(s: seq<char>, start: nat, radix: nat, d: seq<char>, x: int)
    requires IsRadix(radix) && Leading(d, radix) && Abs(x) <= 2147483639
    requires start <= |s| && s[start..] == WithDot(d, 1) + [ExpChar(radix)] + ExponentText(x)
    ensures ScanNumber(s, start, start, radix)
            == if BinaryExponent(radix) then Number(d, 1 - |d|, x, false, false)
              else Number(d, x + (1 - |d|), 0, false, false)
  {
    hide ReadAll, SkipZeros, ReadExponent, ExponentText, ExpChar, Stops, WithDot, ScanNumber, ToDigit, AllDigits,
         BinaryExponent;
    var w := WithDot(d, 1);
    var p := ThreePieces(s, start, w, ExpChar(radix), ExponentText(x));
    ExpCharStops(s, p, radix);
    DottedLonger(d);
    ScanDotted(s, start, radix, d, 1);
    ExponentRead(s, start, radix, p, x);
    ExponentResult(s, start, radix, Cursor(start, -1, 0), Cursor(p, if 1 == |d| then -1 else 1, |d|), d, x,
      BinaryExponent(radix));
  }

  lemma {:induction false} MeantExponent(d: seq<char>, radix: nat, E: int)
    requires IsRadix(radix) && |d| <= Info(radix).maxDigits
    ensures var v := Product(ReadValue(d, radix), 0, radix, E - |d|);
            if BinaryExponent(radix) then Meant(d, radix, 1 - |d|, ExpValue(E, radix)) == v
            else Meant(d, radix, ExpValue(E, radix) + (1 - |d|), 0) == v
  {
    hide Meant, RadixBits, Product, ReadValue, Info;
    if BinaryExponent(radix) {
      MeantBinary(d, radix, E);
    } else {
      MeantShort(d, radix, E - |d|);
      assert ExpValue(E, radix) + (1 - |d|) == E - |d|;
    }
  }

  lemma {:induction false} DottedLonger(d: seq<char>)
    requires d != []
    ensures |WithDot(d, 1)| >= |d|
  {}

  lemma {:induction false} ThreePieces(s: seq<char>, start: nat, w: seq<char>, c: char, t: seq<char>) returns (p: nat)
    requires start <= |s| && s[start..] == w + [c] + t
    ensures p == start + |w| < |s| && s[start..p] == w && s[p] == c && s[p + 1..] == t
  {
    p := start + |w|;
    var all := w + [c] + t;
    assert |s| == start + |all| && s[start..start + |all|] == s[start..];
    Inner(s, start, all, 0, |w|);
    Inner(s, start, all, |w| + 1, |all|);
    assert all[0..|w|] == w && all[|w| + 1..|all|] == t;
    assert s[start + |w|] == all[|w|];
    assert s[start..p] == s[start + 0..start + |w|];
    assert s[p + 1..] == s[start + (|w| + 1)..start + |all|];
  }

  lemma {:induction false} SmallForm(s: seq<char>, start: nat, radix: nat, d: seq<char>, E: int)
    requires IsRadix(radix) && Leading(d, radix) && |d| <= Info(radix).maxDigits && E <= 0
    requires start <= |s| && s[start..] == ['0', '.'] + Zeros(-E) + d
    ensures StandsFor(ScanNumber(s, start, start, radix), d, E, radix)
  {
    hide ReadAll, SkipZeros, ReadExponent, Meant, RadixBits, ReadValue, Product, Info, ScanNumber, ToDigit, AllDigits;
    SmallScan(s, start, radix, d, -E);
    MeantShort(d, radix, E - |d|);
  }

  lemma {:induction false} SmallScan(s: seq<char>, start: nat, radix: nat, d: seq<char>, z: nat)
    requires IsRadix(radix) && Leading(d, radix) && start <= |s| && s[start..] == ['0', '.'] + Zeros(z) + d
    ensures ScanNumber(s, start, start, radix) == Number(d, 0 - z - |d|, 0, false, false)
  {
    assert |s| == start + 2 + z + |d| && d != [];
    hide ReadAll, SkipZeros, ReadExponent, ScanNumber, Stops, ToDigit, AllDigits, CharAt, Zeros;
    ScanSmall(s, start, radix, d, z);
    NothingFollows(s, start, radix);
    PlainResult(s, start, radix, Cursor(start + 2 + z, 1, 1 + z), Cursor(|s|, 1, 1 + z + |d|), d);
  }

  lemma {:induction false} DottedForm(s: seq<char>, start: nat, radix: nat, d: seq<char>, E: int)
    requires IsRadix(radix) && Leading(d, radix) && |d| <= Info(radix).maxDigits && 0 < E < |d|
    requires start <= |s| && s[start..] == WithDot(d, E)
    ensures StandsFor(ScanNumber(s, start, start, radix), d, E, radix)
  {
    assert s[start..start + |WithDot(d, E)|] == s[start..];
    NothingFollows(s, start, radix);
    hide ReadAll, SkipZeros, ReadExponent, Leading, Meant, RadixBits, ReadValue, Product, Info, Stops;
    ScanDotted(s, start, radix, d, E);
    hide ScanNumber;
    PlainResult(s, start, radix, Cursor(start, -1, 0), Cursor(|s|, E, |d|), d);
    MeantShort(d, radix, E - |d|);
  }

  lemma {:induction false} WholeForm(s: seq<char>, start: nat, radix: nat, d: seq<char>, E: int)
    requires IsRadix(radix) && Leading(d, radix) && |d| <= Info(radix).maxDigits && |d| <= E
    requires start <= |s| && s[start..] == d + Zeros(E - |d|)
    ensures StandsFor(ScanNumber(s, start, start, radix), d, E, radix)
  {
    var t := d + Zeros(E - |d|);
    assert WithDot(t, |t|) == t && s[start..start + |t|] == s[start..];
    LeadingZeros(d, E - |d|, radix);
    NothingFollows(s, start, radix);
    hide ReadAll, SkipZeros, ReadExponent, Leading, Meant, RadixBits, ReadValue, Product, Info, Stops;
    ScanDotted(s, start, radix, t, |t|);
    hide ScanNumber;
    PlainResult(s, start, radix, Cursor(start, -1, 0), Cursor(|s|, -1, |t|), t);
    MeantZeros(d, E - |d|, radix);
  }

  /** Every text the printer produces is read as the number it stands for. */
  lemma {:induction false} FormatScans(s: seq<char>, start: nat, radix: nat, d: seq<char>, E: int, mode: ExpMode)
    requires IsRadix(radix) && Leading(d, radix) && |d| <= Info(radix).maxDigits
             && Abs(ExpValue(E, radix)) <= 2147483639
    requires start <= |s| && s[start..] == Format(d, E, radix, mode)
    ensures StandsFor(ScanNumber(s, start, start, radix), d, E, radix)
  {
    hide StandsFor, ScanNumber, Info, ToDigit, ExpValue;
    if UsesExponent(E, radix, mode) {
      ExponentForm(s, start, radix, d, E);
    } else if E <= 0 {
      SmallForm(s, start, radix, d, E);
    } else if E < |d| {
      DottedForm(s, start, radix, d, E);
    } else {
      WholeForm(s, start, radix, d, E);
    }
  }
}
