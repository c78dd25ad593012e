/** Writing the digits of a big integer limb by limb, and reading digits back in
    limb-sized chunks. */
module DtoaDigits {
  import opened DtoaPow
  import opened DtoaLimbs
  import opened DtoaBits
  import opened DtoaBig
  import opened DtoaTables
  import opened DtoaPowers
  import opened DtoaScale
  import opened DtoaSearch

  // ----- digit characters -----

  function DigitChar(d: nat): char
    requires d < 36
  {
    if d < 10 then '0' + d as char else 'a' + (d - 10) as char
  }

  /** The value of a digit, 36 for anything else. */
  function ToDigit(c: char): nat {
    if '0' <= c <= '9' then c as int - '0' as int
    else if 'A' <= c <= 'Z' then c as int - 'A' as int + 10
    else if 'a' <= c <= 'z' then c as int - 'a' as int + 10
    else 36
  }

  function LowerDigit(d: nat): char
    requires d < 36
  {
    var digits := "0123456789abcdefghijklmnopqrstuvwxyz";
    digits[d]
  }

  function UpperDigit(d: nat): char
    requires d < 36
  {
    var digits := "0123456789ABCDEFGHIJKLMNOPQRSTUVWXYZ";
    digits[d]
  }

  lemma {:induction false} DigitStrings(d: nat)
    requires d < 36
    ensures LowerDigit(d) == DigitChar(d)
    ensures UpperDigit(d) == if d < 10 then DigitChar(d) else 'A' + (d - 10) as char
  {}

  /** Digits are written in lower case and read in either. */
  lemma {:induction false} DigitValues(c: char, d: nat)
    requires d < 36
    ensures DigitChar(d) == LowerDigit(d)
    ensures ToDigit(c) == d <==> c == LowerDigit(d) || c == UpperDigit(d)
  {
    hide LowerDigit, UpperDigit;
    DigitStrings(d);
  }

  lemma {:induction false} DigitRoundTrip(d: nat)
    requires d < 36
    ensures ToDigit(DigitChar(d)) == d
  {}

  // ----- digit strings and their values -----

  /** The low n digits of v, most significant first. */
  function DigitString(v: nat, radix: nat, n: nat): (s: seq<char>)
    requires IsRadix(radix)
    ensures |s| == n
    decreases n
  {
    if n == 0 then [] else DigitString(Quo(v, radix), radix, n - 1) + [DigitChar(Rem(v, radix))]
  }

  /** The value of a string of digits. */
  function ReadValue(s: seq<char>, radix: nat): nat {
    if s == [] then 0 else ReadValue(s[..|s| - 1], radix) * radix + ToDigit(s[|s| - 1])
  }

  predicate AllDigits(s: seq<char>, radix: nat) {
    forall i :: 0 <= i < |s| ==> ToDigit(s[i]) < radix
  }

  lemma {:induction false} ReadSnoc(s: seq<char>, c: char, radix: nat)
    ensures ReadValue(s + [c], radix) == ReadValue(s, radix) * radix + ToDigit(c)
  {
    assert (s + [c])[..|s|] == s;
  }

  lemma {:induction false} DigitsSnoc(s: seq<char>, c: char, radix: nat)
    requires AllDigits(s, radix) && ToDigit(c) < radix
    ensures AllDigits(s + [c], radix)
  {}

  /** Reading back what was written: exactly the low n digits. */
  lemma {:induction false} ReadsWritten(v: nat, radix: nat, n: nat)
    requires IsRadix(radix)
    ensures AllDigits(DigitString(v, radix, n), radix)
    ensures ReadValue(DigitString(v, radix, n), radix) == Rem(v, Pow(radix, n))
    decreases n
  {
    hide Pow, DigitChar, ToDigit, Quo, Rem, AllDigits, ReadValue, DigitString;
    PowNext(radix, 0);
    if n == 0 {
      QuoRemUnique(v, 1, v, 0);
      ReadNothing(radix);
      EmptyDigits(v, radix);
    } else {
      var q, d := Quo(v, radix), Rem(v, radix);
      DigitUnfold(v, radix, n);
      ReadsWritten(q, radix, n - 1);
      DigitRoundTrip(d);
      ReadSnoc(DigitString(q, radix, n - 1), DigitChar(d), radix);
      DigitsSnoc(DigitString(q, radix, n - 1), DigitChar(d), radix);
      RemUnfold(v, radix, n);
    }
  }

  lemma {:induction false} RemUnfold(v: nat, radix: nat, n: nat)
    requires radix > 0 && n > 0
    ensures Rem(v, Pow(radix, n)) == Rem(Quo(v, radix), Pow(radix, n - 1)) * radix + Rem(v, radix)
  {
    hide Pow, Quo, Rem;
    PowNext(radix, n - 1);
    QuoQuo(v, radix, Pow(radix, n - 1));
  }

  lemma {:induction false} ReadNothing(radix: nat)
    ensures ReadValue([], radix) == 0 && AllDigits([], radix)
  {}

  /** A digit as the writer spells it. */
  predicate Canonical(c: char, radix: nat)
    requires IsRadix(radix)
  {
    ToDigit(c) < radix && c == DigitChar(ToDigit(c))
  }

  lemma {:induction false} WritesReadSnoc(t: seq<char>, c: char, radix: nat)
    requires IsRadix(radix) && Canonical(c, radix) && DigitString(ReadValue(t, radix), radix, |t|) == t
    ensures DigitString(ReadValue(t + [c], radix), radix, |t| + 1) == t + [c]
  {
    ReadSnoc(t, c, radix);
    hide DigitChar, ToDigit, Quo, Rem, ReadValue;
    QuoRemUnique(ReadValue(t + [c], radix), radix, ReadValue(t, radix), ToDigit(c));
  }

  /** The digits of a value read from canonical digits are those digits. */
  lemma {:induction false} WritesRead(s: seq<char>, radix: nat)
    requires IsRadix(radix) && forall i :: 0 <= i < |s| ==> Canonical(s[i], radix)
    ensures DigitString(ReadValue(s, radix), radix, |s|) == s
  {
    if s == [] {
      EmptyDigits(ReadValue(s, radix), radix);
    } else {
      hide Canonical, DigitString, ReadValue;
      var n := |s| - 1;
      WritesRead(s[..n], radix);
      WritesReadSnoc(s[..n], s[n], radix);
      assert s == s[..n] + [s[n]];
    }
  }

  lemma {:induction false} DigitUnfold(v: nat, radix: nat, n: nat)
    requires IsRadix(radix) && n > 0
    ensures DigitString(v, radix, n) == DigitString(Quo(v, radix), radix, n - 1) + [DigitChar(Rem(v, radix))]
  {}

  lemma {:induction false} LastJoined(whole: seq<char>, front: seq<char>, a: seq<char>, b: seq<char>, bc: seq<char>,
          c: char)
    requires whole == front + [c] && front == a + b && bc == b + [c]
    ensures whole == a + bc
  {}

  lemma {:induction false} QuoPower(v: nat, radix: nat, k: nat)
    requires radix > 0 && k > 0
    ensures Quo(Quo(v, radix), Pow(radix, k - 1)) == Quo(v, Pow(radix, k))
  {
    hide Pow, Quo, Rem;
    PowNext(radix, k - 1);
    QuoQuo(v, radix, Pow(radix, k - 1));
  }

  /** High digits come from the quotient. */
  lemma {:induction false} DigitConcat(v: nat, radix: nat, n: nat, k: nat)
    requires IsRadix(radix)
    ensures DigitString(v, radix, n + k) == DigitString(Quo(v, Pow(radix, k)), radix, n) + DigitString(v, radix, k)
    decreases k
  {
    hide Pow, DigitChar, Quo, Rem, DigitString;
    PowNext(radix, 0);
    if k == 0 {
      QuoRemUnique(v, 1, v, 0);
      EmptyDigits(v, radix);
    } else {
      DigitConcat(Quo(v, radix), radix, n, k - 1);
      QuoPower(v, radix, k);
      DigitUnfold(v, radix, n + k);
      DigitUnfold(v, radix, k);
      assert n + k - 1 == n + (k - 1);
      LastJoined(DigitString(v, radix, n + k), DigitString(Quo(v, radix), radix, n + (k - 1)),
        DigitString(Quo(v, Pow(radix, k)), radix, n), DigitString(Quo(v, radix), radix, k - 1),
        DigitString(v, radix, k), DigitChar(Rem(v, radix)));
    }
  }

  /** The low digits depend only on the value modulo a multiple of radix^n. */
  lemma {:induction false} DigitsModulo(v: nat, radix: nat, n: nat, c: nat, w: nat)
    requires IsRadix(radix) && c > 0 && w == Pow(radix, n) * c
    ensures w > 0 && DigitString(Rem(v, w), radix, n) == DigitString(v, radix, n)
    decreases n
  {
    hide Pow, DigitChar, Quo, Rem, DigitString;
    MulAtLeast(c, Pow(radix, n));
    if n == 0 {
      EmptyDigits(v, radix);
      EmptyDigits(Rem(v, w), radix);
    } else {
      var u := SplitModulus(radix, n, c, w);
      DigitsModulo(Quo(v, radix), radix, n - 1, c, u);
      LowestDigit(v, radix, u);
      DigitUnfold(v, radix, n);
      DigitUnfold(Rem(v, w), radix, n);
    }
  }

  lemma {:induction false} SplitModulus(radix: nat, n: nat, c: nat, w: nat) returns (u: nat)
    requires radix > 0 && c > 0 && n > 0 && w == Pow(radix, n) * c
    ensures u == Pow(radix, n - 1) * c && u > 0 && w == radix * u
  {
    hide Pow;
    u := Pow(radix, n - 1) * c;
    MulAtLeast(c, Pow(radix, n - 1));
    PowNext(radix, n - 1);
    Assoc(radix, Pow(radix, n - 1), c);
  }

  lemma {:induction false} LowestDigit(v: nat, radix: nat, u: nat)
    requires radix > 0 && u > 0
    ensures radix * u > 0
    ensures Quo(Rem(v, radix * u), radix) == Rem(Quo(v, radix), u) && Rem(Rem(v, radix * u), radix) == Rem(v, radix)
  {
    hide Quo, Rem;
    QuoQuo(v, radix, u);
    var r, d := Rem(Quo(v, radix), u), Rem(v, radix);
    QuoRemUnique(d + radix * r, radix, r, d);
  }

  // ----- writing -----

  /** limb_to_a and u64toa_bin_len: the low `len` digits of a word, right to left. */
  method WriteLimb(buf: array<char>, off: nat, word: nat, radix: nat, len: nat)
    requires IsRadix(radix) && off + len <= buf.Length
    modifies buf
    ensures buf[off..off + len] == DigitString(word, radix, len)
    ensures buf[..off] == old(buf[..off]) && buf[off + len..] == old(buf[off + len..])
  {
    hide Pow, DigitChar, DigitString, Quo, Rem;
    PowNext(radix, 0);
    QuoRemUnique(word, 1, word, 0);
    var n := word;
    var i := len;
    EmptyDigits(word, radix);
    assert buf[off + len..off + len] == [];
    while i > 0
      invariant 0 <= i <= len && n == Quo(word, Pow(radix, len - i))
      invariant buf[off + i..off + len] == DigitString(word, radix, len - i)
      invariant buf[..off] == old(buf[..off]) && buf[off + len..] == old(buf[off + len..])
    {
      i := i - 1;
      ghost var tail := buf[off + i + 1..off + len];
      LeadingDigit(word, radix, len - (i + 1));
      var c := DigitChar(Rem(n, radix));
      buf[off + i] := c;
      assert buf[off + i..off + len] == [c] + tail;
      n := Quo(n, radix);
    }
  }

  lemma {:induction false} EmptyDigits(v: nat, radix: nat)
    requires IsRadix(radix)
    ensures DigitString(v, radix, 0) == []
  {}

  lemma {:induction false} LeadingDigit(v: nat, radix: nat, k: nat)
    requires IsRadix(radix)
    ensures Quo(Quo(v, Pow(radix, k)), radix) == Quo(v, Pow(radix, k + 1))
    ensures DigitString(v, radix, k + 1) == [DigitChar(Rem(Quo(v, Pow(radix, k)), radix))] + DigitString(v, radix, k)
  {
    hide Pow, DigitChar, Quo, Rem;
    PowNext(radix, k);
    QuoQuo(v, Pow(radix, k), radix);
    DigitConcat(v, radix, 1, k);
    var q := Quo(v, Pow(radix, k));
    assert DigitString(q, radix, 1) == DigitString(Quo(q, radix), radix, 0) + [DigitChar(Rem(q, radix))];
    assert 1 + k == k + 1;
  }

  // ----- chunks -----

  /** log2(radix) for a power of two, 0 for the others. */
  function RadixBits(radix: nat): nat
    requires IsRadix(radix)
  {
    if OddOf(radix) == 1 then Ctz(radix) else 0
  }

  lemma {:induction false} BinaryRadix(radix: nat)
    requires IsRadix(radix) && RadixBits(radix) != 0
    ensures radix == Pow(2, RadixBits(radix))
  {
    hide Pow, Ctz, OddOf;
    RadixSplit(radix);
  }

  lemma {:induction false} BinaryBase(radix: nat)
    requires IsRadix(radix) && RadixBits(radix) != 0
    ensures var bits, d := RadixBits(radix), Info(radix).limbDigits;
            && Pow(radix, d) == Pow(2, bits * d) && 0 < bits * d <= 32
  {
    hide Pow, Info, RadixBits;
    BinaryRadix(radix);
    LimbTable(radix);
    var bits, d := RadixBits(radix), Info(radix).limbDigits;
    PowPow(2, bits, d);
    MulAtLeast(bits, d);
    BaseIsPow();
    if bits * d > 32 {
      PowStrict(2, 32, bits * d);
    }
  }

  /** The low limb determines the digits it holds. */
  lemma {:induction false} BinaryChunk(s: seq<limb>, radix: nat, n: nat)
    requires IsRadix(radix) && RadixBits(radix) != 0 && s != [] && n <= Info(radix).limbDigits
    ensures DigitString(s[0], radix, n) == DigitString(Val(s), radix, n)
  {
    hide Pow, Info, RadixBits, DigitString, Val, Quo, Rem;
    BinaryBase(radix);
    BinaryRadix(radix);
    var bits, d := RadixBits(radix), Info(radix).limbDigits;
    ValFirst(s);
    QuoRemUnique(Val(s), BASE, Val(s[1..]), s[0]);
    PowPow(2, bits, n);
    MulMonotone(n, d, bits);
    BaseIsPow();
    PowAdd(2, bits * n, 32 - bits * n);
    DigitsModulo(Val(s), radix, n, Pow(2, 32 - bits * n), BASE);
  }

  /** Only 2, 4 and 16 fill a limb exactly. */
  lemma {:induction false} FullLimb(radix: nat)
    requires IsRadix(radix) && Info(radix).limbBase == 0
    ensures RadixBits(radix) != 0
  {
    assert radix == 2 || radix == 4 || radix == 16;
    hide Info;
    assert Ctz(2) == 1 && Ctz(4) == 2 && Ctz(16) == 4;
    assert Pow(2, 1) == 2 && Pow(2, 2) == 4 && Pow(2, 4) == 16;
  }

  lemma {:induction false} OtherBase(radix: nat)
    requires IsRadix(radix) && RadixBits(radix) == 0
    ensures Info(radix).limbBase != 0
  {
    hide Info, RadixBits;
    if Info(radix).limbBase == 0 {
      FullLimb(radix);
    }
  }

  lemma {:induction false} LowDigits(v: nat, radix: nat, n: nat)
    requires IsRadix(radix) && n <= Info(radix).limbDigits && 0 < BaseOf(radix)
    ensures DigitString(Rem(v, BaseOf(radix)), radix, n) == DigitString(v, radix, n)
  {
    hide Pow, Info, DigitString, BaseOf, Quo, Rem;
    LimbTable(radix);
    var d := Info(radix).limbDigits;
    PowAdd(radix, n, d - n);
    DigitsModulo(v, radix, n, Pow(radix, d - n), BaseOf(radix));
  }

  lemma {:induction false} RoundShiftDown(v: nat, s: nat)
    requires s > 0
    ensures RoundShift(v, s, TowardZero) == Quo(v, Pow(2, s))
  {}

  /** The next digits, from a power-of-two radix. */
  method BinaryStep(buf: array<char>, a: Mpb, radix: nat, left: nat, n: nat)
    requires IsRadix(radix) && RadixBits(radix) != 0 && left + n <= buf.Length
    requires n <= Info(radix).limbDigits && (left > 0 ==> n == Info(radix).limbDigits)
    requires a.Normal() && a.len < a.tab.Length
    modifies buf, a, a.tab
    ensures a.Normal() && a.len <= old(a.len) + 1
    ensures buf[left..left + n] == DigitString(old(a.Value()), radix, n)
    ensures buf[left + n..] == old(buf[left + n..])
    ensures left > 0 ==> a.Value() == Quo(old(a.Value()), Pow(radix, n))
  {
    BinaryBase(radix);
    hide Val, Pow, Info, NormalLimbs, DigitString, RadixBits, RoundShift, Quo, Rem;
    ghost var v := a.Value();
    BinaryChunk(a.tab[..a.len], radix, n);
    assert a.tab[..a.len][0] == a.tab[0];
    WriteLimb(buf, left, a.tab[0], radix, n);
    assert a.Value() == v;
    if left != 0 {
      var shift := RadixBits(radix) * Info(radix).limbDigits;
      RoundShiftDown(v, shift);
      a.ShrRound(shift, TowardZero);
    }
  }

  /** The next digits, by dividing by the largest power that fits a limb. */
  method DivideStep(buf: array<char>, a: Mpb, radix: nat, left: nat, n: nat)
    requires IsRadix(radix) && RadixBits(radix) == 0 && left + n <= buf.Length
    requires n <= Info(radix).limbDigits && (left > 0 ==> n == Info(radix).limbDigits)
    requires a.Normal()
    modifies buf, a, a.tab
    ensures a.Normal() && a.len <= old(a.len)
    ensures buf[left..left + n] == DigitString(old(a.Value()), radix, n)
    ensures buf[left + n..] == old(buf[left + n..])
    ensures left > 0 ==> a.Value() == Quo(old(a.Value()), Pow(radix, n))
  {
    LimbTable(radix);
    OtherBase(radix);
    hide Val, Pow, Info, NormalLimbs, DigitString, RadixBits, Quo, Rem;
    ghost var v := a.Value();
    ghost var was := a.tab[..a.len];
    var base: limb := Info(radix).limbBase;
    ValSnoc(was, 0);
    var r := DivSmall(a.tab, a.len, base, 0);
    QuoRemUnique(v, base, a.Value(), r);
    a.Renorm();
    LowDigits(v, radix, n);
    WriteLimb(buf, left, r, radix, n);
  }

  method WriteChunk(buf: array<char>, a: Mpb, radix: nat, left: nat, n: nat)
    requires IsRadix(radix) && left + n <= buf.Length
    requires n <= Info(radix).limbDigits && (left > 0 ==> n == Info(radix).limbDigits)
    requires a.Normal() && a.len < a.tab.Length
    modifies buf, a, a.tab
    ensures a.Normal() && a.len <= old(a.len) + 1
    ensures buf[left..left + n] == DigitString(old(a.Value()), radix, n)
    ensures buf[left + n..] == old(buf[left + n..])
    ensures left > 0 ==> a.Value() == Quo(old(a.Value()), Pow(radix, n))
  {
    hide Val, Pow, Info, NormalLimbs, DigitString, RadixBits, Quo, Rem;
    if RadixBits(radix) != 0 {
      BinaryStep(buf, a, radix, left, n);
    } else {
      DivideStep(buf, a, radix, left, n);
    }
  }

  /** What stands behind a chunk stays behind it. */
  lemma {:induction false} ChunkSlices(was: seq<char>, now: seq<char>, lo: nat, mid: nat, hi: nat)
    requires |was| == |now| && lo <= mid <= hi <= |now| && was[mid..] == now[mid..]
    ensures now[lo..hi] == now[lo..mid] + was[mid..hi]
  {
    assert now[mid..hi] == now[mid..][..hi - mid] == was[mid..][..hi - mid] == was[mid..hi];
  }

  /** All nDigits digits, chunk by chunk from the right. */
  method WriteAll(buf: array<char>, a: Mpb, radix: nat, nDigits: nat)
    requires IsRadix(radix) && 1 <= nDigits <= buf.Length
    requires a.Normal() && a.len + nDigits < a.tab.Length
    modifies buf, a, a.tab
    ensures buf[..nDigits] == DigitString(old(a.Value()), radix, nDigits)
  {
    hide Val, Pow, Info, NormalLimbs, DigitString, RadixBits, Quo, Rem;
    LimbTable(radix);
    PowNext(radix, 0);
    ghost var v := a.Value();
    QuoRemUnique(v, 1, v, 0);
    EmptyDigits(v, radix);
    assert buf[nDigits..nDigits] == [];
    var left := nDigits;
    while left != 0
      invariant 0 <= left <= nDigits && a.Normal() && a.len + left < a.tab.Length
      invariant left > 0 ==> a.Value() == Quo(v, Pow(radix, nDigits - left))
      invariant buf[left..nDigits] == DigitString(v, radix, nDigits - left)
    {
      var n := Min(left, Info(radix).limbDigits);
      ghost var done := nDigits - left;
      ghost var was := buf[..];
      NextChunk(v, radix, n, done);
      WriteChunk(buf, a, radix, left - n, n);
      ChunkSlices(was, buf[..], left - n, left, nDigits);
      left := left - n;
    }
    assert buf[..nDigits] == buf[0..nDigits];
  }

  lemma {:induction false} NextChunk(v: nat, radix: nat, n: nat, done: nat)
    requires IsRadix(radix)
    ensures Quo(Quo(v, Pow(radix, done)), Pow(radix, n)) == Quo(v, Pow(radix, n + done))
    ensures DigitString(v, radix, n + done) == DigitString(Quo(v, Pow(radix, done)), radix, n)
            + DigitString(v, radix, done)
  {
    hide Pow, DigitString, Quo, Rem;
    PowAdd(radix, done, n);
    QuoQuo(v, Pow(radix, done), Pow(radix, n));
    DigitConcat(v, radix, n, done);
    assert n + done == done + n;
  }

  /** Moves the digits after dotPos up by one and writes the dot. */
  method InsertDot(buf: array<char>, n: nat, dotPos: nat)
    requires dotPos < n < buf.Length
    modifies buf
    ensures buf[..n + 1] == old(buf[..dotPos]) + ['.'] + old(buf[dotPos..n])
  {
    ghost var s := buf[..n];
    var i := n;
    while i > dotPos
      invariant dotPos <= i <= n
      invariant forall k :: 0 <= k < i ==> buf[k] == s[k]
      invariant forall k :: i < k <= n ==> buf[k] == s[k - 1]
    {
      i := i - 1;
      buf[i + 1] := buf[i];
    }
    buf[dotPos] := '.';
    assert buf[..n + 1] == s[..dotPos] + ['.'] + s[dotPos..];
    assert s[..dotPos] == old(buf[..dotPos]) && s[dotPos..] == old(buf[dotPos..n]);
  }

  /** All nDigits digits, and the dot. */
  method OutputDigits(buf: array<char>, a: Mpb, radix: nat, nDigits: nat, dotPos: nat) returns (len: nat)
    requires IsRadix(radix) && 1 <= nDigits < buf.Length && dotPos <= nDigits
    requires a.Normal() && a.len + nDigits < a.tab.Length
    modifies buf, a, a.tab
    ensures len == if dotPos == nDigits then nDigits else nDigits + 1
    ensures var s := DigitString(old(a.Value()), radix, nDigits);
            buf[..len] == if dotPos == nDigits then s else s[..dotPos] + ['.'] + s[dotPos..]
  {
    hide Val, NormalLimbs, DigitString;
    WriteAll(buf, a, radix, nDigits);
    ghost var s := buf[..nDigits];
    len := nDigits;
    if dotPos != nDigits {
      assert buf[..dotPos] == s[..dotPos] && buf[dotPos..nDigits] == s[dotPos..];
      InsertDot(buf, nDigits, dotPos);
      len := len + 1;
    }
  }

  // ----- reading -----

  /** r * 2^32 + a */
  method PushLimb(r: Mpb, a: limb)
    requires r.Normal() && r.len + 1 < r.tab.Length
    modifies r, r.tab
    ensures r.Normal() && r.len <= old(r.len) + 1 && r.Value() == old(r.Value()) * BASE + a
  {
    hide Val, Pow;
    ghost var s := r.tab[..r.len];
    var i := r.len + 1;
    while i > 0
      invariant 0 <= i <= r.len + 1 && r.len == |s|
      invariant forall k :: 0 <= k < |s| && k < i ==> r.tab[k] == s[k]
      invariant forall k :: i <= k < |s| ==> r.tab[k + 1] == s[k]
    {
      i := i - 1;
      r.tab[i + 1] := r.tab[i];
    }
    r.tab[0] := a;
    assert r.tab[..r.len + 1] == [a] + s;
    ValFirst([a] + s);
    assert ([a] + s)[1..] == s;
    r.len := r.len + 1;
    r.Renorm();
  }

  /** r * base + a, where base 0 stands for 2^32. */
  method MulBase(r: Mpb, base: limb, a: limb)
    requires r.Normal() && r.len + 1 < r.tab.Length
    modifies r, r.tab
    ensures r.Normal() && r.len <= old(r.len) + 1
    ensures r.Value() == old(r.Value()) * (if base == 0 then BASE else base) + a
  {
    hide Val, Pow;
    ghost var s := r.tab[..r.len];
    ghost var v := r.Value();
    ValStart(a);
    ValStart(s[0]);
    if r.tab[0] == 0 && r.len == 1 {
      assert s == [s[0]];
      r.tab[0] := a;
      assert r.tab[..1] == [a];
    } else if base == 0 {
      PushLimb(r, a);
    } else {
      var h := MulSmall(r.tab, r.len, base, a);
      r.tab[r.len] := h;
      assert r.tab[..r.len + 1] == r.tab[..r.len] + [h];
      r.len := r.len + 1;
      r.Renorm();
    }
  }

  /** What has been read: whole chunks in r, the last digits in cur. */
  ghost predicate ReadSoFar(v: nat, total: nat, radix: nat, count: nat, cur: nat) {
    total == v * Pow(radix, count) + cur && cur < Pow(radix, count)
  }

  lemma {:induction false} NextDigit(v: nat, total: nat, radix: nat, count: nat, cur: nat, c: nat)
    requires ReadSoFar(v, total, radix, count, cur) && c < radix
    ensures ReadSoFar(v, total * radix + c, radix, count + 1, cur * radix + c)
  {
    hide Pow;
    PowNext(radix, count);
    var p := Pow(radix, count);
    Congruent(radix, total, v * p + cur);
    Distribute(radix, v * p, cur);
    Assoc(v, p, radix);
    MulMonotone(cur + 1, p, radix);
    Distribute(radix, cur, 1);
  }

  lemma {:induction false} ChunkFits(radix: nat, count: nat)
    requires IsRadix(radix) && count <= Info(radix).limbDigits
    ensures 0 < Pow(radix, count) <= BaseOf(radix) <= BASE
    ensures count < Info(radix).limbDigits ==> Pow(radix, count) < BASE
  {
    LimbTable(radix);
    hide Info, Pow;
    var d := Info(radix).limbDigits;
    PowMonotone(radix, count, d);
    if count < d {
      PowStrict(radix, count, d);
    }
  }

  /** Some digit from index i on is not zero. */
  predicate NonZero(s: seq<char>, i: nat) {
    exists k :: i <= k < |s| && ToDigit(s[k]) != 0
  }

  lemma {:induction false} NonZeroSnoc(s: seq<char>, i: nat, n: nat)
    requires i <= n < |s|
    ensures NonZero(s[..n + 1], i) <==> NonZero(s[..n], i) || ToDigit(s[n]) != 0
    ensures !NonZero(s[..n], n)
  {
    hide ToDigit;
    if NonZero(s[..n], i) {
      var k :| i <= k < n && ToDigit(s[..n][k]) != 0;
      assert s[..n + 1][k] == s[..n][k];
    }
    if NonZero(s[..n + 1], i) {
      var k :| i <= k < n + 1 && ToDigit(s[..n + 1][k]) != 0;
      if k < n {
        assert s[..n][k] == s[..n + 1][k];
      }
    }
    assert ToDigit(s[n]) != 0 ==> ToDigit(s[..n + 1][n]) != 0;
  }

  /** One more digit: into the current limb, which is flushed when full. */
  method ReadStep(r: Mpb, ghost total: nat, radix: nat, count0: nat, cur0: limb, c: nat) returns (count: nat, cur: limb)
    requires IsRadix(radix) && c < radix && count0 < Info(radix).limbDigits
    requires r.Normal() && r.len + 1 < r.tab.Length && ReadSoFar(r.Value(), total, radix, count0, cur0)
    modifies r, r.tab
    ensures r.Normal() && r.len <= old(r.len) + 1 && count < Info(radix).limbDigits
    ensures ReadSoFar(r.Value(), total * radix + c, radix, count, cur)
  {
    hide Val, Pow, Info, NormalLimbs, ReadSoFar;
    LimbTable(radix);
    ghost var v := r.Value();
    NextDigit(v, total, radix, count0, cur0, c);
    ChunkFits(radix, count0 + 1);
    ReadBound(v, total * radix + c, radix, count0 + 1, cur0 * radix + c);
    cur := cur0 * radix + c;
    count := count0 + 1;
    if count == Info(radix).limbDigits {
      ReadFlush(v, total * radix + c, radix, count, cur);
      MulBase(r, Info(radix).limbBase, cur);
      cur, count := 0, 0;
    }
  }

  /** The value of a digit string, or of its first atodDigits digits; `extra`
      tells whether a later digit is not zero. */
  method ReadDigits(s: seq<char>, radix: nat, r: Mpb) returns (digitCount: nat, extra: bool)
    requires IsRadix(radix) && AllDigits(s, radix)
    requires r.Normal() && r.Value() == 0 && r.len + |s| + 2 < r.tab.Length
    modifies r, r.tab
    ensures digitCount == Min(|s|, Info(radix).atodDigits)
    ensures r.Normal() && r.Value() == ReadValue(s[..digitCount], radix) && r.len <= old(r.len) + |s| + 1
    ensures extra <==> NonZero(s, digitCount)
  {
    hide Val, Pow, Info, NormalLimbs, ReadSoFar, ReadValue, NonZero, ToDigit;
    LimbTable(radix);
    var cur: limb, count: nat := 0, 0;
    digitCount, extra := 0, false;
    ReadStart(radix);
    assert s[..0] == [];
    NothingAfter([], []);
    var i := 0;
    while i < |s|
      invariant 0 <= i <= |s| && digitCount == Min(i, Info(radix).atodDigits)
      invariant r.Normal() && r.len <= old(r.len) + i && count < Info(radix).limbDigits
      invariant ReadSoFar(r.Value(), ReadValue(s[..digitCount], radix), radix, count, cur)
      invariant extra <==> NonZero(s[..i], digitCount)
    {
      var c := ToDigit(s[i]);
      NonZeroSnoc(s, digitCount, i);
      if digitCount < Info(radix).atodDigits {
        ReadSnoc(s[..i], s[i], radix);
        assert s[..i + 1] == s[..i] + [s[i]];
        NothingAfter(s[..i], s[..i + 1]);
        count, cur := ReadStep(r, ReadValue(s[..i], radix), radix, count, cur, c);
        digitCount := digitCount + 1;
      } else if c != 0 {
        extra := true;
      }
      i := i + 1;
    }
    assert s[..i] == s;
    FinishRead(r, ReadValue(s[..digitCount], radix), radix, count, cur);
  }

  /** The final partial chunk. */
  method FinishRead(r: Mpb, ghost total: nat, radix: nat, count: nat, cur: limb)
    requires IsRadix(radix) && count < Info(radix).limbDigits
    requires r.Normal() && r.len + 1 < r.tab.Length && ReadSoFar(r.Value(), total, radix, count, cur)
    modifies r, r.tab
    ensures r.Normal() && r.Value() == total && r.len <= old(r.len) + 1
  {
    hide Val, Pow, Info, NormalLimbs, ReadSoFar;
    LimbTable(radix);
    ghost var v := r.Value();
    if count != 0 {
      ChunkFits(radix, count);
      ReadFlush(v, total, radix, count, cur);
      var base := PowUi(radix, count);
      MulBase(r, base, cur);
    } else {
      ReadBound(v, total, radix, 0, cur);
      PowNext(radix, 0);
    }
    ReadDone(r.Value(), total, radix);
  }

  lemma {:induction false} NothingAfter(s: seq<char>, t: seq<char>)
    ensures !NonZero(s, |s|) && !NonZero(t, |t|)
  {}

  lemma {:induction false} ReadStart(radix: nat)
    ensures ReadSoFar(0, ReadValue([], radix), radix, 0, 0)
  {
    PowNext(radix, 0);
  }

  lemma {:induction false} ReadBound(v: nat, total: nat, radix: nat, count: nat, cur: nat)
    requires ReadSoFar(v, total, radix, count, cur)
    ensures cur < Pow(radix, count)
  {}

  lemma {:induction false} ReadFlush(v: nat, total: nat, radix: nat, count: nat, cur: nat)
    requires ReadSoFar(v, total, radix, count, cur)
    ensures ReadSoFar(v * Pow(radix, count) + cur, total, radix, 0, 0)
  {
    PowNext(radix, 0);
  }

  lemma {:induction false} ReadDone(v: nat, total: nat, radix: nat)
    ensures ReadSoFar(v, total, radix, 0, 0) ==> v == total
  {
    PowNext(radix, 0);
  }
}
