/** Reading a number's text: leading zeros, digits, the dot and the exponent, as
    js_atod does for an explicit radix. */
module DtoaScan {
  import opened DtoaTables
  import opened DtoaScale
  import opened DtoaDigits

  /** The text ends with a NUL. */
  function CharAt(s: seq<char>, p: nat): char { if p < |s| then s[p] else '\0' }

  /** A position in the text: the next character, the dot's place among the digits
      (-1 before it is seen) and the number of digits passed. */
  datatype Cursor = Cursor(p: nat, dot: int, pos: nat)

  /** A dot that belongs to the number. */
  predicate DotHere(s: seq<char>, start: nat, radix: nat, p: nat) {
    CharAt(s, p) == '.' && (p > start || ToDigit(CharAt(s, p + 1)) < radix)
  }

  /** Past a first dot. */
  function PassDot(s: seq<char>, start: nat, radix: nat, c: Cursor): Cursor {
    if DotHere(s, start, radix, c.p) then Cursor(c.p + 1, c.pos, c.pos) else c
  }

  predicate SecondDot(s: seq<char>, start: nat, radix: nat, c: Cursor) {
    DotHere(s, start, radix, c.p) && c.dot >= 0
  }

  function Onward(c: Cursor): Cursor { c.(p := c.p + 1, pos := c.pos + 1) }

  function SkipZeros(s: seq<char>, start: nat, radix: nat, c: Cursor): Cursor
    decreases |s| - c.p
  {
    if SecondDot(s, start, radix, c) then c
    else
      var d := PassDot(s, start, radix, c);
      if CharAt(s, d.p) != '0' then d else SkipZeros(s, start, radix, Onward(d))
  }

  /** The digits from c on, appended to acc. */
  function ReadAll(s: seq<char>, start: nat, radix: nat, c: Cursor, acc: seq<char>): (Cursor, seq<char>)
    requires radix <= 36
    decreases |s| - c.p
  {
    if SecondDot(s, start, radix, c) then (c, acc)
    else
      var d := PassDot(s, start, radix, c);
      if ToDigit(CharAt(s, d.p)) >= radix then (d, acc)
      else ReadAll(s, start, radix, Onward(d), acc + [CharAt(s, d.p)])
  }

  // ----- the exponent -----

  predicate HasExponent(s: seq<char>, start: nat, radix: nat, p: nat)
    requires IsRadix(radix)
  {
    var c := CharAt(s, p);
    && p > start
    && if radix == 10 then c == 'e' || c == 'E'
       else c == '@' || (1 <= RadixBits(radix) <= 4 && (c == 'p' || c == 'P'))
  }

  const EXPN_LIMIT: nat := 214748363

  datatype Exponent = NoExponent | BadExponent | Exponent(value: int, negative: bool, binary: bool, overflow: bool)

  /** Decimal digits with the overflow guard. */
  function ExpDigits(s: seq<char>, p: nat, expn: nat, overflow: bool): (nat, bool)
    decreases |s| - p
  {
    var c := ToDigit(CharAt(s, p));
    if c >= 10 then (expn, overflow)
    else if overflow || expn > EXPN_LIMIT then ExpDigits(s, p + 1, expn, true)
    else ExpDigits(s, p + 1, expn * 10 + c, false)
  }

  function ReadExponent(s: seq<char>, start: nat, radix: nat, p: nat): Exponent
    requires IsRadix(radix)
  {
    if !HasExponent(s, start, radix, p) then NoExponent
    else
      var binary := CharAt(s, p) == 'p' || CharAt(s, p) == 'P';
      var negative := CharAt(s, p + 1) == '-';
      var q := if negative || CharAt(s, p + 1) == '+' then p + 2 else p + 1;
      var c := ToDigit(CharAt(s, q));
      if c >= 10 then BadExponent
      else
        var r := ExpDigits(s, q + 1, c, false);
        Exponent(if negative then 0 - r.0 else r.0, negative, binary, r.1)
  }

  // ----- the number -----

  /** digits * radix^expn * 2^bexp; `huge` marks an exponent too long to read. */
  datatype Number = NotANumber | Number(digits: seq<char>, expn: int, bexp: int, huge: bool, tiny: bool)

  /** Digits read up to d, leading zeros up to c, and the exponent behind them. */
  function Assembled(start: nat, c: Cursor, d: Cursor, digits: seq<char>, e: Exponent): Number {
    var dot := if d.dot < 0 then d.pos else d.dot;
    var offset := c.pos + |digits| - dot;
    if e == BadExponent || d.p == start then NotANumber
    else if e == NoExponent then Number(digits, -offset, 0, false, false)
    else if e.binary then Number(digits, -offset, e.value, e.overflow && !e.negative, e.overflow && e.negative)
    else Number(digits, e.value - offset, 0, e.overflow && !e.negative, e.overflow && e.negative)
  }

  /** The number at p0; start is the position after the sign. */
  function ScanNumber(s: seq<char>, start: nat, p0: nat, radix: nat): Number
    requires IsRadix(radix)
  {
    var c := SkipZeros(s, start, radix, Cursor(p0, -1, 0));
    var (d, digits) := ReadAll(s, start, radix, c, []);
    Assembled(start, c, d, digits, ReadExponent(s, start, radix, d.p))
  }

  // ----- the number as it is written -----

  /** Decimal digits, however many. */
  function AllExpDigits(s: seq<char>, p: nat, expn: nat): nat
    decreases |s| - p
  {
    var c := ToDigit(CharAt(s, p));
    if c >= 10 then expn else AllExpDigits(s, p + 1, expn * 10 + c)
  }

  /** The exponent without a limit. */
  function WrittenExponent(s: seq<char>, start: nat, radix: nat, p: nat): Exponent
    requires IsRadix(radix)
  {
    if !HasExponent(s, start, radix, p) then NoExponent
    else
      var binary := CharAt(s, p) == 'p' || CharAt(s, p) == 'P';
      var negative := CharAt(s, p + 1) == '-';
      var q := if negative || CharAt(s, p + 1) == '+' then p + 2 else p + 1;
      var c := ToDigit(CharAt(s, q));
      if c >= 10 then BadExponent
      else
        var x := AllExpDigits(s, q + 1, c);
        Exponent(if negative then 0 - x else x, negative, binary, false)
  }

  function WrittenNumber(s: seq<char>, start: nat, p0: nat, radix: nat): Number
    requires IsRadix(radix)
  {
    var c := SkipZeros(s, start, radix, Cursor(p0, -1, 0));
    var (d, digits) := ReadAll(s, start, radix, c, []);
    Assembled(start, c, d, digits, WrittenExponent(s, start, radix, d.p))
  }

  /** The exponent behind the digits. */
  function ExponentIn(s: seq<char>, start: nat, p0: nat, radix: nat): Exponent
    requires IsRadix(radix)
  {
    var c := SkipZeros(s, start, radix, Cursor(p0, -1, 0));
    WrittenExponent(s, start, radix, ReadAll(s, start, radix, c, []).0.p)
  }

  const MAX_READ: int := 2147483639

  lemma {:induction false} AllExpDigitsGrow(s: seq<char>, p: nat, expn: nat)
    ensures AllExpDigits(s, p, expn) >= expn
    decreases |s| - p
  {
    DotIsNoDigit();
    hide ToDigit;
    var c := ToDigit(CharAt(s, p));
    if c < 10 {
      AllExpDigitsGrow(s, p + 1, expn * 10 + c);
    }
  }

  lemma {:induction false} GuardStays(s: seq<char>, p: nat, expn: nat)
    ensures ExpDigits(s, p, expn, true).1
    decreases |s| - p
  {
    DotIsNoDigit();
    hide ToDigit;
    if ToDigit(CharAt(s, p)) < 10 {
      GuardStays(s, p + 1, expn);
    }
  }

  /** The guard stops exactly the exponents beyond 2147483639, and the others are read
      as written. */
  lemma {:induction false} GuardExact(s: seq<char>, p: nat, expn: nat)
    requires expn <= MAX_READ
    ensures var r, x := ExpDigits(s, p, expn, false), AllExpDigits(s, p, expn);
            (r.1 <==> x > MAX_READ) && (!r.1 ==> r.0 == x)
    decreases |s| - p
  {
    DotIsNoDigit();
    hide ToDigit;
    var c := ToDigit(CharAt(s, p));
    if c < 10 {
      if expn > EXPN_LIMIT {
        AllExpDigitsGrow(s, p + 1, expn * 10 + c);
        GuardStays(s, p + 1, expn);
      } else {
        GuardExact(s, p + 1, expn * 10 + c);
      }
    }
  }

  /** What the guard makes of the exponent. */
  lemma {:induction false} ExponentGuard(s: seq<char>, start: nat, radix: nat, p: nat)
    requires IsRadix(radix)
    ensures var e, w := ReadExponent(s, start, radix, p), WrittenExponent(s, start, radix, p);
            && (e.Exponent? <==> w.Exponent?) && (!e.Exponent? ==> e == w)
            && (e.Exponent? ==>
                  && w.negative == e.negative && w.binary == e.binary && !w.overflow
                  && (w.negative ==> w.value <= 0) && (!w.negative ==> w.value >= 0)
                  && (e.overflow <==> w.value < -MAX_READ || w.value > MAX_READ) && (!e.overflow ==> e == w))
  {
    hide HasExponent, ToDigit, ExpDigits, AllExpDigits;
    if HasExponent(s, start, radix, p) {
      var negative := CharAt(s, p + 1) == '-';
      var q := if negative || CharAt(s, p + 1) == '+' then p + 2 else p + 1;
      var c := ToDigit(CharAt(s, q));
      if c < 10 {
        GuardExact(s, q + 1, c);
      }
    }
  }

  /** The number scanned is the number written, unless the guard stopped its exponent. */
  lemma {:induction false} ScanIsWritten(s: seq<char>, start: nat, p0: nat, radix: nat)
    requires IsRadix(radix)
    ensures var n, w, e := ScanNumber(s, start, p0, radix), WrittenNumber(s, start, p0, radix),
            ExponentIn(s, start, p0, radix);
            && (n.NotANumber? <==> w.NotANumber?)
            && (w.Number? ==>
                  && !w.huge && !w.tiny && n.digits == w.digits
                  && (n.huge <==> e.Exponent? && e.value > MAX_READ) && (n.tiny <==> e.Exponent? && e.value < -MAX_READ)
                  && (!n.huge && !n.tiny ==> n == w))
  {
    hide SkipZeros, ReadAll, ReadExponent, WrittenExponent;
    var c := SkipZeros(s, start, radix, Cursor(p0, -1, 0));
    var (d, digits) := ReadAll(s, start, radix, c, []);
    ExponentGuard(s, start, radix, d.p);
  }

  // ----- runs of characters -----

  lemma {:induction false} ZerosPassed(s: seq<char>, start: nat, radix: nat, c: Cursor, n: nat)
    requires c.p + n <= |s| && forall i :: c.p <= i < c.p + n ==> s[i] == '0'
    ensures SkipZeros(s, start, radix, c) == SkipZeros(s, start, radix, Cursor(c.p + n, c.dot, c.pos + n))
    decreases n
  {
    if n > 0 {
      ZerosPassed(s, start, radix, Onward(c), n - 1);
    }
  }

  lemma {:induction false} DigitsPassed(s: seq<char>, start: nat, radix: nat, c: Cursor, acc: seq<char>, n: nat)
    requires IsRadix(radix) && c.p + n <= |s| && AllDigits(s[c.p..c.p + n], radix)
    ensures ReadAll(s, start, radix, c, acc) == ReadAll(s, start, radix, Cursor(c.p + n, c.dot, c.pos + n),
            acc + s[c.p..c.p + n])
    decreases n
  {
    if n == 0 {
      assert acc + s[c.p..c.p] == acc;
    } else {
      var t := s[c.p..c.p + n];
      assert t[0] == s[c.p] && ToDigit(t[0]) < radix;
      assert s[c.p + 1..c.p + n] == t[1..];
      forall i | 0 <= i < n - 1 ensures ToDigit(t[1..][i]) < radix {
        assert t[1..][i] == t[i + 1];
      }
      hide ToDigit;
      DotIsNoDigit();
      DigitsPassed(s, start, radix, Onward(c), acc + [s[c.p]], n - 1);
      assert acc + [s[c.p]] + t[1..] == acc + t;
    }
  }

  lemma {:induction false} DotIsNoDigit()
    ensures ToDigit('.') == 36 && ToDigit('\0') == 36
  {}

  /** The loops of js_atod over the text. */
  method SkipZerosLoop(s: seq<char>, start: nat, radix: nat, c0: Cursor) returns (c: Cursor)
    ensures c == SkipZeros(s, start, radix, c0)
  {
    c := c0;
    while true
      invariant SkipZeros(s, start, radix, c) == SkipZeros(s, start, radix, c0)
      decreases |s| - c.p
    {
      if CharAt(s, c.p) == '.' && (c.p > start || ToDigit(CharAt(s, c.p + 1)) < radix) {
        if c.dot >= 0 {
          return;
        }
        c := Cursor(c.p + 1, c.pos, c.pos);
      }
      if CharAt(s, c.p) != '0' {
        return;
      }
      c := Cursor(c.p + 1, c.dot, c.pos + 1);
    }
  }

  method ReadAllLoop(s: seq<char>, start: nat, radix: nat, c0: Cursor) returns (c: Cursor, digits: seq<char>)
    requires radix <= 36
    ensures (c, digits) == ReadAll(s, start, radix, c0, [])
  {
    c, digits := c0, [];
    hide ToDigit;
    DotIsNoDigit();
    while true
      invariant ReadAll(s, start, radix, c, digits) == ReadAll(s, start, radix, c0, [])
      decreases |s| - c.p
    {
      var d := c;
      if CharAt(s, c.p) == '.' && (c.p > start || ToDigit(CharAt(s, c.p + 1)) < radix) {
        if c.dot >= 0 {
          return;
        }
        d := Cursor(c.p + 1, c.pos, c.pos);
      }
      if ToDigit(CharAt(s, d.p)) >= radix {
        c := d;
        return;
      }
      c, digits := Cursor(d.p + 1, d.dot, d.pos + 1), digits + [CharAt(s, d.p)];
    }
  }

  method ExpDigitsLoop(s: seq<char>, p0: nat, first: nat) returns (expn: nat, overflow: bool)
    ensures (expn, overflow) == ExpDigits(s, p0, first, false)
  {
    var p := p0;
    expn, overflow := first, false;
    hide ToDigit;
    DotIsNoDigit();
    while ToDigit(CharAt(s, p)) < 10
      invariant ExpDigits(s, p, expn, overflow) == ExpDigits(s, p0, first, false)
      decreases |s| - p
    {
      if !overflow {
        if expn > (0x7fff_ffff - 2 - 9) / 10 {
          overflow := true;
        } else {
          expn := expn * 10 + ToDigit(CharAt(s, p));
        }
      }
      p := p + 1;
    }
  }
}
