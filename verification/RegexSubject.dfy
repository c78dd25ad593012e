/** How the executor reads the subject: characters forward and backward, and the tests
    of assertions, on the code units themselves. */
module RegexSubject {
  import opened RegexSyntax

  // ----- characters and code units -----

  /** UTF16EncodeCodePoint, section 11.1.1 of ECMA-262. */
  function Utf16(c: nat): seq<nat> {
    if c < 0x10000 then [c] else [0xd800 + (c - 0x10000) / 0x400, 0xdc00 + (c - 0x10000) % 0x400]
  }

  /** Sixteen bits each. */
  predicate AreUnits(input: seq<nat>) {
    forall i :: 0 <= i < |input| ==> input[i] < 0x10000
  }

  /** A high surrogate followed by a low one. */
  predicate IsPair(input: seq<nat>, pos: nat)
    requires pos + 1 < |input|
  {
    0xd800 <= input[pos] <= 0xdbff && 0xdc00 <= input[pos + 1] <= 0xdfff
  }

  lemma {:induction false} PairEncodes(hi: nat, lo: nat)
    requires 0xd800 <= hi <= 0xdbff && 0xdc00 <= lo <= 0xdfff
    ensures Utf16(0x10000 + 0x400 * (hi - 0xd800) + (lo - 0xdc00)) == [hi, lo]
  {
    var d, r := hi - 0xd800, lo - 0xdc00;
    assert (0x400 * d + r) / 0x400 == d && (0x400 * d + r) % 0x400 == r;
  }

  /** The character read encodes back to the units consumed, and these are two exactly
      where a pair stands before the limit and pairs are read as one. */
  lemma {:induction false} CharAtUnits(env: Env, pos: nat, limit: nat)
    requires AreUnits(env.input) && pos < limit <= |env.input|
    ensures var (c, next) := CharAt(env, pos, limit);
            && Utf16(c) == env.input[pos..next]
            && (next == pos + 2 <==> env.utf16 && pos + 1 < limit && IsPair(env.input, pos))
  {
    if env.utf16 && pos + 1 < limit && IsPair(env.input, pos) {
      PairEncodes(env.input[pos], env.input[pos + 1]);
      assert env.input[pos..pos + 2] == [env.input[pos], env.input[pos + 1]];
    } else {
      assert env.input[pos..pos + 1] == [env.input[pos]];
    }
  }

  /** The same for the character before a position. */
  lemma {:induction false} CharBeforeUnits(env: Env, pos: nat)
    requires AreUnits(env.input) && 0 < pos <= |env.input|
    ensures var n := |Utf16(CharBefore(env, pos))|;
            && n <= pos && Utf16(CharBefore(env, pos)) == env.input[pos - n..pos]
            && (n == 2 <==> env.utf16 && pos >= 2 && IsPair(env.input, pos - 2))
  {
    if env.utf16 && pos >= 2 && IsPair(env.input, pos - 2) {
      PairEncodes(env.input[pos - 2], env.input[pos - 1]);
      assert env.input[pos - 2..pos] == [env.input[pos - 2], env.input[pos - 1]];
    } else {
      assert env.input[pos - 1..pos] == [env.input[pos - 1]];
    }
  }

  // ----- assertions on code units -----

  /** 0-9, A-Z, a-z and _. */
  predicate WordUnit(u: nat) {
    '0' as nat <= u <= '9' as nat || 'A' as nat <= u <= 'Z' as nat || 'a' as nat <= u <= 'z' as nat || u == '_' as nat
  }

  /** Line feed, carriage return, line separator, paragraph separator. */
  predicate EndsLine(u: nat) { u == '\n' as nat || u == '\r' as nat || u == 0x2028 || u == 0x2029 }

  /** Whether or not pairs are read as one character, an assertion looks at the unit before
      and the unit after the position alone. */
  lemma {:induction false} AssertionUnits(env: Env, pos: nat)
    requires pos <= |env.input|
    ensures var s := env.input;
            var before, after := pos > 0 && WordUnit(s[pos - 1]), pos < |s| && WordUnit(s[pos]);
            && (Holds(env, LineStart, pos) <==> pos == 0)
            && (Holds(env, LineEnd, pos) <==> pos == |s|)
            && (Holds(env, LineStartM, pos) <==> pos == 0 || EndsLine(s[pos - 1]))
            && (Holds(env, LineEndM, pos) <==> pos == |s| || EndsLine(s[pos]))
            && (Holds(env, WordBoundary, pos) <==> (before && !after) || (!before && after))
            && (Holds(env, NotWordBoundary, pos) <==> (before && after) || (!before && !after))
  {}

  // ----- the executor's own reading -----

  /** GET_CHAR and PEEK_CHAR. */
  method GetChar(env: Env, pos: nat, limit: nat) returns (c: nat, next: nat)
    requires pos < limit <= |env.input|
    ensures (c, next) == CharAt(env, pos, limit)
  {
    c, next := env.input[pos], pos + 1;
    if c / 0x400 == 0xd800 / 0x400 && env.utf16 {
      if next < limit && env.input[next] / 0x400 == 0xdc00 / 0x400 {
        c := 0x10000 + 0x400 * (c - 0xd800) + (env.input[next] - 0xdc00);
        next := next + 1;
      }
    }
  }

  /** PEEK_PREV_CHAR. */
  method PeekPrevChar(env: Env, pos: nat) returns (c: nat)
    requires 0 < pos <= |env.input|
    ensures c == CharBefore(env, pos)
  {
    var p := pos - 1;
    c := env.input[p];
    if c / 0x400 == 0xdc00 / 0x400 && env.utf16 {
      if p > 0 && env.input[p - 1] / 0x400 == 0xd800 / 0x400 {
        p := p - 1;
        c := 0x10000 + 0x400 * (env.input[p] - 0xd800) + (c - 0xdc00);
      }
    }
  }

  /** is_line_terminator. */
  method TestLineTerminator(c: nat) returns (yes: bool)
    ensures yes <==> IsLineTerminator(c)
  {
    yes := c == 0x0a || c == 0x0d || c == 0x2028 || c == 0x2029;
  }

  // ----- the character type table -----

  const SPACE: bv8 := 1
  const DIGIT: bv8 := 2
  const UPPER: bv8 := 4
  const LOWER: bv8 := 8
  const UNDER: bv8 := 16
  const DOLLAR: bv8 := 32
  const XDIGIT: bv8 := 64

  /** Rows of 32 entries of lre_ctype_bits; those from 128 on hold at most SPACE. */
  function CtypeRow(k: nat): (row: seq<bv8>)
    requires k < 8
    ensures |row| == 32
  {
    var S, D, U, L, H, u, l := SPACE, XDIGIT | DIGIT, UPPER, LOWER, DOLLAR, XDIGIT | UPPER, XDIGIT | LOWER;
    match k
    case 0 => [0, 0, 0, 0, 0, 0, 0, 0, 0, S, S, S, S, S, 0, 0, 0, 0, 0, 0, 0, 0, 0, 0, 0, 0, 0, 0, 0, 0, 0, 0]
    case 1 => [S, 0, 0, 0, H, 0, 0, 0, 0, 0, 0, 0, 0, 0, 0, 0, D, D, D, D, D, D, D, D, D, D, 0, 0, 0, 0, 0, 0]
    case 2 => [0, u, u, u, u, u, u, U, U, U, U, U, U, U, U, U, U, U, U, U, U, U, U, U, U, U, U, 0, 0, 0, 0, UNDER]
    case 3 => [0, l, l, l, l, l, l, L, L, L, L, L, L, L, L, L, L, L, L, L, L, L, L, L, L, L, L, 0, 0, 0, 0, 0]
    case 5 => [S, 0, 0, 0, 0, 0, 0, 0, 0, 0, 0, 0, 0, 0, 0, 0, 0, 0, 0, 0, 0, 0, 0, 0, 0, 0, 0, 0, 0, 0, 0, 0]
    case _ => [0, 0, 0, 0, 0, 0, 0, 0, 0, 0, 0, 0, 0, 0, 0, 0, 0, 0, 0, 0, 0, 0, 0, 0, 0, 0, 0, 0, 0, 0, 0, 0]
  }

  function WordBits(b: bv8): bool { b & (UPPER | LOWER | UNDER | DIGIT) != 0 }

  lemma {:induction false} WordFlags()
    ensures WordBits(XDIGIT | DIGIT) && WordBits(UPPER) && WordBits(LOWER) && WordBits(UNDER)
    ensures WordBits(XDIGIT | UPPER) && WordBits(XDIGIT | LOWER)
    ensures !WordBits(0) && !WordBits(SPACE) && !WordBits(DOLLAR)
  {}

  lemma {:induction false} DigitRow(i: nat)
    requires i < 32
    ensures WordBits(CtypeRow(1)[i]) <==> 16 <= i < 26
  {
    hide WordBits;
    WordFlags();
  }

  lemma {:induction false} UpperRow(i: nat)
    requires i < 32
    ensures WordBits(CtypeRow(2)[i]) <==> 1 <= i < 27 || i == 31
  {
    hide WordBits;
    WordFlags();
  }

  lemma {:induction false} LowerRow(i: nat)
    requires i < 32
    ensures WordBits(CtypeRow(3)[i]) <==> 1 <= i < 27
  {
    hide WordBits;
    WordFlags();
  }

  lemma {:induction false} OtherRows(k: nat, i: nat)
    requires k < 8 && i < 32 && (k == 0 || k > 3)
    ensures !WordBits(CtypeRow(k)[i])
  {
    hide WordBits;
    WordFlags();
  }

  /** The table marks exactly the word characters. */
  lemma {:induction false} CtypeExact(k: nat, i: nat)
    requires k < 8 && i < 32
    ensures WordBits(CtypeRow(k)[i]) <==> IsWordChar(32 * k + i)
  {
    hide WordBits, CtypeRow;
    match k
    case 1 => DigitRow(i);
    case 2 => UpperRow(i);
    case 3 => LowerRow(i);
    case _ => OtherRows(k, i);
  }

  /** One side of a word boundary: the table for bytes, nothing beyond. */
  method TestWordChar(c: nat) returns (yes: bool)
    ensures yes <==> IsWordChar(c)
  {
    if c < 256 {
      CtypeExact(c / 32, c % 32);
      yes := WordBits(CtypeRow(c / 32)[c % 32]);
    } else {
      yes := false;
    }
  }

  /** The assertion instructions. */
  method TestAssertion(env: Env, kind: Assertion, pos: nat) returns (holds: bool)
    requires pos <= |env.input|
    ensures holds <==> Holds(env, kind, pos)
  {
    match kind
    case LineStart => holds := pos == 0;
    case LineStartM =>
      if pos == 0 {
        return true;
      }
      var c := PeekPrevChar(env, pos);
      holds := TestLineTerminator(c);
    case LineEnd => holds := pos == |env.input|;
    case LineEndM =>
      if pos == |env.input| {
        return true;
      }
      var c, _ := GetChar(env, pos, |env.input|);
      holds := TestLineTerminator(c);
    case _ =>
      var isBoundary := kind == WordBoundary;
      var v1, v2 := false, false;
      if pos > 0 {
        var c := PeekPrevChar(env, pos);
        v1 := TestWordChar(c);
      }
      if pos < |env.input| {
        var c, _ := GetChar(env, pos, |env.input|);
        v2 := TestWordChar(c);
      }
      // v1 ^ v2 ^ isBoundary fails
      holds := !((v1 != v2) != isBoundary);
  }
}
