/** Patterns, subject strings and the meaning of matching, as section 22.2.2 of
    ECMA-262 gives it, in "all outcomes in priority order" form.

    `Outcomes(node, g, x)` lists every state a matcher for `node` hands to its
    continuation, first choice first.  `RegexContinuation` proves that this is
    the continuation-passing definition of the standard. */
module RegexSyntax {
  import opened Basics

  datatype Assertion = LineStart | LineStartM | LineEnd | LineEndM | WordBoundary | NotWordBoundary

  /** The forward fragment of the pattern grammar.  A non-capturing group is its
      body.  Capture groups are numbered by their opening parenthesis. */
  datatype Node =
    | Empty
    | Char(c: nat)
    | Dot
    | Any
    | Class(points: seq<nat>)
    | Assert(kind: Assertion)
    | BackRef(k: nat)
    | Cat(first: Node, second: Node)
    | Alt(first: Node, second: Node)
    | Group(body: Node)
    | Look(neg: bool, body: Node)
    | Quant(body: Node, min: nat, max: nat, greedy: bool)

  /** Number of capture groups opened inside a node. */
  function Groups(node: Node): nat {
    match node
    case Cat(a, b) => Groups(a) + Groups(b)
    case Alt(a, b) => Groups(a) + Groups(b)
    case Group(b) => 1 + Groups(b)
    case Look(_, b) => Groups(b)
    case Quant(b, _, _, _) => Groups(b)
    case _ => 0
  }

  /** What the parser guarantees of a tree: repetition counts are ordered and
      clamped to INT32_MAX, back references name one of the `n` captures. */
  predicate WellFormed(node: Node, n: nat) {
    match node
    case BackRef(k) => k < n
    case Cat(a, b) => WellFormed(a, n) && WellFormed(b, n)
    case Alt(a, b) => WellFormed(a, n) && WellFormed(b, n)
    case Group(b) => WellFormed(b, n)
    case Look(_, b) => WellFormed(b, n)
    case Quant(b, min, max, _) => min <= max <= INT32_MAX && WellFormed(b, n)
    case Class(points) => IsBoundaryList(points)
    case _ => true
  }

  // ----- code-point sets as boundary lists -----

  const UINT32_MAX: nat := 0xffff_ffff

  /** A canonical set: strictly increasing, even length; points[2i] .. points[2i+1]
      is the i-th half-open interval. */
  predicate IsBoundaryList(points: seq<nat>) {
    && |points| % 2 == 0
    && (forall i, j :: 0 <= i < j < |points| ==> points[i] < points[j])
    && (forall i :: 0 <= i < |points| ==> points[i] <= UINT32_MAX)
  }

  /** First point of the i-th pair of a list, and second. */
  function Lo(points: seq<nat>, i: nat): nat
    requires i < |points| / 2
  {
    points[2 * i]
  }

  function Hi(points: seq<nat>, i: nat): nat
    requires i < |points| / 2
  {
    points[2 * i + 1]
  }

  ghost predicate InSet(points: seq<nat>, c: nat) {
    exists i: nat :: i < |points| / 2 && Lo(points, i) <= c < Hi(points, i)
  }

  // ----- the subject string -----

  /** Code units of the subject; `utf16` says that surrogate pairs are read as one
      character, `capped` that no repetition goes beyond INT32_MAX passes: the
      standard has no such limit, the compiled counters do. */
  datatype Env = Env(input: seq<nat>, utf16: bool, capped: bool)

  predicate IsHighSurrogate(c: nat) { 0xd800 <= c < 0xdc00 }
  predicate IsLowSurrogate(c: nat) { 0xdc00 <= c < 0xe000 }

  /** The character starting at `pos` and the position after it; `limit` is the
      end beyond which the second half of a pair is not looked at. */
  function CharAt(env: Env, pos: nat, limit: nat): (r: (nat, nat))
    requires pos < limit <= |env.input|
    ensures pos < r.1 <= limit
  {
    var c := env.input[pos];
    if env.utf16 && IsHighSurrogate(c) && pos + 1 < limit && IsLowSurrogate(env.input[pos + 1]) then
      (0x10000 + 0x400 * (c - 0xd800) + (env.input[pos + 1] - 0xdc00), pos + 2)
    else
      (c, pos + 1)
  }

  /** The character ending just before `pos`. */
  function CharBefore(env: Env, pos: nat): nat
    requires 0 < pos <= |env.input|
  {
    var c := env.input[pos - 1];
    if env.utf16 && IsLowSurrogate(c) && pos >= 2 && IsHighSurrogate(env.input[pos - 2]) then
      0x10000 + 0x400 * (env.input[pos - 2] - 0xd800) + (c - 0xdc00)
    else
      c
  }

  predicate IsLineTerminator(c: nat) { c == 10 || c == 13 || c == 0x2028 || c == 0x2029 }

  predicate IsWordChar(c: nat) { 48 <= c <= 57 || 65 <= c <= 90 || 97 <= c <= 122 || c == 95 }

  predicate WordAhead(env: Env, pos: nat)
    requires pos <= |env.input|
  {
    pos < |env.input| && IsWordChar(CharAt(env, pos, |env.input|).0)
  }

  predicate WordBehind(env: Env, pos: nat)
    requires pos <= |env.input|
  {
    pos > 0 && IsWordChar(CharBefore(env, pos))
  }

  predicate Holds(env: Env, kind: Assertion, pos: nat)
    requires pos <= |env.input|
  {
    match kind
    case LineStart => pos == 0
    case LineStartM => pos == 0 || IsLineTerminator(CharBefore(env, pos))
    case LineEnd => pos == |env.input|
    case LineEndM => pos == |env.input| || IsLineTerminator(CharAt(env, pos, |env.input|).0)
    case WordBoundary => WordBehind(env, pos) != WordAhead(env, pos)
    case NotWordBoundary => WordBehind(env, pos) == WordAhead(env, pos)
  }

  /** Does the character `c` match the one-character atom `node`? */
  ghost predicate Accepts(node: Node, c: nat) {
    match node
    case Char(d) => c == d
    case Dot => !IsLineTerminator(c)
    case Any => true
    case Class(points) => InSet(points, c)
    case _ => false
  }

  /** Reading the captured text `p .. stop` again at `q`: the position after it,
      or nothing. */
  function Reread(env: Env, p: nat, stop: nat, q: nat): (r: Option<nat>)
    requires p <= |env.input| && stop <= |env.input| && q <= |env.input|
    ensures r.Some? ==> q <= r.value <= |env.input|
    decreases stop - p
  {
    if p >= stop then Some(q)
    else if q >= |env.input| then None
    else
      var (c1, p') := CharAt(env, p, stop);
      var (c2, q') := CharAt(env, q, |env.input|);
      if c1 == c2 then Reread(env, p', stop, q') else None
  }

  /** When a code unit is a character, rereading is equality of substrings. */
  lemma {:induction false} RereadIsSubstring(env: Env, p: nat, stop: nat, q: nat)
    requires !env.utf16
    requires p <= stop <= |env.input| && q <= |env.input|
    ensures Reread(env, p, stop, q) ==
            if q + (stop - p) <= |env.input| && env.input[q..q + (stop - p)] == env.input[p..stop]
            then Some(q + (stop - p)) else None
    decreases stop - p
  {
    var n := stop - p;
    if n == 0 {
      assert env.input[q..q] == env.input[p..p];
    } else if q < |env.input| {
      RereadIsSubstring(env, p + 1, stop, q + 1);
      if q + n <= |env.input| {
        SliceHead(env.input, q, p, n);
      }
    }
  }

  lemma {:induction false} SliceHead(s: seq<nat>, q: nat, p: nat, n: nat)
    requires n > 0 && q + n <= |s| && p + n <= |s|
    ensures s[q..q + n] == s[p..p + n] <==> s[q] == s[p] && s[q + 1..q + n] == s[p + 1..p + n]
  {
    assert s[q..q + n] == [s[q]] + s[q + 1..q + n];
    assert s[p..p + n] == [s[p]] + s[p + 1..p + n];
    if s[q..q + n] == s[p..p + n] {
      assert s[q..q + n][0] == s[p..p + n][0];
      assert s[q + 1..q + n] == s[q..q + n][1..];
      assert s[p + 1..p + n] == s[p..p + n][1..];
    }
  }

  // ----- match states -----

  /** A capture is unset or a range of the subject. */
  type Captures = seq<Option<(nat, nat)>>

  /** The MatchState of the standard: end index and captures. */
  datatype State = State(end: nat, caps: Captures)

  ghost predicate ValidState(env: Env, x: State, n: nat) {
    && x.end <= |env.input|
    && |x.caps| == n
    && (forall k :: 0 <= k < n && x.caps[k].Some? ==>
          x.caps[k].value.0 <= |env.input| && x.caps[k].value.1 <= |env.input|)
  }

  /** Captures g .. g+cnt become unset. */
  function Unset(caps: Captures, g: nat, cnt: nat): (r: Captures)
    ensures |r| == |caps|
    ensures forall k :: 0 <= k < |caps| ==> r[k] == if g <= k < g + cnt then None else caps[k]
  {
    seq(|caps|, k requires 0 <= k < |caps| => if g <= k < g + cnt then None else caps[k])
  }

  /** An upper repetition count; INT32_MAX stands for infinity. */
  datatype Bound = Fin(n: nat) | Inf

  function BoundOf(env: Env, max: nat): Bound {
    if max == INT32_MAX && !env.capped then Inf else Fin(max)
  }

  function Pred(max: Bound): Bound {
    match max
    case Fin(n) => Fin(if n == 0 then 0 else n - 1)
    case Inf => Inf
  }

  ghost predicate Forward(env: Env, ys: seq<State>, n: nat, from: nat) {
    forall i :: 0 <= i < |ys| ==> from <= ys[i].end && ValidState(env, ys[i], n)
  }

  // ----- the meaning of a pattern -----

  ghost function Outcomes(env: Env, node: Node, g: nat, x: State): (ys: seq<State>)
    requires WellFormed(node, |x.caps|) && g + Groups(node) <= |x.caps| && ValidState(env, x, |x.caps|)
    ensures Forward(env, ys, |x.caps|, x.end)
    decreases node, 0, 0, 0, 0
  {
    match node
    case Empty => [x]
    case Assert(kind) => if Holds(env, kind, x.end) then [x] else []
    case BackRef(k) =>
      if x.caps[k].None? then [x]
      else
        var (s, e) := x.caps[k].value;
        var q := Reread(env, s, e, x.end);
        if q.Some? then [State(q.value, x.caps)] else []
    case Cat(a, b) => OutcomesSeq(env, b, g + Groups(a), Outcomes(env, a, g, x), |x.caps|, x.end)
    case Alt(a, b) => Outcomes(env, a, g, x) + Outcomes(env, b, g + Groups(a), x)
    case Group(b) => CloseGroup(env, g, x.end, Outcomes(env, b, g + 1, x), |x.caps|)
    case Look(neg, b) =>
      var ys := Outcomes(env, b, g, x);
      if neg then (if ys == [] then [x] else [])
      else (if ys == [] then [] else [State(x.end, ys[0].caps)])
    case Quant(b, min, max, greedy) => Repeat(env, b, g, min, BoundOf(env, max), greedy, x)
    case _ =>
      if x.end < |env.input| then
        var (c, next) := CharAt(env, x.end, |env.input|);
        if Accepts(node, c) then [State(next, x.caps)] else []
      else []
  }

  /** Continue every state of a list with the matcher of `node`. */
  ghost function OutcomesSeq(env: Env, node: Node, g: nat, xs: seq<State>, n: nat, from: nat): (ys: seq<State>)
    requires WellFormed(node, n) && g + Groups(node) <= n && Forward(env, xs, n, from)
    ensures Forward(env, ys, n, from)
    decreases node, 1, 0, 0, |xs|
  {
    if xs == [] then []
    else Outcomes(env, node, g, xs[0]) + OutcomesSeq(env, node, g, xs[1..], n, from)
  }

  ghost function CloseGroup(env: Env, g: nat, start: nat, ys: seq<State>, n: nat): (zs: seq<State>)
    requires g < n && Forward(env, ys, n, start)
    ensures |zs| == |ys| && Forward(env, zs, n, start)
    ensures forall i :: 0 <= i < |ys| ==> zs[i] == State(ys[i].end, ys[i].caps[g := Some((start, ys[i].end))])
    decreases |ys|
  {
    seq(|ys|, i requires 0 <= i < |ys| => State(ys[i].end, ys[i].caps[g := Some((start, ys[i].end))]))
  }

  /** RepeatMatcher (section 22.2.2.3.1). */
  ghost function Repeat(env: Env, b: Node, g: nat, min: nat, max: Bound, greedy: bool, x: State): (ys: seq<State>)
    requires WellFormed(b, |x.caps|) && g + Groups(b) <= |x.caps| && ValidState(env, x, |x.caps|)
    ensures Forward(env, ys, |x.caps|, x.end)
    decreases b, 2, min, |env.input| + 1 - x.end, 1
  {
    if max == Fin(0) then [x]
    else
      var zs := Iterate(env, b, g, min, max, greedy, x);
      if min > 0 then zs else if greedy then zs + [x] else [x] + zs
  }

  /** One more pass of the atom, on unset captures, and whatever follows it. */
  ghost function Iterate(env: Env, b: Node, g: nat, min: nat, max: Bound, greedy: bool, x: State): (ys: seq<State>)
    requires WellFormed(b, |x.caps|) && g + Groups(b) <= |x.caps| && ValidState(env, x, |x.caps|)
    ensures Forward(env, ys, |x.caps|, x.end)
    decreases b, 2, min, |env.input| + 1 - x.end, 0
  {
    var ys := Outcomes(env, b, g, State(x.end, Unset(x.caps, g, Groups(b))));
    if min > 0 then RepeatSeq(env, b, g, min - 1, Pred(max), greedy, ys, |x.caps|, x.end)
    else RepeatSeq(env, b, g, 0, Pred(max), greedy, Advancing(env, ys, x.end, |x.caps|), |x.caps|, x.end + 1)
  }

  /** The passes that moved: an empty pass fails once the minimum is reached. */
  ghost function Advancing(env: Env, ys: seq<State>, start: nat, n: nat): (zs: seq<State>)
    requires Forward(env, ys, n, start)
    ensures Forward(env, zs, n, start + 1)
    decreases |ys|
  {
    if ys == [] then []
    else
      assert forall i :: 0 <= i < |ys[1..]| ==> ys[1..][i] == ys[i + 1];
      var rest := Advancing(env, ys[1..], start, n);
      if ys[0].end == start then rest else [ys[0]] + rest
  }

  ghost function RepeatSeq(env: Env, b: Node, g: nat, min: nat, max: Bound, greedy: bool, xs: seq<State>, n: nat,
          from: nat): (ys: seq<State>)
    requires WellFormed(b, n) && g + Groups(b) <= n && Forward(env, xs, n, from) && from <= |env.input| + 1
    ensures Forward(env, ys, n, from)
    decreases b, 2, min, |env.input| + 1 - from, |xs| + 2
  {
    if xs == [] then []
    else Repeat(env, b, g, min, max, greedy, xs[0]) + RepeatSeq(env, b, g, min, max, greedy, xs[1..], n, from)
  }
}
