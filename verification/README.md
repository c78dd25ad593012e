# Dafny model of the worker engine core

The worker library embeds a JavaScript engine and a small host bridge. This project models their most intricate parts in Dafny
and proves what they are for:

- **Regular expressions.** A tree compiler that inserts, patches and relocates instructions, a register allocator, and a
  backtracking executor with an undo log. `RegexSyntax` and `RegexContinuation` hold the meaning of patterns (section 22.2.2 of
  ECMA-262), `RegexCode` the instructions emitted, `RegexCompile` the proof that they mean the same, `RegexMachine` a simple machine
  that copies captures, `RegexExec` the undo-log executor that refines it, `RegexSubject` how it reads the subject, and `LibRegexp` the
  whole of it.
- **Number conversion.** Limb arithmetic, division by reciprocal, sticky-bit rounding, the free-format digit search, and printing and
  reading of text (`DtoaLimbs` up to `DtoaRoundTrip`), with a grammar of numerals (`DtoaNumeral`) and the length of the output
  (`DtoaShort`). `DtoaReal` and `DtoaRound` define rounding over the reals, `DtoaLog` and `DtoaTight` prove the tables,
  `DtoaHalf` places every number between the halfway points of doubles, `DtoaWrap`, `DtoaOverflow` and
  `DtoaInexact` tell when reading is exact and when not.
- **Code-point sets.** Set algebra, case canonicalization, run-length tables and canonical ordering (`UnicodeSets`, `UnicodeFold`,
  `UnicodeTable`, `UnicodeOrder`).
- **Sorting.** The introsort-style `rqsort` (`SortOrder`, `SortHeap`, `SortPartition`, `Rqsort`); `UnicodeFold` calls it.
- **Bundles.** The MLB1 writer and parser and canonical JSON (`Bundle`, `CanonicalJson`, `JsonText`, `JsonGrammar`, `KeySort`).
- **Host bridge.** The request ring, the promise table and the handle table (`HostQueue`, `HostBridge`, `HostHandles`).

Where the C code uses fixed-width words, wrap-around (two's complement) and truncation are written out; shifts by k are
multiplications and divisions by 2^k. Clocks, allocation and foreign calls are left out; SHA-256, the JSON reader, manifest
validation, the printing of doubles in JSON, module path syntax, comparators, combining classes and the case-conversion tables are
parameters. Limb buffers are taken to be long enough. All numeric tables are proved.

Some promises of the code hold only under a condition. The model keeps the code as it is, proves the condition exact and gives an
input that fails:

- A counted loop with no upper bound uses INT32_MAX passes. The code assumes subjects shorter than that, which is not enough when the
  atom can match nothing. `LibRegexp.LreExec` therefore answers the standard's question with repetitions capped at INT32_MAX passes,
  for every pattern; `RegexCapped.SearchCapped` shows that the cap changes nothing under `CounterSafe`, which a caller can check on
  the pattern and the subject's length. `RegexCounter.SearchExact` shows that it is also necessary for every atom
  that would rather match nothing and else takes one character, such as `(?:|a)` and `(|a)` on a subject of a's; `RegexCounter.CounterFails`
  gives the input. For other atoms it is sufficient only: whether it is necessary depends on what the atom matches.
- js_atod keeps its exponents in 32 bits, gives up on exponents beyond 2147483639 and, in radices that are not powers of two, drops
  digits beyond about 128 bits. Its result is the double nearest to the number in the text exactly when none of the three does harm
  (`DtoaRoundTrip.ConvertsExactly`; `DtoaOverflow.ShortTextExact` and `StringExact` for texts of bounded length). For numbers in the
  range of doubles 32-bit exponents never do harm (`DtoaWrap.InRangeExact`); dropped digits and an exponent that is not read can.
  `DtoaOverflow` and `DtoaInexact` give an input of each kind.
- The digit search is meant to find the fewest digits. It does for every double that is not a power of two above 2^-1022; for those
  the neighbour below is nearer, and the search may give up too early (`DtoaShort.PrintedShortest`, `DtoaShort.NotShortest`).
- A negative zero is read back if and only if its sign is printed, and NaN if and only if the radix is below 24
  (`DtoaRoundTrip.RoundTrip`).
- Bundles keep the values of header and manifest, not their texts. They come back unchanged exactly when the texts are canonical
  (`Bundle.ParseThenWrite`, `Bundle.WriteThenParse`).
- A handle is decoded with a sign-extending shift, so a live handle is found if and only if its generation is below 2^15; a slot that
  reaches that generation is lost (`HostHandles.Table.Get`, `HostHandles.WearOut`).

## Model

| member | source | states |
|---|---|---|
| LibRegexp.LreExec | qjs/lib/_qjs_libregexp.c:3326-3364 | compile-and-run as a whole: for every well-formed pattern, every subject an int can index and every start index the undo-log executor stops; it matches exactly when the standard's continuation matcher, with repetitions capped at INT32_MAX passes, finds a match at the first possible position, with exactly that match's captures; the cap changes nothing while the counters suffice for the subject; a start index inside a surrogate pair is moved back |
| RegexCapped.SearchCapped | qjs/lib/_qjs_libregexp.c:2336-2345 | for every pattern and subject, capped repetition finds the standard's match whenever each counted loop has at least as many passes as its minimum and the subject can use |
| RegexCapped.OutcomesCapped | qjs/lib/_qjs_libregexp.c:2336-2345 | the same for all outcomes of a node, captures and order included |
| LibRegexp.LreCompile | qjs/lib/_qjs_libregexp.c:2522-2614 | compilation succeeds exactly when captures, ranges and nested registers fit their limits, and then gives the relocated program with its capture and register counts |
| LibRegexp.CodeTables | qjs/lib/_qjs_libregexp.c:1225-1259 | every range table in compiled code is sorted, which the executor's binary search needs |
| RegexCompile.NodeSound | qjs/lib/_qjs_libregexp.c:1845-2440 | compilation preserves meaning: started anywhere the code of a node is placed, the machine leaves it with exactly the node's outcomes, in priority order, with the same captures, and touches no register or capture of its surroundings |
| RegexCompile.CatSound | qjs/lib/_qjs_libregexp.c:2372-2404 | the same for a sequence of terms |
| RegexCompile.AltSound | qjs/lib/_qjs_libregexp.c:2406-2440 | the same for alternatives: split inserted in front, goto patched behind |
| RegexCompile.GroupSound | qjs/lib/_qjs_libregexp.c:2003-2028 | the same for capture groups |
| RegexCompile.LookSound | qjs/lib/_qjs_libregexp.c:1951-1981 | the same for positive and negative lookahead: at most one outcome, captures kept by a positive one and dropped by a negative one |
| RegexCompile.QuantSound | qjs/lib/_qjs_libregexp.c:2248-2361 | the same for greedy and lazy quantifiers in all emitted shapes, against RepeatMatcher of section 22.2.2.3.1 of ECMA-262 |
| RegexLoops.OptionalLoop | qjs/lib/_qjs_libregexp.c:2298-2312 | `?` and `*`: the split loop, with its zero-advance check when needed, explores RepeatMatcher's outcomes |
| RegexLoops.PlusLoop | qjs/lib/_qjs_libregexp.c:2332-2335 | `+` on an advancing atom: the backward split explores at least one pass |
| RegexLoops.CountedLoop | qjs/lib/_qjs_libregexp.c:2336-2358 | the counter loop explores {min,max}: each counter value stands for the passes still required and allowed |
| RegexLoops.BodyPass | qjs/lib/_qjs_libregexp.c:2270-2283 | one pass of the atom starts from unset captures whether or not a reset instruction was emitted |
| RegexContinuation.MatchIsFirst | qjs/lib/_qjs_libregexp.c:1845-2440 | the continuation-passing matchers of section 22.2.2 of ECMA-262 return the continuation's first success along the outcome list, so the list semantics is the standard's |
| RegexProgram.SearchIsFirst | qjs/lib/_qjs_libregexp.c:2554-2576 | the standard's match at the first possible index is the first of all matches that the search prefix enumerates |
| RegexProgram.ProgramExplores | qjs/lib/_qjs_libregexp.c:2554-2576 | the whole program, lazy search prefix included, explores the matches at every index in order |
| RegexProgram.MachineAnswers | qjs/lib/_qjs_libregexp.c:2774-3321 | termination and correctness of the copying machine: after some number of steps it accepts with the standard's answer or rejects when there is none |
| RegexMachine.Adequate | qjs/lib/_qjs_libregexp.c:2839-2906 | a machine with an explicit stack of choice points visits exactly the threads of the tree of choices, depth first, lookaheads cutting their inner choices |
| RegexAdvance.ScanSound | qjs/lib/_qjs_libregexp.c:1557-1629 | when the linear scan omits the zero-advance check, every outcome of the atom lies strictly ahead |
| RegexCode.ScanAtom | qjs/lib/_qjs_libregexp.c:1557-1629 | the scan loop reports exactly whether an advancing instruction precedes the first jump, and whether captures need a reset |
| RegexFrame.ScanIgnoresRegisters | qjs/lib/_qjs_libregexp.c:1557-1629 | the scan gives the same answer before and after register allocation |
| RegexFrame.OutcomesTame | qjs/lib/_qjs_libregexp.c:2270-2295 | an atom changes only its own captures, and leaves unset those that its code never sets |
| RegexAdvance.RepeatUnbounded | qjs/lib/_qjs_libregexp.c:2336-2345 | INT32_MAX stands for infinity whenever the counter suffices for the passes the rest of the subject allows |
| RegexCounter.CounterExact | qjs/lib/_qjs_libregexp.c:2336-2345 | for every atom whose first outcome is empty and whose first moving outcome takes one character: counted and unbounded repetition {m,} have the same outcomes if and only if m plus the characters left is at most INT32_MAX |
| RegexCounter.SearchExact | qjs/lib/_qjs_libregexp.c:2336-2345 | for every pattern made of such an atom and {m,}, every subject and every start index: the compiled counter gives the standard's match if and only if m plus the characters left is at most INT32_MAX; at index 0 this is CounterSafe, which is thus necessary as well as sufficient |
| RegexCounter.FirstEnd | qjs/lib/_qjs_libregexp.c:2336-2345 | where the first outcome of {m,v} around such an atom ends: the minimum is spent on empty passes, each further pass takes a character |
| RegexCounter.AltReluctant | qjs/lib/_qjs_libregexp.c:2406-2440 | an empty alternative in front of anything that takes one character makes such an atom |
| RegexCounter.GroupReluctant | qjs/lib/_qjs_libregexp.c:2003-2028 | so does a capture group around one |
| RegexCounter.LazySearch | qjs/lib/_qjs_libregexp.c:2336-2345 | what the search for {m,} around 'nothing, else a' finds, for every minimum and every subject of a's: all of it by the standard, min(length, INT32_MAX - m) characters with the compiled counter |
| RegexCounter.CounterFails | qjs/lib/_qjs_libregexp.c:2341-2345 | the input on which they differ: 2147483647 or more passes of that atom on the subject 'a', where the standard matches 'a' and the compiled counter the empty string |
| RegexCode.RangeInstrExact | qjs/lib/_qjs_libregexp.c:1225-1259 | the emitted 16-bit or 32-bit table, 0xffff standing for infinity and the empty set included, accepts a character exactly when the set contains it |
| RegexExec.RangeSearch | qjs/lib/_qjs_libregexp.c:3229-3307 | the binary search accepts exactly the members of a sorted table and its index never wraps |
| RegexSyntax.RereadIsSubstring | qjs/lib/_qjs_libregexp.c:3172-3228 | a back reference on code units matches exactly the captured substring |
| RegexSubject.AssertionUnits | qjs/lib/_qjs_libregexp.c:2985-3170 | every assertion on code units: line starts and ends by the four line terminators, a word boundary where exactly one of the units before and after is in 0-9A-Za-z_, whether or not pairs are read as one character |
| RegexSubject.TestAssertion | qjs/lib/_qjs_libregexp.c:2985-3170 | the executor's own tests, word characters by its type table and v1 xor v2 xor is_boundary, decide each assertion |
| RegexSubject.CtypeExact | qjs/lib/_qjs_libunicode.c:1835-1876 | the character type table marks exactly the word characters |
| RegexSubject.CharAtUnits | qjs/lib/_qjs_libregexp.c:2621-2652 | the character read forward encodes back, in UTF-16, to the units consumed: two exactly for a surrogate pair before the limit |
| RegexSubject.CharBeforeUnits | qjs/lib/_qjs_libregexp.c:2654-2668 | the same for the character before a position |
| RegexSubject.GetChar | qjs/lib/_qjs_libregexp.c:2621-2652 | reading forward, by the bits of the unit |
| RegexSubject.PeekPrevChar | qjs/lib/_qjs_libregexp.c:2654-2668 | reading backward |
| RegexRegisters.AllocationExact | qjs/lib/_qjs_libregexp.c:2444-2505 | on the code of every pattern, register allocation never underflows, ends balanced, gives each loop and check instruction the register of its own set instruction, keeps nested loops apart and returns the deepest nesting |
| RegexRegisters.ComputeRegisterCount | qjs/lib/_qjs_libregexp.c:2444-2505 | the in-place pass over the code computes that allocation, failing exactly when it needs too many registers |
| RegexRegisters.Slot | qjs/lib/_qjs_libregexp.c:2465-2498 | one instruction's effect on the allocation stack |
| RegexParser.ReParseState.Emit | qjs/lib/_qjs_libregexp.c:1845-2440 | the emitter, which inserts in front of code already written and patches jumps, appends exactly the code of the tree or reports the two possible errors |
| RegexParser.ReParseState.EmitAlt | qjs/lib/_qjs_libregexp.c:2406-2440 | split insertion and goto patching |
| RegexParser.ReParseState.EmitGroup | qjs/lib/_qjs_libregexp.c:2003-2028 | capture group with the capture limit |
| RegexParser.ReParseState.EmitLook | qjs/lib/_qjs_libregexp.c:1951-1981 | lookahead with its patched jump |
| RegexParser.ReParseState.EmitQuantifier | qjs/lib/_qjs_libregexp.c:2257-2360 | quantifier code wrapped around the atom already emitted |
| RegexParser.ReParseState.EmitLeaf | qjs/lib/_qjs_libregexp.c:1857-1900 | single-character terms, assertions, back references and classes |
| RegexParser.ReParseState.EmitResets | qjs/lib/_qjs_libregexp.c:2270-2295 | where the capture reset goes: inside the loop or before it |
| RegexParser.ReParseState.WrapAtom | qjs/lib/_qjs_libregexp.c:2286-2358 | the choice between the loop shapes |
| RegexParser.ReParseState.WrapOptional | qjs/lib/_qjs_libregexp.c:2298-2312 | split, position check and goto around the atom |
| RegexParser.ReParseState.WrapCounted | qjs/lib/_qjs_libregexp.c:2336-2358 | counter, position check and loop around the atom |
| RegexExec.Executor.Exec | qjs/lib/_qjs_libregexp.c:2774-3321 | over whole runs, the undo-log executor accepts, with the same captures, exactly when the machine that copies captures at each choice point does |
| RegexExec.Executor.ExecOne | qjs/lib/_qjs_libregexp.c:2839-3321 | each instruction takes both machines to related states |
| RegexExec.Executor.Save | qjs/lib/_qjs_libregexp.c:2805-2812 | saving and writing leaves every choice point's copy unchanged |
| RegexExec.Executor.SaveCheck | qjs/lib/_qjs_libregexp.c:2815-2833 | skipping a repeated save leaves every choice point's copy unchanged |
| RegexExec.Executor.PushState | qjs/lib/_qjs_libregexp.c:2945-2978 | a new choice point stands for a copy of the current captures |
| RegexExec.Executor.Pop | qjs/lib/_qjs_libregexp.c:2858-2867 | undoing to a choice point restores exactly the captures at its push |
| RegexExec.Executor.NoMatch | qjs/lib/_qjs_libregexp.c:2852-2873 | backtracking resumes the youngest choice point that is not a lookahead mark |
| RegexExec.Executor.LookMatch | qjs/lib/_qjs_libregexp.c:2874-2906 | lookahead success drops the inner choice points and splices their undo pairs onto the outer frame: outer copies are unchanged and the captures kept |
| RegexExec.Executor.NegLookMatch | qjs/lib/_qjs_libregexp.c:2907-2925 | negative lookahead success undoes everything inside it and fails outside |
| RegexExec.Executor.MarkDown | qjs/lib/_qjs_libregexp.c:2882-2894 | the walk that pops the inner frames and leaves links for the copy |
| RegexExec.Executor.MoveDown | qjs/lib/_qjs_libregexp.c:2895-2904 | the copy that closes the gaps left by the popped headers |
| RegexExec.Executor.ExecChar | qjs/lib/_qjs_libregexp.c:2926-2944 | character, dot, any and range instructions |
| RegexExec.Executor.ExecBackRef | qjs/lib/_qjs_libregexp.c:3172-3228 | back references |
| RegexExec.Executor.ExecReset | qjs/lib/_qjs_libregexp.c:3038-3054 | capture reset |
| RegexExec.Executor.ExecLoopSplit | qjs/lib/_qjs_libregexp.c:3077-3126 | counter loops with and without advance check |
| RegexExec.Executor.CompareText | qjs/lib/_qjs_libregexp.c:3195-3226 | the comparison loop of a back reference |
| RegexUndo.UndoForgets | qjs/lib/_qjs_libregexp.c:2815-2833 | undoing does not depend on the value of an index the frame already saved |
| RegexUndo.CopiesBelow | qjs/lib/_qjs_libregexp.c:2858-2867 | the copies below a frame are those after undoing everything above it |
| RegexUndo.CopiesRejoined | qjs/lib/_qjs_libregexp.c:2895-2904 | merging the undo pairs of removed frames into the frame below changes no remaining copy |
| DtoaRoundTrip.RoundTrip | qjs/lib/_qjs_dtoa.c:1108-1318 | for every double, every radix 2..36 and every exponent mode, reading the free-format text gives the same 64 bits if and only if a negative zero was printed with its sign (else zero); NaN is read as NaN if and only if the radix is below 24, where the letters of its text are no digits |
| DtoaRoundTrip.JsDtoa | qjs/lib/_qjs_dtoa.c:1108-1318 | free format: Infinity, NaN, or sign and number; the digits are those of the whole number, or those the search stops at, and the text is their format |
| DtoaRoundTrip.PrintFinite | qjs/lib/_qjs_dtoa.c:1168-1236 | whole numbers below 2^53 are printed digit by digit unless an exponent is asked for, all others through the digit search |
| DtoaNumeral.FormatExact | qjs/lib/_qjs_dtoa.c:1278-1312 | the text is a numeral of exactly the printed value: scientific, with one digit before the dot, when asked for or when the number is below radix^-6 or from radix^(maxDigits + 4) on, positional otherwise, without superfluous zeros or dot |
| DtoaNumeral.ZeroPrinted | qjs/lib/_qjs_dtoa.c:1137-1150 | zero is 0, with exponent +0 when one is asked for |
| DtoaText.OutputNumber | qjs/lib/_qjs_dtoa.c:1272-1312 | the output loops build that text |
| DtoaRoundTrip.JsAtod | qjs/lib/_qjs_dtoa.c:1354-1620 | the result for every text: NaN where nothing or a bad exponent is read, otherwise the double nearest to the digits kept with the exponent in 32 bits; it is the double nearest to the number in the text, all digits and the exponent as written, if and only if neither the exponent guard, nor 32-bit exponents, nor the digits dropped do harm |
| DtoaRoundTrip.ConvertsExactly | qjs/lib/_qjs_dtoa.c:1480-1608 | the same if-and-only-if as a fact about results: beyond the guard the number must overflow or underflow; otherwise its exponent must fit an int, or wrap into the same overflow or underflow, and no halfway point may come between the digits kept and all digits |
| DtoaNumeral.NumeralRead | qjs/lib/_qjs_dtoa.c:1373-1563 | every numeral (sign, 0x or 0X in radix 16, digits in either case with or without a dot, exponent behind e or E, @, p or P with or without sign) is read as its value; only digits that spell Infinity, possible from radix 35 on, are infinity |
| DtoaNumeral.NumeralConverts | qjs/lib/_qjs_dtoa.c:1373-1620 | so the right result for a numeral is the double nearest to its value, negative exactly behind a minus sign |
| DtoaRoundTrip.ReadPrefix | qjs/lib/_qjs_dtoa.c:1373-1412 | sign, hexadecimal prefix and Infinity |
| DtoaRoundTrip.Readings | qjs/lib/_qjs_dtoa.c:1536-1563 | js_atod reads what is written, except that a nonzero number with an exponent beyond 2147483639 is infinity or zero |
| DtoaRoundTrip.BeyondExact | qjs/lib/_qjs_dtoa.c:1555-1562 | infinity and zero are right for such a number exactly when its top exponent passes the range tests, or else its value the halfway points |
| DtoaOverflow.ShortTextExact | qjs/lib/_qjs_dtoa.c:1480-1591 | radix not a power of two, text no longer than INT32_MAX: the result is right if and only if an exponent that is not read belongs to a number beyond the range, and otherwise the exponent of the first digit is an int and the digits dropped do no harm |
| DtoaOverflow.StringExact | qjs/lib/_qjs_dtoa.c:1480-1591 | for texts up to 2^30 - 1 characters an exponent that is not read never does harm |
| DtoaOverflow.OverflowReadAsZero | qjs/lib/_qjs_dtoa.c:1583-1588 | 12345678901e+2147483639 is read as 0 and should be infinity |
| DtoaOverflow.UnderflowReadAsInfinity | qjs/lib/_qjs_dtoa.c:1583-1588 | 0.00000000001e-2147483639 is read as infinity and should be 0 |
| DtoaOverflow.OverflowReadAsHalf | qjs/lib/_qjs_dtoa.c:1572-1581 | 1@+858993459 in radix 32 is read as one half and should be infinity |
| DtoaInexact.DroppedDigit | qjs/lib/_qjs_dtoa.c:1480-1511 | 9007199254740993.00000000000000000000001, 39 digits of which 38 are kept, is read as 2^53 and should be 2^53 + 2 |
| DtoaInexact.SmallReadAsInfinity | qjs/lib/_qjs_dtoa.c:1544-1562 | a dot, 536870910 zeros and 1p+2147483640 in radix 16 is read as infinity and should be 2^-4 |
| DtoaInexact.DecimalReadAsInfinity | qjs/lib/_qjs_dtoa.c:1544-1562 | a dot, 2147483620 zeros and 1e+2147483640 in radix 10, no longer than INT32_MAX, is read as infinity and should be finite |
| DtoaWrap.AtodExact | qjs/lib/_qjs_dtoa.c:1480-1608 | digits and exponents: the result is the double nearest to all digits with their exponents if and only if neither the exponent nor the digits dropped did harm |
| DtoaWrap.CutExact | qjs/lib/_qjs_dtoa.c:1507-1511 | dropping digits keeps the nearest double if and only if the radix is a power of two, there are no more digits than are kept, or no halfway point comes between |
| DtoaWrap.RangeTests | qjs/lib/_qjs_dtoa.c:1572-1588 | the two tests on the top exponent, and the halfway points in between, tell overflow and underflow exactly |
| DtoaWrap.WrappedOnce | qjs/lib/_qjs_dtoa.c:1568-1591 | an exponent that can wrap only once does harm whenever it wraps: overflow becomes a number below one, underflow one of at least 32 |
| DtoaWrap.InRangeExact | qjs/lib/_qjs_dtoa.c:1480-1608 | for a number in the range of doubles whose exponent is read, the result is right if and only if the digits dropped do no harm: exponents never do |
| DtoaHalf.ReadsThresholds | qjs/lib/_qjs_dtoa.c:1592-1608 | the result is infinity exactly from halfway between the largest double and 2^1024 on, and zero exactly up to half the smallest |
| DtoaHalf.ReadsBetween | qjs/lib/_qjs_dtoa.c:1591-1607 | the nearest double is the one whose two halfway points enclose the number, ties to even bits, for all finite doubles and infinity |
| DtoaHalf.ReadsOrder | qjs/lib/_qjs_dtoa.c:1591-1607 | the bits returned tell on which side of each halfway point the number lies |
| DtoaHalf.SameNearest | qjs/lib/_qjs_dtoa.c:1507-1511 | two numbers have the same nearest double if and only if no halfway point comes between them |
| DtoaRoundTrip.ComputesBack | qjs/lib/_qjs_dtoa.c:1568-1608 | the text of a finite nonzero double gives exactly its significand and exponent |
| DtoaRoundTrip.ExponentAt | qjs/lib/_qjs_dtoa.c:1513-1563 | exponent scanning with its overflow guard |
| DtoaText.FormatScans | qjs/lib/_qjs_dtoa.c:1278-1312 | in exponent, leading-zero, dotted and trailing-zero form alike, the text scans as a number equal to digits times a power of the radix |
| DtoaText.IntDigitsRead | qjs/lib/_qjs_dtoa.c:590-603 | whole-number digits read back as the number and have no leading zero |
| DtoaText.NumberToText | qjs/lib/_qjs_dtoa.c:590-603 | the digit loop that fills the buffer from its end |
| DtoaText.MeantZeros | qjs/lib/_qjs_dtoa.c:1480-1505 | trailing zeros beyond the digit limit are dropped without changing the value |
| DtoaScan.SkipZerosLoop | qjs/lib/_qjs_dtoa.c:1442-1459 | the leading-zero loop |
| DtoaScan.ReadAllLoop | qjs/lib/_qjs_dtoa.c:1461-1493 | the digit loop with at most one dot |
| DtoaScan.ExpDigitsLoop | qjs/lib/_qjs_dtoa.c:1536-1552 | exponent digits |
| DtoaScan.GuardExact | qjs/lib/_qjs_dtoa.c:1536-1552 | the guard stops exactly the exponents beyond 2147483639 and leaves the others as written |
| Dtoa.Atod | qjs/lib/_qjs_dtoa.c:1461-1608 | the double nearest to digits times radix^exponent, exponents in 32 bits: of all digits in a power-of-two radix however many there are, of the kept digits otherwise |
| Dtoa.AtodBinary | qjs/lib/_qjs_dtoa.c:1572-1581 | power-of-two radix: cut-off digits act as a sticky bit, so rounding is exact; overflow and underflow tests are right for the wrapped exponent |
| Dtoa.AtodOther | qjs/lib/_qjs_dtoa.c:1582-1590 | other radices: the kept digits scaled and rounded exactly; overflow and underflow tests are right for the wrapped exponent |
| Dtoa.BinaryExponents | qjs/lib/_qjs_dtoa.c:1569-1574 | wrapping at every step of the exponent computation is wrapping its result once |
| Dtoa.MeantAtTop | qjs/lib/_qjs_dtoa.c:1568-1591 | the number read, as digits that end just below its top exponent |
| Dtoa.CutIsSticky | qjs/lib/_qjs_dtoa.c:1507-1511 | digits cut off count exactly as a sticky bit |
| Dtoa.DtoaFree | qjs/lib/_qjs_dtoa.c:1180-1236 | the digits found for a finite nonzero double: no leading zero, at most the table's maximum, rounding back to the double |
| Dtoa.PackUnpack | qjs/lib/_qjs_dtoa.c:1602-1606 | packing inverts unpacking for normal and subnormal doubles |
| Dtoa.UnpackedRange | qjs/lib/_qjs_dtoa.c:1155-1166 | unpacked doubles have a 53-bit significand, subnormal ones a multiple of 2^-1074 |
| Dtoa.ReadsAsUnique | qjs/lib/_qjs_dtoa.c:1591-1607 | a number that rounds to a finite nonzero double can only be read as its bits |
| DtoaLog.BinaryLogFloor | qjs/lib/_qjs_dtoa.c:474-482 | for a power-of-two radix mul_log2_radix is the exact floor |
| DtoaLog.MulLog2Exact | qjs/lib/_qjs_dtoa.c:461-489 | mul_log2_radix(a, radix) is the exact floor of a / log2(radix) for every radix and every a it is documented for, -2048 to 2047 |
| DtoaLog.LimitsHold | qjs/lib/_qjs_dtoa.c:735-751 | from max_exponent on every power of the radix overflows, up to min_exponent every one underflows |
| DtoaLog.MultiplierDecides | qjs/lib/_qjs_dtoa.c:461-489 | the 24-bit multiplier decides as the logarithm does, for every fraction with denominator up to 2048 |
| DtoaLog.NothingBetween | qjs/lib/_qjs_dtoa.c:461-489 | no fraction with denominator up to 2048 lies between the two neighbours recorded for a radix |
| DtoaLog.CertifiedRow | qjs/lib/_qjs_dtoa.c:461-470 | for every radix that is not a power of two, logarithm and multiplier lie between its two neighbours |
| DtoaPowerBounds.PowerBelow | qjs/lib/_qjs_dtoa.c:461-470 | three steps of 24-bit arithmetic bound a large power from above |
| DtoaPowerBounds.PowerAbove | qjs/lib/_qjs_dtoa.c:461-470 | the same from below |
| DtoaSearch.FreeFormat | qjs/lib/_qjs_dtoa.c:1180-1236 | the digits are exactly those of the candidate the search must stop at (each try gives up the trailing zeros and one more digit, until the shorter candidate does not round back); they round back to the same (m, e), the first candidate because maxDigits digits always suffice; no trailing zero |
| DtoaSearch.LastTryStops | qjs/lib/_qjs_dtoa.c:1216-1231 | the candidate with one digit less than the result does not round back |
| DtoaShort.PrintedShortest | qjs/lib/_qjs_dtoa.c:1180-1236 | shortest output: no number with fewer digits reads back, for every double that is not a power of two above 2^-1022; for any double, one does if and only if the next candidate above the rejected one does |
| DtoaShort.ShorterExact | qjs/lib/_qjs_dtoa.c:1180-1236 | the same for any significand, exponent and number of digits at which the candidate fails |
| DtoaShort.BumpedBeats | qjs/lib/_qjs_dtoa.c:1192-1204 | the candidate is at least as near to the double as any number with so few digits |
| DtoaShort.NotShortest | qjs/lib/_qjs_dtoa.c:1216-1231 | 2^-44 in radix 10 is printed with the 17 digits 56843418860808015 although the 16 digits 5684341886080802 read back |
| DtoaShort.WholeShortest | qjs/lib/_qjs_dtoa.c:1168-1178 | whole numbers below 2^53, their trailing zeros aside, are written with the fewest digits that read back |
| DtoaShort.UnpackValue | qjs/lib/_qjs_dtoa.c:1127-1166 | significand and exponent taken from the bits have the value IEEE 754 gives the bits |
| DtoaShort.ReadsIsRounds | qjs/lib/_qjs_dtoa.c:1591-1607 | being read as the bits of a double is rounding to its significand and exponent |
| DtoaSearch.MaxDigitsNear | qjs/lib/_qjs_dtoa.c:1194-1215 | the unchecked candidate of dtoa_max_digits digits is nearer to the double than any midpoint, before and after an exponent bump, at powers of two included |
| DtoaSearch.FindCandidate | qjs/lib/_qjs_dtoa.c:1196-1207 | the exponent is bumped at most once and the candidate then has exactly P digits in 64 bits |
| DtoaSearch.BumpRange | qjs/lib/_qjs_dtoa.c:1200-1207 | after one bump the candidate has exactly P digits |
| DtoaSearch.StripZeros | qjs/lib/_qjs_dtoa.c:1206-1209 | removes exactly the trailing zeros and keeps the value |
| DtoaSearch.Check | qjs/lib/_qjs_dtoa.c:1211-1216 | the test accepts exactly the digits that round back to (m, e) |
| DtoaScale.MulPowRound | qjs/lib/_qjs_dtoa.c:959-967 | exactly the nearest integer to m * 2^e * radix^f, ties to even or away |
| DtoaScale.MulPowRoundToD | qjs/lib/_qjs_dtoa.c:1006-1013 | exactly a * radix^f rounded to 53 bits or to the subnormal grid |
| DtoaScale.MulPow | qjs/lib/_qjs_dtoa.c:893-956 | the scaled number is exact, or the truncated quotient with a sticky bit, with enough bits left below for rounding |
| DtoaScale.MulUp | qjs/lib/_qjs_dtoa.c:900-916 | positive powers, chunk by chunk |
| DtoaScale.DivDown | qjs/lib/_qjs_dtoa.c:935-950 | chained truncating divisions divide by the whole power, and a remainder is seen exactly when the division is inexact |
| DtoaScale.RoundToD | qjs/lib/_qjs_dtoa.c:970-1001 | 53-bit, subnormal and carried-out results are the rounding of the exact value behind the number |
| DtoaRound.StickyRounds | qjs/lib/_qjs_dtoa.c:946-955 | dropping two or more bits of the sticky quotient rounds as the exact quotient does, in every mode |
| DtoaRound.CorrectlyRounded | qjs/lib/_qjs_dtoa.c:970-1001 | no double is closer to the value than the result |
| DtoaRound.Recovered | qjs/lib/_qjs_dtoa.c:1213-1215 | a number within half a last place of a double, measured with the smaller unit below a power of two, rounds to it |
| DtoaReal.RoundShiftIsNearest | qjs/lib/_qjs_dtoa.c:313-398 | integer shift rounding is rounding of the real quotient |
| DtoaReal.NearestClosest | qjs/lib/_qjs_dtoa.c:294-298 | nearest means no integer is closer, ties even |
| DtoaBig.Mpb.ShrRound | qjs/lib/_qjs_dtoa.c:313-398 | the number becomes its quotient by 2^shift, rounded; normal form is kept |
| DtoaBig.Mpb.Increment | qjs/lib/_qjs_dtoa.c:335-372 | round bit, sticky bits and last kept bit decide the increment |
| DtoaBig.Mpb.ShiftUp | qjs/lib/_qjs_dtoa.c:319-333 | negative shifts multiply exactly |
| DtoaBig.Mpb.DropLimbs | qjs/lib/_qjs_dtoa.c:380-384 | whole limbs are dropped |
| DtoaBig.Mpb.AddOne | qjs/lib/_qjs_dtoa.c:389-395 | the carry may add a limb |
| DtoaBig.Mpb.Renorm | qjs/lib/_qjs_dtoa.c:214-218 | leading zero limbs go, the value stays |
| DtoaBig.Mpb.GetBit | qjs/lib/_qjs_dtoa.c:300-310 | one bit of the value |
| DtoaBig.Mpb.FloorLog2 | qjs/lib/_qjs_dtoa.c:448-456 | the position of the highest set bit |
| DtoaBig.Mpb.SetU64 | qjs/lib/_qjs_dtoa.c:419-432 | set from 64 bits |
| DtoaBig.Mpb.GetU64 | qjs/lib/_qjs_dtoa.c:434-445 | the low 64 bits |
| DtoaBits.RoundBits | qjs/lib/_qjs_dtoa.c:340-372 | the three bits decide rounding exactly as the remainder does |
| DtoaDivide.DivideNormalized | qjs/lib/_qjs_dtoa.c:116-135 | with the reciprocal, the exact quotient and remainder of a1 * 2^32 + a0 by every d >= 2^31 with a1 < d, in 32- and 64-bit words |
| DtoaDivide.EstimateGood | qjs/lib/_qjs_dtoa.c:120-127 | the estimated quotient is the quotient or one less |
| DtoaDivide.ReciprocalExact | qjs/lib/_qjs_dtoa.c:106-113 | the reciprocal is floor((2^64 - 1) / d) - 2^32 |
| DtoaDivide.DivNorm | qjs/lib/_qjs_dtoa.c:186-199 | in place, a number of any length is divided exactly by the divisor before normalization |
| DtoaLimbs.AddSmall | qjs/lib/_qjs_dtoa.c:75-89 | limb addition with early exit |
| DtoaLimbs.MulSmall | qjs/lib/_qjs_dtoa.c:91-104 | multiplication by a limb with carry in and out |
| DtoaLimbs.DivSmall | qjs/lib/_qjs_dtoa.c:137-148 | division by a limb |
| DtoaLimbs.ShiftRight | qjs/lib/_qjs_dtoa.c:150-166 | bit shift down |
| DtoaLimbs.ShiftLeft | qjs/lib/_qjs_dtoa.c:168-184 | bit shift up |
| DtoaPowers.PowUi | qjs/lib/_qjs_dtoa.c:241-269 | exact power by binary powering or from the table |
| DtoaPowers.PowUiInv | qjs/lib/_qjs_dtoa.c:271-292 | normalized power with its exact reciprocal, table entries included |
| DtoaPowers.Pow5Exact | qjs/lib/_qjs_dtoa.c:221-231 | the table of powers of five is right |
| DtoaPowers.Pow5InverseExact | qjs/lib/_qjs_dtoa.c:233-238 | the table of reciprocals is right |
| DtoaTables.LimbTable | qjs/lib/_qjs_dtoa.c:702-720 | digits per limb and limb base agree for every radix |
| DtoaTables.DigitsTable | qjs/lib/_qjs_dtoa.c:723-733 | radix^(maxDigits - 1) >= 2^53 and radix^maxDigits < 2^63 for every radix |
| DtoaTight.TablesTight | qjs/lib/_qjs_dtoa.c:702-733 | each table entry is the best one: maxDigits the least number of digits that tells all doubles apart, limbDigits the most that fit a limb, atodDigits the most that fit 128 bits (64 in a power-of-two radix) |
| DtoaDigits.OutputDigits | qjs/lib/_qjs_dtoa.c:847-889 | writes exactly the n low digits, zero padded, with the dot in place, for every radix |
| DtoaDigits.ReadDigits | qjs/lib/_qjs_dtoa.c:1475-1496 | chunked reading recovers the value of the digits kept and whether a cut-off digit was not zero |
| DtoaDigits.ReadsWritten | qjs/lib/_qjs_dtoa.c:847-889 | re-reading the n digits written gives the number modulo radix^n |
| DtoaDigits.DigitValues | qjs/lib/_qjs_dtoa.c:1320-1330 | digits are written in lower case and read in either case, and nothing else is a digit |
| DtoaDigits.WritesRead | qjs/lib/_qjs_dtoa.c:1475-1496 | writing what was read gives the digits back |
| DtoaDigits.MulBase | qjs/lib/_qjs_dtoa.c:1332-1351 | r * base + a, base 0 meaning 2^32 |
| DtoaDigits.WriteLimb | qjs/lib/_qjs_dtoa.c:543-588 | one limb's digits, right to left |
| UnicodeFold.Canonicalize | qjs/lib/_qjs_libunicode.c:658-742 | the set becomes exactly its image under the folding function, as a strictly increasing list |
| UnicodeFold.CollectAll | qjs/lib/_qjs_libunicode.c:681-723 | the monotone table walk and the run merging collect exactly the images |
| UnicodeFold.SortAndRemoveOverlap | qjs/lib/_qjs_libunicode.c:622-656 | intervals in any order, overlapping or not, become an ordered list with the same members |
| UnicodeFold.JoinSorted | qjs/lib/_qjs_libunicode.c:628-655 | merging intervals sorted by start keeps the members |
| UnicodeFold.FoldChar | qjs/lib/_qjs_libunicode.c:222-262 | ASCII letters directly, binary search over the runs beyond: the folding function exactly where the table folds ASCII in the same way |
| UnicodeFold.PointCmpPreorder | qjs/lib/_qjs_libunicode.c:615-620 | the comparison is a total preorder |
| UnicodeSets.CharRange.SetOp | qjs/lib/_qjs_libunicode.c:461-515 | exactly the union, intersection, symmetric difference or difference of the members, strictly increasing |
| UnicodeSets.OpIsSetOp | qjs/lib/_qjs_libunicode.c:492-507 | union, intersection, difference and symmetric difference, on interval membership |
| UnicodeSets.CharRange.MergePoints | qjs/lib/_qjs_libunicode.c:468-512 | the merge loop keeps parity and order |
| UnicodeSets.CharRange.Compress | qjs/lib/_qjs_libunicode.c:432-459 | touching intervals are merged and empty ones dropped, in place, without changing the members |
| UnicodeSets.CharRange.SetOpWith | qjs/lib/_qjs_libunicode.c:517-527 | the operation applied to the set itself |
| UnicodeSets.CharRange.Invert | qjs/lib/_qjs_libunicode.c:529-541 | exactly the complement below UINT32_MAX |
| UnicodeSets.DoubleInverse | qjs/lib/_qjs_libunicode.c:529-541 | inverting twice restores a canonical list |
| UnicodeSets.CanonicalUnique | qjs/lib/_qjs_libunicode.c:432-541 | strictly increasing lists with the same members are equal |
| UnicodeSets.InsideIsInSet | qjs/lib/_qjs_libunicode.c:461-515 | parity of the points at or below c is membership in an interval |
| UnicodeTable.LookupAgrees | qjs/lib/_qjs_libunicode.c:270-345 | for every table with a well-formed index the indexed lookup agrees with membership in the full scan's range list |
| UnicodeTable.IsInTable | qjs/lib/_qjs_libunicode.c:304-345 | the indexed lookup gives the bit of a scan from the start |
| UnicodeTable.GetIndexPos | qjs/lib/_qjs_libunicode.c:269-302 | the binary search returns a checkpoint at or before c, or -1 exactly when c is beyond the table |
| UnicodeTable.PropRanges | qjs/lib/_qjs_libunicode.c:1459-1504 | the full scan lists exactly the true runs |
| UnicodeTable.CodedRuns | qjs/lib/_qjs_libunicode.c:1465-1473 | run lengths written in any of the forms that fit them (3+3, 7, 13 or 21 bits) are read back |
| UnicodeTable.PropRoundTrip | qjs/lib/_qjs_libunicode.c:1457-1500 | a table that codes the run lengths of a set is listed as the boundary points of that set |
| UnicodeTable.RangesOfDeltas | qjs/lib/_qjs_libunicode.c:1474-1499 | scanning the run lengths of a set gives its points |
| UnicodeTable.IndexCoded | qjs/lib/_qjs_libunicode.c:263-303 | an index of 24-bit entries, low byte first, made of checkpoints is one the lookup can use |
| UnicodeTable.LookupIsInRanges | qjs/lib/_qjs_libunicode.c:1459-1504 | scanning for c and listing the ranges agree |
| UnicodeOrder.SortCc | qjs/lib/_qjs_libunicode.c:1091-1125 | the buffer becomes its canonical order, in place |
| UnicodeOrder.CanonOrdered | qjs/lib/_qjs_libunicode.c:1091-1125 | the result has no reorderable pair (section 3.11 of the Unicode Standard) |
| UnicodeOrder.CanonStable | qjs/lib/_qjs_libunicode.c:1091-1125 | characters of each class keep their order between characters of class 0 |
| UnicodeOrder.CanonFixes | qjs/lib/_qjs_libunicode.c:1091-1125 | characters of class 0 do not move |
| UnicodeOrder.CanonPermutes | qjs/lib/_qjs_libunicode.c:1091-1125 | no character is lost or added |
| UnicodeOrder.CanonIdempotent | qjs/lib/_qjs_libunicode.c:1091-1125 | a second pass changes nothing |
| Rqsort.Sort | qjs/lib/_qjs_cutils.c:521-639 | sorts every array into a permutation of itself for every total preorder; the 50-entry stack never overflows |
| Rqsort.SplitDown | qjs/lib/_qjs_cutils.c:543-631 | the inner loop keeps all finished and pending ranges in order and the stack depths at least their index |
| Rqsort.SplitOnce | qjs/lib/_qjs_cutils.c:544-631 | splits a long range: the larger part is stacked, the one kept is less than half of the range, and pending ranges and their order are kept |
| Rqsort.Fallback | qjs/lib/_qjs_cutils.c:544-551 | beyond depth 50 the range is heapsorted |
| Rqsort.InsertionSort | qjs/lib/_qjs_cutils.c:633-637 | sorts a range |
| SortPartition.Partition | qjs/lib/_qjs_cutils.c:552-615 | smaller, equal and greater elements around the median of the elements at one, two and three quarters, the middle part never empty, by a permutation of the range |
| SortPartition.Split | qjs/lib/_qjs_cutils.c:558-583 | the four-part scan |
| SortPartition.Gather | qjs/lib/_qjs_cutils.c:584-610 | the two block swaps bring the equal elements to the middle |
| SortPartition.Med3IsMedian | qjs/lib/_qjs_cutils.c:514-519 | median of three |
| SortHeap.HeapSort | qjs/lib/_qjs_cutils.c:480-512 | sorts a range in place by a permutation of it |
| SortHeap.SiftDown | qjs/lib/_qjs_cutils.c:491-499 | restores the heap below a position |
| SortOrder.Refined | qjs/lib/_qjs_cutils.c:611-631 | permuting a pending range and refining it keeps everything in order |
| Bundle.WriteThenParse | common/bundle.ml:168-309 | parse(write(x)) returns header, manifest and the modules sorted by path if and only if header and manifest are what their canonical texts are read as and the modules are distinct, valid and within the caps |
| Bundle.ParseThenWrite | common/bundle.ml:168-309 | writing what was parsed gives the same bytes back if and only if header and manifest were in canonical form |
| Bundle.SpacesAreLost | common/bundle.ml:196-203 | an accepted bundle whose header is an empty object with a space inside is written back differently |
| Bundle.SpacedBundle | common/bundle.ml:196-203 | such a bundle exists |
| Bundle.KeysAreReordered | common/bundle.ml:289-290 | a header value with its keys out of order does not come back |
| Bundle.LayoutInjective | common/bundle.ml:283-309 | a buffer determines header, manifest and modules, even where a length field of another value would have wrapped around |
| JsonText.TextExact | common/canonical_json.ml:114-117 | values without doubles and repeated keys have the same canonical text if and only if they differ in the order of object members alone |
| JsonText.EncodeUnique | common/canonical_json.ml:71-112 | a value's text, whatever follows it, determines the value and where it ends |
| JsonText.WholeDouble | common/canonical_json.ml:90-95 | a whole double and the integer share their text, so the restriction to values without doubles is needed |
| JsonGrammar.EncodeIsText | common/canonical_json.ml:86-112 | canonical text is text of the grammar of RFC 8259 for the value it was made from: literals, integers, escaped strings, arrays and objects |
| JsonGrammar.QuotedReads | common/canonical_json.ml:70-84 | a string is read back from its quoted and escaped text by section 7 of RFC 8259 |
| CanonicalJson.OrderIrrelevant | common/canonical_json.ml:56-63 | values without repeated keys have the same canonical form if and only if they differ in the order of object members alone |
| CanonicalJson.SortKeepsMeaning | common/canonical_json.ml:56-63 | sorting keys at every level keeps every object's map of keys to values |
| CanonicalJson.SortIdempotent | common/canonical_json.ml:56-63 | a canonical value stays as it is |
| Bundle.LayoutParse | common/bundle.ml:168-264 | an accepted buffer is exactly the layout of its header text, manifest text and modules: the whole buffer is consumed and the content is sorted, valid and within the caps |
| Bundle.ParseLayout | common/bundle.ml:168-264 | the layout of every well-formed content is accepted and read back |
| Bundle.AcceptedUnique | common/bundle.ml:168-264 | accepted buffers with equal header text, manifest text and modules are identical |
| Bundle.ReadWrittenModules | common/bundle.ml:204-250 | reading the written records gives the modules and the offset behind them |
| Bundle.WrittenModulesRead | common/bundle.ml:204-250 | records that were read are exactly those written for the modules, strictly sorted |
| Bundle.WriteBuffer | common/bundle.ml:283-309 | the writer's buffer |
| Bundle.CtEqBytes | common/bundle.ml:113-121 | equality that looks at every byte |
| Bundle.U32RoundTrip | common/bundle.ml:124-129 | big-endian 32-bit reading inverts writing and conversely |
| Bundle.U16RoundTrip | common/bundle.ml:131-133 | the same for 16 bits |
| Bundle.BigEndian | common/bundle.ml:267-280 | the high byte comes first, in 16 and in 32 bits |
| Bundle.TotalExact | common/bundle.ml:250-252 | the total that is capped adds up the sizes of the contents |
| KeySort.SortSorts | common/bundle.ml:287-288 | distinct keys sort into strictly increasing order |
| KeySort.SortedUnique | common/bundle.ml:287-288 | strictly sorted lists with the same map are the same list |
| Basics.BeforeExact | common/canonical_json.ml:58-63 | keys and paths are ordered by their first different byte, a proper prefix first |
| HostQueue.Ring.PushRequest | qjs/c/qjs_host_queue.c:39-52 | the ring refines the FIFO push: next id and append, or 0 and the payload freed when 256 requests wait |
| HostQueue.Ring.TakeRequest | qjs/c/qjs_host_queue.c:54-66 | the oldest request leaves with its payload |
| HostQueue.Ring.Destroy | qjs/c/qjs_host_queue.c:17-24 | frees exactly the payloads of the waiting requests |
| HostQueue.RunConserves | qjs/c/qjs_host_queue.c:11-66 | in every run ids increase, at most 256 requests wait, payloads leave in the order they were accepted and none is lost |
| HostQueue.HandedOrFreed | qjs/c/qjs_host_queue.c:39-66 | a payload is handed out once or freed once, never both |
| HostQueue.LifeConserves | qjs/c/qjs_host_queue.c:11-66 | over a whole life ended by destroying the ring, every payload offered was handed out or freed, once, and no other was |
| HostQueue.IdsIncrease | qjs/c/qjs_host_queue.c:46-47 | ids of successive successful pushes strictly increase |
| HostBridge.SettledOnce | qjs/c/qjs_stubs.c:510-533 | in every run of one runtime each id's promise is settled at most once |
| HostBridge.ResolveIgnored | qjs/c/qjs_stubs.c:510-517 | resolving a settled or unknown id changes nothing |
| HostBridge.Bridge.HostCall | qjs/c/qjs_stubs.c:427-444 | a call queues its request and opens its promise with the functions it was given; overload and a full promise table are told apart |
| HostBridge.Bridge.ResolvePromise | qjs/c/qjs_stubs.c:510-533 | settles exactly the open promise with this id, through the resolve function of its call, or through reject when the result is no JSON |
| HostBridge.Bridge.PromiseInsert | qjs/c/qjs_stubs.c:372-386 | takes the first free slot and fails exactly when 256 promises are open |
| HostBridge.Bridge.PromiseFind | qjs/c/qjs_stubs.c:388-394 | finds the slot of an open id |
| HostBridge.Bridge.TakeAll | qjs/c/qjs_stubs.c:585-604 | drains exactly the waiting requests in order |
| HostHandles.Table.Get | qjs/c/qjs_stubs.c:148-157 | in every run a live handle, truncated to an int, gives its own runtime if and only if its generation is below 2^15; a destroyed or unknown one gives none |
| HostHandles.Table.Alloc | qjs/c/qjs_stubs.c:134-146 | the first free slot under its next generation; a new handle differs from every handle given out before; 0 exactly when the table is full |
| HostHandles.Table.Destroy | qjs/c/qjs_stubs.c:236-253 | a handle that is found is dead afterwards and no other changes; any other handle changes nothing |
| HostHandles.DecodeExact | qjs/c/qjs_stubs.c:141-153 | a handle gives its generation back if and only if the generation is below 2^15 |
| HostHandles.WearOut | qjs/c/qjs_stubs.c:134-157 | a run in which a slot reaches generation 2^15: its runtime stays in the table and can be neither used nor destroyed |

## Left out

- LibRegexp.LreCompile: starts from a parsed pattern, so syntax errors and the byte code length limit are absent.
- RegexParser.ReParseState.Emit: walks a parsed pattern in place of the text.
- RegexCapped.SearchCapped: the condition is proved sufficient for every pattern, and exact for one class of atoms only (see above).
- Regular-expression text: patterns are trees; tokenizing, Annex B syntax, named groups, modifiers, class escapes and set notation,
  `\q{}` strings and Unicode properties are not modelled.
- Case-insensitive matching and lookbehind (backward-direction terms) in the compiler and the executor.
- Byte encoding of instructions: program positions count instructions, so operand widths and the byte code length limit are not captured.
- Stack growth, timeouts by polling and out-of-memory results of the executor.
- The string-list hash table of set-notation classes.
- Regular-expression classes are canonical boundary lists; that parsing a class builds one is covered only for the set operations.
- js_dtoa in fixed and fraction format: only their rounding (`DtoaScale.MulPowRound`, ties away from zero) and digit output are modelled.
- js_atod with a detected radix, octal and binary prefixes, underscores or integers only; `u64toa`'s grouping by nine digits and its
  power-of-two variant are represented by `DtoaText.NumberToText`.
- DtoaRoundTrip.JsAtod: positions in the text are unbounded, where the source counts them in an int.
- Limb buffer sizes: arrays are required to be long enough, so the constants DBIGNUM_LEN_MAX and MANT_LEN_MAX are not justified.
- mp_div1norm with distinct source and destination, which is never used.
- unicode_case1 and lre_case_conv_entry: the mask and the folding of one table entry are parameters constrained by `CoversChanges`.
- Normalization beyond canonical ordering, script and category tables, property names.
- Rqsort.Sort: compares elements by a pure function; a comparator with side effects, and the byte-swapping variants chosen by element
  size and alignment, are not modelled.
- SHA-256 internals, JSON reading, the printing of doubles in JSON and manifest validation; the exception that the path check raises on
  three-byte paths.
- Which of several errors the bundle parser reports: acceptance is stated exactly, the choice of message is not.
- Several runtimes sharing the promise table, whose ids are per runtime; 64-bit wrap-around of request ids.
- JavaScript values, evaluation, the module loader, interrupt handling, clocks and the rest of the server.
