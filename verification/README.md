# Guest runtime, verified

A Dafny 4.11 model of six components of the LAMP guest runtime and proofs of what they promise. The
guest has no floating point and no 64-bit division, so its C library carries them in software, next to a
regular-expression engine, a heap, a calendar and the printf/scanf number formats.

`dafny verify dfyconfig.toml` checks the whole project.

| files | component |
|---|---|
| Bits, Maybe | machine words and the bit operations on them; optional values |
| Rounding, SoftFloat, SoftFloatArith, SoftFloatLaws, SoftFloatCompare, SoftFloatConvert | binary64 arithmetic, comparison and conversion from 64-bit integer operations |
| RegexVm, RegexExec, RegexPriority | the backtracking matcher and its stamps; its steps, the path it finds and its captures, by value |
| RegexSyntax, RegexBuild, RegexCompile | expressions and the parser of both syntaxes; what the compiler makes of an expression, as a function; the one-pass compiler, in place |
| RegexSafety, RegexSlots, RegexMarks | what every compiled program satisfies; capture slots, and how large they get |
| RegexCode, RegexLayout | the code of an expression as a relocatable fragment; the layout of compiled programs |
| RegexRuns, RegexCuts, RegexLanguage, RegexUsual | accepting runs; the copies of `{0,n}`; what compiled programs read; how that compares with the usual language |
| RegexLaws | compiler and matcher together |
| RegexReported, RegexGroups, RegexBranches, RegexSearches | what is reported for repetitions of a byte, for a group, for an alternation; from the written pattern to the reported match |
| RegexBrackets, RegexWritten, RegexAccepted, RegexRefused | patterns as they are written, in either syntax, and what they stand for; the patterns that are accepted, and the codes of those that are not |
| RegexPatterns, RegexForms, RegexRepeats | forms whose code departs from the usual language |
| HeapList, Heap | the first-fit heap, as a block list and as bytes in an arena |
| Calendar | broken-down time |
| Format, FormatLaws, Stdio | what a printf format stands for, the same by value, the bounded printer |
| Scan, ScanLaws, RoundTrip | the integer scanner, what it reads by value, printing and scanning together |
| DivMod | 64-bit division and multiplication |

## How to read it

**Soft-float.** A bit pattern below the sign is its position in value order, and `Rounding.Mag` is its
value in units of the smallest subnormal. `Rounding.Nearest` says that an encoding is closer to an exact
fraction than every other one, ties to even, where the encoding of infinity stands for the next power of
two; overflow is then an instance of the same rule. No real numbers occur: an exact value is a fraction of
integers. `SoftFloat.DfPack` is proved once against any exact value that agrees with the given digits,
guard and sticky, and each operation hands it such a triple.

**Regular expressions.** A `Machine` is a program, a text and flags, and `RegexVm.Next` is its step graph.
`RegexVm.FirstPath` is a search without stamps that refuses only states on its current path; the
recursive matcher, with its stamps, is proved to find the same path. `RegexSyntax.Parse` reads every pattern
of either syntax, error codes included, and `RegexCompile.RegComp` is proved to return exactly its code or
the program `RegexBuild.Compiled` of its expression. `RegexCode` describes the code of an expression as a
fragment whose exits are still open; a SPLIT that is put in front of an item later is stepped over by the
exits that already lead there, so an item has two entrances, and `RegexLanguage.Reads` follows both. The
runs of a compiled program are exactly the words it reads (`RegexLanguage.ProgramLanguage`), for every pattern
that compiles: loops that cannot be left, misplaced SPLITs and the shortened copies of `{0,n}` included.
`RegexUsual` compares this with the usual language: without the latter nothing more is ever read, and exactly
the same where the decidable test `TameAtom` holds.

Three statements fix the functions these results are told in. `RegexPriority.StepMeaning` gives the steps of a run on
the fields of an instruction, and `RegexPriority.FoundPath` the path found: it leaves a SPLIT by `y` only where no
accepting path goes on from `x`. `RegexAccepted.AcceptedPatterns` says which patterns are accepted and for which
expressions they stand: `RegexWritten` writes an expression out, byte by byte in either syntax, with sets given by
their members, and `Parse` reads exactly those texts. `RegexReported`, `RegexGroups` and `RegexBranches` then give the
ends that `regexec` reports.

**Formats.** `Format` and `Scan` follow the code from one character to the next. `FormatLaws` and `ScanLaws` divide a
text into its parts (flags, width, precision and length; blanks, sign, prefix and digits) and say what the parts mean;
every text is shown to have such parts.

**Heap.** Headers are bytes of the arena in front of the payloads. `HeapList` says what each call makes
of the block list; `Heap.Heap` does it in place and keeps the bytes of every live block.

## Results that contradict the documentation or the tests

* An infinity plus a NaN of the same sign is the infinity, not a NaN, when the infinity comes first
  (lib/compiler_rt_softfloat.c:263-270): `SoftFloatLaws.SumNaNRule` gives the exact operands.
* Narrowing to binary32 rounds exact ties upward in the normal range, because the sticky mask includes the
  guard bit (lib/compiler_rt_softfloat.c:517-519): `SoftFloatConvert.TruncDfSf2` is correct if and only if
  the operand is not a tie whose lower neighbour is even.
* Conversion to `int` saturates if and only if `SoftFloatConvert.SaturationHolds`; 2^64 converts to 0, and an
  infinity to the least int. Conversion to `unsigned` never saturates (`SoftFloatConvert.FixUnsSaturation`).
* A pattern whose words all pass a `*` or a `{m,}` never matches anything (`RegexForms.LoopNeverMatches`);
  tests/regex.c:39 expects `a*` to match (`RegexForms.StarNeverMatches`).
* An alternation also matches the empty word everywhere (`RegexForms.AlternationLanguage`), which is reported where no
  branch has a match (`RegexBranches.BranchTaken`).
* Unescaped, `+`, `?` and `{` are literals of the basic syntax: `ab+c` stands for its four bytes
  (`RegexWritten.BasicPlus`), where tests/regex.c:40 expects a repetition.
* An interval of the basic syntax is closed by a bare brace; `a\{1,2\}` is refused (`RegexRefused.BasicInterval`).
* A class name stands for its members if and only if it is `digit`, `lower`, `upper`, `print` or `graph`; of the others
  only the first range is taken (`RegexBrackets.ClassComplete`).
* A directive without a conversion character at the end of a format prints a NUL (`FormatLaws.Unfinished`).
* A `?` makes its item optional if and only if no earlier exit leads to its place (`RegexForms.OptionInserted`).
  Otherwise the exit steps over it: `X+Y?` matches exactly the words of `X+Y` (`RegexForms.PlusThenOption`), and
  `c+d?` does not match `c` (`RegexForms.OptionNotTaken`).
* `X{0,n}` copies what stands at the item's old place. It writes n optional copies if and only if n is 1, or X
  has no code (`RegexRepeats.OptionsWritten`). For a word w, `(?:w){0,n}` has its language if and only if n is 1
  (`RegexRepeats.LiteralRepetition`), and `(w){0,n}` if and only if n is 1 or 2 (`RegexRepeats.CapturedRepetition`);
  `(?:cd){0,2}` matches `cdc` (`RegexRepeats.HalfRepetition`).
* Capture slots are moved by insertions and copies. Where no group is copied they fit the captures of regexec if
  and only if the calculated largest one does (`RegexMarks.CompiledSlots`); `(a)|b` saves outside them
  (`RegexForms.BranchMovesSlots`), `(a)b?` does not. A group with a group inside closes with another group's slot
  (`RegexSlots.ClosingSlot`).
* `\W`, `\S` and `\D` match every byte (`RegexForms.NegatedShorthand`).
* `tm_yday` counts from March (`Calendar.YdayNeverFromJanuary`); mktime carries a month outside the year if and
  only if it is not negative (`Calendar.MonthsOutside`).
* A request above 2^32 - 16 bytes wraps in malloc (`HeapList.RequestFits`, `HeapList.OversizeRequest`).

## Model
| member | source | states |
|---|---|---|
| Rounding.NearestUnique | lib/compiler_rt_softfloat.c:110-112 | at most one encoding is the nearest-even one for an exact value |
| Rounding.NearestOfNeighbours | lib/compiler_rt_softfloat.c:135-142 | between two neighbours, comparing with the midpoint (and parity at it) picks the nearest of all encodings |
| Rounding.NearestPastInfinity | lib/compiler_rt_softfloat.c:144-147 | a value at or beyond the overflow step rounds to infinity |
| Rounding.RoundCell | lib/compiler_rt_softfloat.c:135-158 | adding one exactly when guard and (sticky or odd) hold, and stopping at infinity, is nearest-even for every exact value in the cell, carries between exponents included |
| Rounding.MagMonotone | lib/compiler_rt_softfloat.c:35-65 | encodings are in value order, subnormals, normals and infinity alike |
| SoftFloat.DfUnpack | lib/compiler_rt_softfloat.c:77-108 | sign, exponent and 53-bit significand whose product is the operand's magnitude, subnormals normalised; zero, infinity and NaN told apart |
| SoftFloat.DfPack | lib/compiler_rt_softfloat.c:110-159 | the nearest-even binary64 of any exact value that agrees with (q, guard, sticky) at any exponent: normal, subnormal reshift, round-up into the smallest normal, flush to zero, overflow |
| SoftFloat.DfUmul128 | lib/compiler_rt_softfloat.c:161-183 | the two words hold the full 128-bit product |
| SoftFloat.DfMsb | lib/compiler_rt_softfloat.c:188-195 | the index of the leading bit, -1 for zero |
| SoftFloatArith.DfNormPack128 | lib/compiler_rt_softfloat.c:197-228 | the nearest binary64 of any value in the cell of a 128-bit window with sticky tail, in one rounding |
| SoftFloatArith.DfNormPack | lib/compiler_rt_softfloat.c:230-254 | the same for a 64-bit window with guard and sticky |
| SoftFloatArith.AddDf3 | lib/compiler_rt_softfloat.c:256-355 | for all finite operands the correctly rounded sum, +0 on exact cancellation unless both are -0, the far-apart shortcut included; infinities; NaN for exactly the listed operands |
| SoftFloatArith.SubDf3 | lib/compiler_rt_softfloat.c:357-359 | for all finite operands the correctly rounded difference, with its zero and NaN rules; the infinity of either operand, with the second one's sign flipped |
| SoftFloatArith.MulDf3 | lib/compiler_rt_softfloat.c:361-390 | for all finite operands the correctly rounded product; sign, infinities and NaN exactly as IEEE 754-2008 section 7.2 lists them |
| SoftFloatArith.DivDf3 | lib/compiler_rt_softfloat.c:392-441 | for finite operands and a nonzero divisor the correctly rounded quotient, down through the subnormal range; division by zero, infinities and NaN |
| SoftFloatArith.SumCommutes | lib/compiler_rt_softfloat.c:288-302 | the rounded sum does not depend on the order of the operands, as the swap requires |
| SoftFloatLaws.SumUnique | lib/compiler_rt_softfloat.c:256-355 | the sum condition fixes every bit of the result |
| SoftFloatLaws.ProductUnique | lib/compiler_rt_softfloat.c:361-390 | the products of a, b and of b, a are the same pattern |
| SoftFloatLaws.ExactSum | lib/compiler_rt_softfloat.c:256-355 | a sum that is a double is returned exactly |
| SoftFloatLaws.SterbenzDifference | lib/compiler_rt_softfloat.c:329-348 | operands of one sign within a factor of two subtract exactly |
| SoftFloatLaws.OverflowThreshold | lib/compiler_rt_softfloat.c:144-147 | rounding gives infinity if and only if the magnitude reaches the midpoint past the largest finite double |
| SoftFloatLaws.SumNaNRule | lib/compiler_rt_softfloat.c:263-277 | with a NaN operand the sum computed is a NaN if and only if it is not an infinity followed by a NaN of its sign |
| SoftFloatLaws.SumNaNRuleFails | lib/compiler_rt_softfloat.c:263-270 | two operands whose sum is an infinity in one order and a NaN in the other |
| SoftFloatCompare.NanTest | lib/compiler_rt_softfloat.c:27-33 | the half-word test recognises exactly the NaN patterns |
| SoftFloatCompare.CompareIsValueOrder | lib/compiler_rt_softfloat.c:35-65 | away from NaN the result is the sign of the comparison of the exact values, -0 equal to +0, infinities included |
| SoftFloatCompare.HelpersMeaning | lib/compiler_rt_softfloat.c:67-73 | each helper answers its C operator on values, with the unordered answer on every NaN |
| SoftFloatCompare.TotalPreorder | lib/compiler_rt_softfloat.c:67-72 | away from NaN the six helpers are one total preorder |
| SoftFloatCompare.OrderEnds | lib/compiler_rt_softfloat.c:39-57 | infinities lie outside all finite values; only the zeros equal -0 |
| SoftFloatConvert.ExtendSfDf2 | lib/compiler_rt_softfloat.c:445-474 | widening keeps the value exactly, subnormals and signed zeros included, and maps infinities and NaNs |
| SoftFloatConvert.TruncDfSf2 | lib/compiler_rt_softfloat.c:476-563 | the nearest-even binary32 if and only if the operand is not a tie with an even lower neighbour in the normal range, where it is the upper neighbour |
| SoftFloatConvert.TieExample | lib/compiler_rt_softfloat.c:517-519 | 1 + 2^-24 is such a tie |
| SoftFloatConvert.RoundAndJoin32 | lib/compiler_rt_softfloat.c:536-562 | the increment with all its carries is one addition to the encoding, cut off at infinity |
| SoftFloatConvert.TruncOfExtend | lib/compiler_rt_softfloat.c:445-563 | widening and narrowing gives back every binary32 value but a NaN |
| SoftFloatConvert.WidenAndNarrow | lib/compiler_rt_softfloat.c:445-563 | the round trip through both routines |
| SoftFloatConvert.DfFromMag | lib/compiler_rt_softfloat.c:566-573 | the double with exactly that magnitude and sign |
| SoftFloatConvert.FloatSiDf | lib/compiler_rt_softfloat.c:575-581 | every int is held exactly, the least one included |
| SoftFloatConvert.FloatUnSiDf | lib/compiler_rt_softfloat.c:583-585 | every unsigned is held exactly |
| SoftFloatConvert.FixInRange | lib/compiler_rt_softfloat.c:588-631 | a value whose truncation is an int converts to it |
| SoftFloatConvert.FixUnsInRange | lib/compiler_rt_softfloat.c:588-632 | a value whose truncation is an unsigned converts to it |
| SoftFloatConvert.FixUnsSaturation | lib/compiler_rt_softfloat.c:588-632 | the conversion to unsigned answers with the truncation or the nearest bound if and only if the truncation is in range |
| SoftFloatConvert.FixSaturation | lib/compiler_rt_softfloat.c:587-629 | a value, finite or infinite, saturates as the comment promises if and only if the shifted significand meets the stated test |
| SoftFloatConvert.FixSaturationFails | lib/compiler_rt_softfloat.c:606-612 | 2^64 converts to 0 instead of the largest int |
| SoftFloatConvert.FixSpecials | lib/compiler_rt_softfloat.c:592-594 | a NaN or an infinity converts to the least int, and to the largest int as an unsigned |
| SoftFloatConvert.FixOfFloat | lib/compiler_rt_softfloat.c:566-632 | every int and unsigned survives the way to a double and back |
| RegexVm.FirstPathSound | lib/libc_regex.c:801-903 | the reference search returns accepting cycle-free paths only |
| RegexVm.FirstPathFirst | lib/libc_regex.c:847-866 | it misses no accepting cycle-free path; where another one parts from what it returns, the instruction is a SPLIT, the returned path goes to its `x` and the other to its `y` |
| RegexVm.CutLoops | lib/libc_regex.c:801-903 | every accepting path contains a cycle-free one |
| RegexVm.SearchDecides | lib/libc_regex.c:801-903 | the search succeeds if and only if a MATCH is reachable, cycles or not |
| RegexVm.SearchFindsFirst | lib/libc_regex.c:847-866 | the path found parts from every other accepting cycle-free path at a SPLIT, where it goes to `x` and the other to `y` |
| RegexExec.ReRun | lib/libc_regex.c:801-903 | terminates on every program; succeeds exactly when the search without stamps does, leaves the captures of the same path, and restores the captures on failure; every state it stamps cannot match |
| RegexExec.TryAt | lib/libc_regex.c:940-948 | one attempt: matches if and only if a MATCH is reachable from that start, with the first path's captures |
| RegexExec.RegExec | lib/libc_regex.c:905-971 | the leftmost start from which a MATCH is reachable, or no match from any; pmatch gets the captures and is otherwise untouched |
| RegexPriority.StepMeaning | lib/libc_regex.c:816-902 | the states a run can go to, on the fields of the instruction, the bytes of the text and the flags: case folding, newlines, sets, anchors and boundaries by value, a SPLIT to `x` or `y` |
| RegexPriority.FoundPath | lib/libc_regex.c:847-853 | the search finds exactly the accepting cycle-free path that leaves a SPLIT by `y` only where no such path, apart from the states before, goes on from `x` |
| RegexPriority.GreedyPath | lib/libc_regex.c:847-853 | a path that leaves a SPLIT by `y` only where `x` reaches no MATCH is the one found |
| RegexPriority.CapturedSlot | lib/libc_regex.c:857-866 | after a path a slot holds the position of its last SAVE there, or what it held before |
| RegexPriority.ReportedSlot | lib/libc_regex.c:945-966 | what regexec reports for a slot: the position of its last SAVE on the path found, -1 without one, the start for slot 0 |
| RegexReported.PlusReports | lib/libc_regex.c:534-544 | for a byte, dot or set X, regexec of `X+` reports the whole run of X at the leftmost place where one stands |
| RegexReported.OptionReports | lib/libc_regex.c:546-549 | regexec of `X?` matches at the very beginning and takes the byte if it stands there |
| RegexReported.RepeatReports | lib/libc_regex.c:551-628 | regexec of `X{min,max}`, min above 0, reports the bytes of X at the leftmost place where min of them stand, as many as there are up to max |
| RegexGroups.GroupReports | lib/libc_regex.c:345-380 | regexec of `Y(X+)` reports for the group exactly the run of X behind the Y, and nothing for further groups |
| RegexBranches.BranchTaken | lib/libc_regex.c:649-720 | for any branches: the reported end is that of a word of the first branch that has one at the start, or the start itself when none has |
| RegexBranches.WordTaken | lib/libc_regex.c:649-720 | of words as branches, the first that stands at the start is reported, whatever stands there of the later ones |
| RegexBrackets.ElementRead | lib/libc_regex.c:139-167 | a byte as it stands or behind a backslash is read as its value, the seven escape letters included |
| RegexBrackets.NamedRead | lib/libc_regex.c:169-197 | each of the twelve class names stands for its first range |
| RegexBrackets.ClassComplete | lib/libc_regex.c:174-195 | that range is the whole class if and only if the name is one of five |
| RegexBrackets.PiecesRead | lib/libc_regex.c:215-246 | bytes, ranges and names in a row are read as the set of exactly their members |
| RegexBrackets.BracketRead | lib/libc_regex.c:199-264 | a bracket expression, negated or not, with a leading `]` or not, is read as the set of exactly its bytes |
| RegexBrackets.IntervalRead | lib/libc_regex.c:435-476 | decimal bounds, a missing lower or upper one included, are read as their numbers; above 10000 they are refused |
| RegexWritten.PatternRead | lib/libc_regex.c:302-476 | every written pattern, in either syntax, is read back as its expression: literals, escapes, dot, brackets, shorthands, anchors, groups, branches and all quantifiers |
| RegexWritten.SpanPattern | lib/libc_regex.c:230-240 | `[x-y]` stands for exactly the bytes from x to y, and `[^x-y]` for exactly the others |
| RegexWritten.BasicPlus | lib/libc_regex.c:521-534 | `ab+c` of the basic syntax stands for its four bytes |
| RegexAccepted.AcceptedPatterns | lib/libc_regex.c:722-755 | a pattern is accepted, as an expression, if and only if it is a way to write that expression |
| RegexRefused.FaultyBracket | lib/libc_regex.c:199-264 | behind any items in order: an unclosed bracket is code 7, a reversed range 11, an unknown class name 4, a backslash at the end 5 |
| RegexRefused.LastBackslash | lib/libc_regex.c:139-167 | a backslash at the end of the pattern is code 5 |
| RegexRefused.OpenParen | lib/libc_regex.c:354-405 | a group that is not closed is code 8 |
| RegexRefused.WideInterval | lib/libc_regex.c:435-476 | an interval above 10000, or with its bounds the wrong way round, is code 10 |
| RegexRefused.OpenInterval | lib/libc_regex.c:435-476 | an interval without its closing brace is code 10 |
| RegexRefused.BasicInterval | lib/libc_regex.c:468-471 | in the basic syntax a closing brace behind a backslash is refused with code 10 |
| RegexRefused.ManyBranches | lib/libc_regex.c:680-710 | more than 128 branches are code 2 |
| RegexSearches.SearchPlus | lib/libc_regex.c:722-971 | compiling `X+` in either syntax, however X is written, and searching: nothing exactly when no byte of X is in the text, else the first run of them as a whole |
| RegexSearches.SearchOptional | lib/libc_regex.c:722-971 | the same for `X?`: the empty or one-byte match at the beginning |
| RegexSearches.SearchRepeated | lib/libc_regex.c:722-971 | the same for a closed interval: nothing exactly when min bytes of X stand nowhere in a row, else the first place where they do, and up to max of them |
| RegexSyntax.ReadToTheEnd | lib/libc_regex.c:722-736 | the parser stops at the end of the pattern or fails, so the check for a rest after the alternation never finds one |
| RegexCompile.Compiler.Emit | lib/libc_regex.c:40-54 | appends one blank instruction with the opcode |
| RegexCompile.Compiler.Insert | lib/libc_regex.c:56-82 | the program with a blank put in and every x and y at or past it moved up, in place |
| RegexCompile.Compiler.CopyBlock | lib/libc_regex.c:84-118 | appends the block with the references into it shifted |
| RegexCompile.Compiler.ReadMembers | lib/libc_regex.c:215-246 | the members of a bracket set up to its end, or the error code, as the parser has them (by value: RegexBrackets.PiecesRead) |
| RegexCompile.Compiler.CompileClass | lib/libc_regex.c:199-264 | the bracket set the parser gives, or its error code and an untouched program (by value: RegexBrackets.BracketRead, RegexRefused.FaultyBracket) |
| RegexCompile.Compiler.CompileSimpleClass | lib/libc_regex.c:266-300 | the set of a shorthand |
| RegexCompile.Compiler.ParseInterval | lib/libc_regex.c:435-476 | bounds, next cursor and error code of an interval |
| RegexCompile.Compiler.CompileAtom | lib/libc_regex.c:322-433 | for every pattern and both syntaxes: the parser's error code, or its expression's output and the cursor behind it; capturing and non-capturing groups |
| RegexCompile.Compiler.WrapOptional | lib/libc_regex.c:478-487 | the whole program after the insertion |
| RegexCompile.Compiler.WrapStar | lib/libc_regex.c:489-504 | the whole program after the insertion, with the SPLIT's second target on the JMP |
| RegexCompile.Compiler.AddOption | lib/libc_regex.c:571-581 | a SPLIT and a shifted copy of the block behind it |
| RegexCompile.Compiler.CompileQuantifier | lib/libc_regex.c:506-629 | every quantifier of both syntaxes, its error codes included: the whole program after it |
| RegexCompile.Compiler.CompileSequence | lib/libc_regex.c:631-647 | the items up to a delimiter, compiled one after the other; the first error ends it |
| RegexCompile.Compiler.CompileAlternation | lib/libc_regex.c:649-720 | a sequence or a chain of branches, nested ones included; the 129th branch is an error |
| RegexCompile.Compiler.CompileBranches | lib/libc_regex.c:680-710 | the branches after the first, and the places of their jumps in the 128-entry table |
| RegexCompile.Compiler.CloseBranches | lib/libc_regex.c:712-719 | the last split and every listed jump lead to the end, nothing else changes |
| RegexCompile.RegComp | lib/libc_regex.c:722-778 | on every pattern, in both syntaxes: the error code of the parser, or exactly the program and group count of the parsed expression, which is the one the pattern is a way to write (RegexAccepted.AcceptedPatterns) |
| RegexSafety.AtomBuilt | lib/libc_regex.c:322-720 | whatever is compiled behind a well-formed program leaves it well formed: targets at most one past the end, group slots from 2 on |
| RegexSafety.CompiledComplete | lib/libc_regex.c:722-778 | every compiled program: all SPLIT and JMP targets inside, SAVE 0 first, SAVE 1 and the only MATCH last, and no other SAVE without groups |
| RegexSlots.InsertedSlots | lib/libc_regex.c:73-80 | an insertion keeps the capture slots within bounds if and only if the last slot is not at or past its place |
| RegexSlots.CopiedSlots | lib/libc_regex.c:84-118 | a block copy keeps the slots within bounds if and only if it moves no slot of the block past them |
| RegexSlots.ClosingSlot | lib/libc_regex.c:373-379 | a group closes with its own slot if and only if no group lies inside it |
| RegexMarks.AtomMarked | lib/libc_regex.c:322-720 | length, number of groups and largest slot of the output, calculated from the sizes of the items |
| RegexMarks.CompiledSlots | lib/libc_regex.c:924-931 | for every pattern that copies no group: the slots of the compiled program fit the captures of regexec if and only if the calculated largest one does |
| RegexMarks.ChoiceSlots | lib/libc_regex.c:649-720 | branches without insertions or copies of their own: the slots fit if and only if the first has no group or a later one has |
| RegexMarks.SlotsStay | lib/libc_regex.c:924-931 | without groups, or without anything to insert or copy, the slots fit |
| RegexCode.ReCompact | lib/libc_regex.c:631-647 | every reference in the fragment of an expression is an exit or leads into it |
| RegexLayout.ThenBehind | lib/libc_regex.c:631-647 | two fragments emitted one after the other are one fragment, the exits of the first led past the SPLITs in front of the second |
| RegexLayout.OptionBehind | lib/libc_regex.c:478-487 | the insertion puts the SPLIT in front of the item and leads all earlier exits past it |
| RegexLayout.CopyBehind | lib/libc_regex.c:84-118 | copying the first block relocates the fragment to its new place |
| RegexLayout.LoopBehind | lib/libc_regex.c:594-611 | the `{m,}` loop as a fragment, its SPLIT's second branch on the JMP |
| RegexLayout.RetriesBehind | lib/libc_regex.c:561-585 | `{0,n}` of any item: the optional item, then blocks of a SPLIT, a copy of the SPLIT in front, and the item without its last instruction |
| RegexLayout.BranchesBehind | lib/libc_regex.c:680-719 | emitting the branches and patching the listed jumps gives the finished alternation |
| RegexLayout.ReBehind | lib/libc_regex.c:631-647 | layout: the program so far with its exits led to the entrance, then the fragment of the expression |
| RegexLanguage.ReSound | lib/libc_regex.c:801-903 | an accepting run through the code reads a word, at every nesting depth, and leaves it the way the word says |
| RegexLanguage.ReRuns | lib/libc_regex.c:801-903 | every word extends an accepting run behind the code to one in front of it |
| RegexLanguage.AltsSound | lib/libc_regex.c:649-720 | a run through the branches reads a word of one of them, or nothing |
| RegexLanguage.StarNeverLeft | lib/libc_regex.c:489-504 | from a loop's SPLIT, or past it, no run ever accepts |
| RegexCuts.CutSound | lib/libc_regex.c:84-118 | a run through the shortened item ends off its end, by a reference to its end, or back at the first block |
| RegexCuts.RetriesPass | lib/libc_regex.c:561-585 | a run from any of the blocks reads shortened items and leaves the last block |
| RegexCuts.RetriesRun | lib/libc_regex.c:561-585 | whatever the blocks read, a run from the first one reads |
| RegexLanguage.CompiledLayout | lib/libc_regex.c:722-778 | the compiled program is the fragment of the expression between two SAVEs |
| RegexLanguage.ProgramLanguage | lib/libc_regex.c:722-778 | for every pattern that compiles: a run from start to a MATCH at end exists if and only if text[start..end) is a word, with loops, misplaced SPLITs, groups and every `{0,n}` read as the code reads them |
| RegexUsual.WordIsUsual | lib/libc_regex.c:722-778 | unless a pattern has `{0}`, or `{0,n}` with n above 1 on more than one instruction, nothing but words of the usual language is read, where an alternation may also read nothing |
| RegexUsual.TameWords | lib/libc_regex.c:722-778 | without loops and such quantifiers, and with no SPLIT put in where an earlier item jumps, exactly the words of the usual language are read, where an alternation may also read nothing |
| RegexUsual.OnlyUsualWords | lib/libc_regex.c:722-778 | whatever the compiled program of a pattern without such quantifiers matches is a word of its expression, loops and misplaced SPLITs included |
| RegexUsual.UsualLanguage | lib/libc_regex.c:722-778 | the compiled program of such a pattern matches exactly those words; for patterns with `|` the empty word is among them, unlike in POSIX |
| RegexLaws.ReportedWord | lib/libc_regex.c:949-966 | the reported bounds delimit a word of the expression, whatever groups the pattern has |
| RegexLaws.LeftmostWord | lib/libc_regex.c:940-966 | the reported match is a word and no word starts before it |
| RegexLaws.MatchMeansWord | lib/libc_regex.c:940-971 | there is a match if and only if the text contains a word |
| RegexLaws.EntriesReported | lib/libc_regex.c:957-966 | the entry of each group is the pair of its two slots; entries past the groups are left alone |
| RegexLaws.CompileAndSearch | lib/libc_regex.c:722-971 | compiling and searching: the error code, or nothing exactly when the text holds no word, or a leftmost word, delimited by the first captures of the path found |
| RegexForms.OptionInserted | lib/libc_regex.c:478-487 | putting the SPLIT in makes the item optional and changes nothing else if and only if no earlier reference leads to its place |
| RegexForms.OptionAfterPlus | lib/libc_regex.c:478-487 | behind `X+` an item with `?` reads exactly what it reads without, for all X, Y and all that follows |
| RegexForms.PlusThenOption | lib/libc_regex.c:478-487 | the program of `X+Y?` matches exactly the words of `X+Y` |
| RegexForms.OptionNotTaken | lib/libc_regex.c:478-487 | `c+d?` compiles, and its program has no match on `c` |
| RegexForms.LoopNeverMatches | lib/libc_regex.c:489-504 | a pattern whose words all pass a `*` or `{m,}`, at any depth, matches nothing in any text |
| RegexForms.StarNeverMatches | lib/libc_regex.c:489-504 | `a*` in the basic syntax compiles to such a program |
| RegexRepeats.OptionsWritten | lib/libc_regex.c:561-585 | what `{0,n}` writes is n optional copies of the item, and nothing else is changed, if and only if no earlier reference leads to its place and n is 1 or the item has no code |
| RegexRepeats.AtMostOnce | lib/libc_regex.c:561-585 | a byte, set or anchor under `{0,n}` is read at most once, for every n, 0 and above 1 included |
| RegexRepeats.HalfRead | lib/libc_regex.c:561-585 | for every word w of two or more letters and every n above 1 the program of `(?:w){0,n}` reads all of w followed by w without its last letter |
| RegexRepeats.LiteralRepetition | lib/libc_regex.c:561-585 | for every word w and every n the program of `(?:w){0,n}` has the usual language if and only if n is 1 |
| RegexRepeats.CapturedRepetition | lib/libc_regex.c:561-585 | for every word w and every n the program of `(w){0,n}` has the usual language if and only if n is 1 or 2 |
| RegexRepeats.HalfRepetition | lib/libc_regex.c:561-585 | `(?:cd){0,2}` compiles and matches the whole of `cdc`, which is no word of it |
| RegexForms.AlternationLanguage | lib/libc_regex.c:712-719 | a top-level alternation matches exactly its branches' words and the empty word |
| RegexForms.NegatedShorthand | lib/libc_regex.c:271-298 | an upper-case shorthand holds every byte, those of the lower-case one included |
| RegexForms.BranchMovesSlots | lib/libc_regex.c:73-80 | `(a)|b` compiles, has one group, and its slots do not fit the captures |
| RegexForms.OptionKeepsSlots | lib/libc_regex.c:73-80 | `(a)b?` compiles and its slots fit, although a SPLIT is put in |
| HeapList.AlignUp | lib/libc_stdlib.c:19 | rounding up to a multiple of four is right if and only if it does not wrap |
| HeapList.RequestFits | lib/libc_stdlib.c:21-41 | a new block has room for its header and the request if and only if the request is at most 2^32 - 16 |
| HeapList.OversizeRequest | lib/libc_stdlib.c:24-43 | above that, malloc asks for at most a header's room; it hands out a free block smaller than the request, or lays down one after which the list no longer tiles the arena |
| HeapList.MallocSound | lib/libc_stdlib.c:21-45 | one new live block of at least the requested size at the lowest fitting address; failure if and only if nothing fits and the tail is too short; tiling and no free neighbours kept |
| HeapList.WantedRounded | lib/libc_stdlib.c:19-24 | the payload asked for is the least positive multiple of four that holds the request |
| HeapList.MallocOutcome | lib/libc_stdlib.c:21-45 | malloc fails, and changes nothing, if and only if no free block holds the request and the rest of the 262144 bytes holds no header and request; else one new live block |
| HeapList.FreeSound | lib/libc_stdlib.c:47-62 | the pass removes exactly the freed block from the live ones, keeps the tiling and leaves no two free neighbours |
| HeapList.CanonicalList | lib/libc_stdlib.c:54-61 | the block list is determined by the live blocks and the end of the used arena |
| HeapList.FreeCommutes | lib/libc_stdlib.c:47-62 | freeing two blocks gives the same list in either order |
| HeapList.AllFreed | lib/libc_stdlib.c:54-61 | with nothing live, one free block spans the used arena |
| HeapList.NothingLost | lib/libc_stdlib.c:36-44 | headers and payloads add up to the used arena |
| HeapList.CallocAllowed | lib/libc_stdlib.c:65 | the quotient by the size, compared with the count, tells exactly the products that wrap |
| HeapList.CallocSound | lib/libc_stdlib.c:64-70 | calloc fails, and changes nothing, if and only if the product exceeds 2^32 - 1 or malloc would fail for it; else one new live block of at least the product |
| HeapList.ReallocOutcome | lib/libc_stdlib.c:72-86 | without a block malloc; for size 0 the block is given back; while it is large enough it stays; else a new live block of at least the size takes its place, unless the heap is full, when nothing changes |
| HeapList.OpSound | lib/libc_stdlib.c:21-86 | every allowed call keeps the invariant and every live block it was not given |
| HeapList.RunSound | lib/libc_stdlib.c:21-86 | the same over every run of calls, on the block list |
| HeapList.RunConserves | lib/libc_stdlib.c:21-86 | over every run from the empty heap nothing is lost, and freeing everything leaves one free block |
| Heap.PayloadWrite | lib/libc_stdlib.c:21-45 | a caller's store inside its block disturbs neither a header nor another payload |
| Heap.Heap.constructor | lib/libc_stdlib.c:11-17 | the empty heap |
| Heap.Heap.FirstFree | lib/libc_stdlib.c:25-31 | the walk stops at the first fitting block |
| Heap.Heap.Malloc | lib/libc_stdlib.c:21-45 | the new block list, the pointer, errno, and every live payload unchanged |
| Heap.Heap.NewBlock | lib/libc_stdlib.c:37-44 | a block laid down and linked behind the tail |
| Heap.Heap.Free | lib/libc_stdlib.c:47-62 | the new block list, and every remaining live payload unchanged; pointers outside the used arena are ignored |
| Heap.Heap.Coalesce | lib/libc_stdlib.c:54-61 | the in-place pass computes the merged list and keeps every live payload |
| Heap.Heap.Calloc | lib/libc_stdlib.c:64-70 | the block list and pointer of AfterCalloc (by value: HeapList.CallocSound), zeroed bytes of the whole product, errno on failure, and every live payload unchanged |
| Heap.Heap.Realloc | lib/libc_stdlib.c:72-86 | in place when large enough, otherwise moved with the old bytes as a prefix, otherwise untouched; other payloads unchanged |
| Heap.Heap.Run | lib/libc_stdlib.c:21-86 | over every allowed run of calls the bytes of a block that is not given back never change, and it stays live where it was |
| Calendar.DaysAreCounted | lib/libc_time.c:87-97 | the day number of the next date is one more, from 1 January 1970 on |
| Calendar.YearClosed | lib/libc_time.c:92-93 | the year loops' total, forward and backward, in closed form |
| Calendar.ClosedFormCounts | lib/libc_time.c:56-68 | for every day count, negative ones included, the closed form gives a valid date whose day number is that count |
| Calendar.DatesAreOrdered | lib/libc_time.c:87-97 | later dates have larger numbers, so the date is the only one |
| Calendar.CivilFromDays | lib/libc_time.c:56-68 | the formulas in the C code's arithmetic compute that date |
| Calendar.LocaltimeR | lib/libc_time.c:38-74 | a valid date, a time of day and the weekday that read the given time; EINVAL on null |
| Calendar.Mktime | lib/libc_time.c:87-102 | the counted seconds modulo 2^32 and the weekday, with no other field changed; a month of 12 and negative months as the loop takes them |
| Calendar.ThereAndBack | lib/libc_time.c:38-102 | mktime undoes localtime_r on every time, and both store the weekday of its day |
| Calendar.MonthsOutside | lib/libc_time.c:94-97 | mktime carries a month outside the year into the neighbouring years if and only if it is not below 0 |
| Calendar.BackAndForth | lib/libc_time.c:38-102 | localtime_r undoes mktime on every valid date and time of the range |
| Calendar.OneReading | lib/libc_time.c:38-102 | a count of seconds is the reading of one date and time of day |
| Calendar.WeekdayRotates | lib/libc_time.c:70-71 | weekdays follow each other, from a Thursday on |
| Calendar.YdayNeverFromJanuary | lib/libc_time.c:69 | the stored day of the year is never the one counted from 1 January |
| Stdio.Sink.OutChar | lib/libc_stdio.c:174-178 | one more character of the text; the buffer holds the prefix that fits and is untouched behind it |
| Stdio.Sink.OutMem | lib/libc_stdio.c:179-181 | the string is appended |
| Stdio.Sink.OutRepeat | lib/libc_stdio.c:182-184 | the repeated character is appended |
| Stdio.Sink.OutPadded | lib/libc_stdio.c:185-191 | the string padded to the width on the right side |
| Stdio.UtoaRev | lib/libc_stdio.c:192-200 | the reversed digits are the value's numeral, within 32 characters |
| Stdio.Sink.OutUintFmt | lib/libc_stdio.c:201-229 | the field of the number in both layouts |
| FormatLaws.FlagsRead | lib/libc_stdio.c:240-247 | a run of flags sets exactly the flags that occur in it |
| FormatLaws.NumberRead | lib/libc_stdio.c:253-256 | a run of decimal digits is read as its number and ends before the next character |
| FormatLaws.NumeralDecimal | lib/libc_stdio.c:253-256 | the decimal numeral of v is such a run, and its number is v |
| FormatLaws.DirectiveRead | lib/libc_stdio.c:238-276 | a directive written as flags, width, precision and length is read back as its spec, star arguments and their signs included |
| FormatLaws.DirectiveDivides | lib/libc_stdio.c:238-276 | every text behind a percent sign is such a directive and a rest |
| FormatLaws.NumberConverted | lib/libc_stdio.c:192-229 | each integer conversion by value: the argument in 32 or 64 bits, its sign and prefix, digits that write its magnitude in base and letter case without a leading zero, and the layout in width and precision |
| FormatLaws.FormatRendered | lib/libc_stdio.c:231-319 | a format of plain text and directives renders as its pieces in order, each conversion with the arguments that are next |
| FormatLaws.Unfinished | lib/libc_stdio.c:314-315 | a directive that ends the format prints a NUL |
| FormatLaws.PaddedInteger | lib/libc_stdio.c:253-255 | `%<w>d` prints an int right-adjusted in at least w characters |
| Stdio.ConvertedText | lib/libc_stdio.c:277-315 | strings, cut at the precision, and characters, padded to the width on the side the flag says; an unknown character stands for itself |
| Stdio.BufferHolds | lib/libc_stdio.c:174-178 | a buffer of the size holds as much of the text as leaves room for a NUL, the NUL, and its old bytes behind that |
| Stdio.ReadDirective | lib/libc_stdio.c:238-276 | flags, width, precision, length and consumed arguments, as DirectiveAt has them (by value: FormatLaws.DirectiveRead) |
| Stdio.Convert | lib/libc_stdio.c:272-315 | the text of one conversion and the argument it takes |
| Stdio.Vsnprintf | lib/libc_stdio.c:231-319 | the count is the length of the unbounded text whatever the size (by value: FormatLaws.FormatRendered); the buffer holds its first size - 1 characters, a NUL, and its old bytes behind that |
| Stdio.Sprintf | lib/libc_stdio.c:322 | the whole text and a NUL, in any buffer that holds them |
| Stdio.Vasprintf | lib/libc_stdio.c:501-512 | the two passes agree: the string is the whole text |
| ScanLaws.SixSpaces | lib/libc_stdio.c:336-339 | the space characters are 32 and 9 to 13 |
| ScanLaws.DigitKnown | lib/libc_stdio.c:323-328 | a digit's value is its place among the sixteen, in either case, and nothing else has one |
| ScanLaws.DigitsTaken | lib/libc_stdio.c:355-361 | the smaller of the field width and the length of the run is taken, and no more, with the value of exactly those digits modulo 2^64 |
| ScanLaws.IntegerRead | lib/libc_stdio.c:330-366 | one conversion on a text of blanks, signs, prefix, digits and a rest: nothing without a digit, else the value of the digits the width lets through, negated behind a minus, modulo 2^64, ending behind them |
| ScanLaws.TextDivides | lib/libc_stdio.c:330-366 | every text has such parts, for every conversion and width |
| ScanLaws.NumeralWithWidth | lib/libc_stdio.c:355-361 | a numeral with any text behind it, scanned with its length as width, gives its value and ends behind it |
| ScanLaws.NumeralCut | lib/libc_stdio.c:355-361 | a width below the length of a numeral of v gives v divided by the power of ten of what is left |
| ScanLaws.TwoOfFour | lib/libc_stdio.c:355-361 | `%2d` on `1234` reads 12 and stops before the 34 |
| ScanLaws.StoredValue | lib/libc_stdio.c:475-487 | what is stored lies in the range of its type and differs by a multiple of two to its width |
| Scan.ScanUnsigned | lib/libc_stdio.c:330-366 | spaces, sign, base prefix and digits modulo 2^64, failure without a digit, as UnsignedAt has them (by value: ScanLaws.UnsignedRun) |
| Scan.ScanInteger | lib/libc_stdio.c:459-474 | one integer conversion with its sign, as IntegerAt has it (by value: ScanLaws.IntegerRead) |
| RoundTrip.NumeralScanned | lib/libc_stdio.c:353-361 | scanning a numeral in its base yields the value |
| RoundTrip.UnsignedBack | lib/libc_stdio.c:295-307 | an unsigned field of any flags, width and precision is read back, unless it is zero with precision zero |
| RoundTrip.SignedBack | lib/libc_stdio.c:287-294 | the same for a signed field, the least 64-bit value included |
| RoundTrip.PrintThenScan | lib/libc_stdio.c:287-307 | for %d, %u, %x, %X and %o at every length: scanning succeeds if and only if a digit was printed, and then stores the printed value |
| RoundTrip.PrintAndScan | lib/libc_stdio.c:231-320 | printing an integer with a one-directive format into a buffer and scanning that buffer stores the integer again, unless it is a zero with precision zero |
| DivMod.Udivmoddi4 | lib/compiler_rt_divmod.c:9-44 | a = q*b + r with r < b for all 64-bit operands, no bit lost in the alignment; zeros for b = 0 |
| DivMod.DivisionUnique | lib/compiler_rt_divmod.c:9-44 | such a pair is unique |
| DivMod.Udivdi3 | lib/compiler_rt_divmod.c:46-48 | the quotient |
| DivMod.Umoddi3 | lib/compiler_rt_divmod.c:50-54 | the remainder |
| DivMod.Divdi3 | lib/compiler_rt_divmod.c:56-68 | the quotient truncated toward zero, wrapped to 64 bits |
| DivMod.Moddi3 | lib/compiler_rt_divmod.c:70-80 | the remainder with the dividend's sign |
| DivMod.TruncatesOnce | lib/compiler_rt_divmod.c:56-80 | truncating division has one quotient and one remainder |
| DivMod.TruncatedQuotient | lib/compiler_rt_divmod.c:56-68 | there is one, and it fits if and only if it is not the least value divided by -1 |
| DivMod.Muldi3 | lib/compiler_rt_divmod.c:142-151 | the product modulo 2^64 |

## Left out

- NaN payloads and the quiet bit: only whether a result is a NaN is stated.
- SoftFloatArith.DfNormPack128: a leading bit at 116 is excluded, where the code would shift by -1; every caller in the library stays below or above it. With a sticky tail it is stated for windows of at least 54 bits, as its callers pass them.
- SoftFloatConvert.DfFromMag: magnitudes above 2^53, which would shift by a negative amount; callers pass 32-bit values.
- SoftFloatArith.DfNormPack: significands below 2^52 with guard or sticky set, which no caller passes.
- Bit operations are defined digit by digit on mathematical integers; shifts by the width of the type or more are undefined in C and do not occur.
- RegexExec.RegExec: expects stamps that are none of the generations 1 to |text| + 1 and SAVE slots inside the captures; the C code takes its stamps from malloc without clearing them, and where its slots leave the captures (RegexForms.BranchMovesSlots) it writes past them.
- RegexLaws.ReportedWord: of the reported captures only those of the whole match are given a meaning for every pattern; the captures of groups are the last ones saved on the path found (RegexPriority.ReportedSlot), RegexSlots says when their slots are in place, and RegexGroups.GroupReports what they delimit for one form.
- RegexReported.RepeatReports: the reported end of repetitions of items longer than a byte, and of `{0,n}`.
- RegexRefused.FaultyBracket and its neighbours: errors inside a group or behind a bar.
- RegexMarks.CompiledSlots: patterns that copy a group; RegexSlots.CopiedSlots says what one copy does to the slots.
- RegexUsual.TameWords and RegexUsual.UsualLanguage: the usual language used here lets an alternation read the empty word, as its code does, so it is not that of POSIX for patterns with `|`.
- Allocation failure inside regcomp and regexec, regerror, regfree, C recursion depth, and the int width of program indices.
- Heap.Heap.Malloc: requests above 2^32 - 16 bytes are excluded from the in-place model, because the wrapped block would be written past the arena; HeapList.OversizeRequest says what becomes of them. The same bound holds for calloc and realloc.
- Heap.Heap.Free and Heap.Heap.Realloc: pointers that malloc did not return, other than those free ignores.
- The byte order of header words and the arena's address are assumptions of the heap model; padding inside headers is not used.
- Calendar.Mktime: months above 12, which index past the table, and int overflow of the year.
- strftime, ctime, strptime, the clocks and every system call.
- Stdio.Vsnprintf: a text longer than the buffer when the stated size exceeds the buffer; widths, precisions and counts are unbounded integers; an argument is read as the type its conversion asks for. The write to descriptor -1 of a pass without buffer is omitted.
- Scan.ScanInteger: one integer conversion; the format loop of sscanf and its %c, %s and %n conversions are omitted, and `%i`, which reads a zero-padded field as octal.
- The shift helpers, of which __ashrdi3 shifts a 32-bit value by 32, qsort, bsearch, string primitives, getopt, inet_aton, strtod and file I/O.
- lib/libc_compat.c, an older duplicate that is not linked.
