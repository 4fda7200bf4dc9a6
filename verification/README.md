# Verified models of the libraries inside the browser's QuickJS

The browser in this repository embeds QuickJS. This project models the parts of it that do real work with hard
invariants, and proves what each is for:

* **The regular-expression engine** (`libregexp.c`): compiler, byte code, backtracking machine, captures, undo log.
* **Exact number conversion** (`dtoa.c`): limb arithmetic, division by a reciprocal, correct rounding, the table of
  logarithms, and the search for digits that read back, from the bits of any finite double (`DoubleDigits.FreeFormatDigits`).
* **Unicode sets, tables and normal forms** (`libunicode.c`).
* **The hybrid sort and the UTF-8 codec** (`cutils.c`).
* **The worker message pipe** (`quickjs-libc.c`, `list.h`): mutex, queue, wake-up byte and reference counts under every
  interleaving.

`dafny verify dfyconfig.toml` checks everything. Code that updates state in place is modelled by classes, arrays and
loops, proved against specification functions; theorems are lemmas about those functions.

## How the regular-expression proof is built

1. `RegexSyntax` has the patterns, `EcmaContinuation` the matchers of section 22.2.2 of ECMA-262 with their
   continuations, on the character tests of `EcmaCharacters`, and `EcmaMatcher` the same as finite lists of outcomes in order of priority (`EcmaContinuation.Agrees`
   proves the two equal, for every continuation).
2. `Bytecode` and `Emit` have the instruction set, its byte encoding and the code of every pattern as a function.
   `Compiler` is the one-pass compiler as the program writes it: append, open a gap, swap terms, patch jumps, scan registers.
   Its methods leave exactly the bytes of `Emit`.
3. `SnapshotVm` is the machine with a copied state in every choice point. `Simulation.Simulate` shows that the code of a
   pattern delivers the outcomes of `SlotMatcher`, one for every time it is asked to backtrack, and then backtracks further.
4. `UndoLog` and `BacktrackVm` are the real machine: one stack of choice points and undo pairs. It refines step 3.
5. `CaptureReset` removes the difference between clearing captures on every pass, as the standard does, and clearing
   them only where the compiler decides to. `Engine` puts everything together, for every pattern, subject and start.
6. `CaseMatch` ties classes that ignore case to the sets they were parsed from; `StringClass` and `StringMatch` add classes
   that contain strings; `Utf16Cursor` shows that cursor moves over surrogate pairs are moves by one character.

## How the number proof is built

`Limbs`, `Reciprocal` and `BigNumber` are the limb arithmetic in place; `Rounding` and `PowerScaling` show that scaling limb by
limb with a sticky bit loses nothing, and `RoundDouble` that the result is the correct rounding. `DoubleRounding` says what that
means in the format alone. `RadixLog` proves the exponent estimate from intervals for the logarithms of the primes up to 31.
`FreeFormat` is the search, `DoubleDigits` the whole path from the bits of a double to its digits.

## What the proofs found

* A counted loop takes the upper bound INT32_MAX, which stands for no bound, as that number. `CountLimit.FillerAgreesIff` is an
  exact family: `(?:|a){min,}` on `len` letters is right if and only if `min + len` does not exceed INT32_MAX.
  `CaptureReset.RunMatchIsMatch` states the condition (`Fits`) for all patterns; `Simulation.Simulate` needs none.
* `mp_div1norm` with a shift reads its input after shifting into its output, so it divides correctly in place (as it is
  called) and not between two arrays (`Reciprocal.ShiftNeedsSameArray`).
* `compose_pair` treats U+11A7 as a trailing consonant and drops it after a syllable LV. Section 3.12 of the Unicode
  Standard starts after it. `Normalization.CompositionLossless`: composing loses nothing if and only if the decomposed text
  has no U+11A7 right after a leading and a vowel jamo. Forms C and KC are idempotent all the same.
* In a lookbehind a class with strings is read forward between two single steps back. `StringMatch.BackwardOnlySingle`: that is
  right for a member if and only if it is one character, and no string in such a class is.

## Model

| member | source | states |
|---|---|---|
| Engine.CompileAndMatch | source/quickjs/libregexp.c:2522-2606 | End to end: a pattern is accepted exactly within the limits, and matching then reports match or no match, end and every capture as ECMA-262 prescribes, if no counted loop can run out of its INT32_MAX passes; with no condition, the answer of the compiled semantics |
| Engine.LreExec | source/quickjs/libregexp.c:3326-3364 | On any compiled pattern the run ends, and the capture array holds the answer |
| Engine.LreExecBuffer | source/quickjs/libregexp.c:3326-3364 | The same on a buffer of 8-bit, 16-bit or UTF-16 units: the start moves out of a surrogate pair, and the answer is that for the characters of the buffer |
| Engine.CompiledIsLoaded | source/quickjs/libregexp.c:2586-2604 | What the compiler returns is what the machine needs: code, register and capture counts |
| ProgramRun.RunProgram | source/quickjs/libregexp.c:2560-2584 | The search prefix tries each start in turn; the program stops with the first attempt that has an outcome |
| ProgramRun.MachineExecIsRegExpExec | source/quickjs/libregexp.c:2258-2358 | The compiled search and the search of the standard find the same index, end and captures |
| Simulation.Simulate | source/quickjs/libregexp.c:2839-3320 | Running the code of any pattern delivers exactly its outcomes, in order of priority, one per backtrack, keeps the registers around it, and then backtracks into what was there before |
| Simulation.SimulateLook | source/quickjs/libregexp.c:2874-2925 | A lookaround keeps the captures of the first outcome of its body, restores the position and leaves no choice point |
| Simulation.SimulateAlt | source/quickjs/libregexp.c:2406-2440 | The code of an alternation delivers the outcomes of the left side, then of the right |
| Simulation.MovesPosition | source/quickjs/libregexp.c:1557-1628 | An atom judged to need no advance check moves the position on every outcome, the fact that makes loops end |
| Simulation.SimulateCounter | source/quickjs/libregexp.c:3055-3137 | Counted loops with and without advance check: forced passes, then optional ones, an empty pass past the minimum rejected |
| Yields.DeliverAppend | source/quickjs/libregexp.c:2852-2871 | Outcomes above a choice point come before those that backtracking into it gives |
| SnapshotVm.StepInside | source/quickjs/libregexp.c:2839-3320 | No instruction moves a cursor or a saved cursor past the end of the subject |
| CaptureReset.RunMatchIsMatch | source/quickjs/libregexp.c:2285-2301 | Clearing captures only where the compiler decides gives the captures that RepeatMatcher gives by clearing on each pass |
| CaptureReset.BackRefAgrees | source/quickjs/libregexp.c:3172-3228 | The comparison loops decide what BackreferenceMatcher asks, both directions, first defined group of a name |
| CountLimit.FillerAgreesIff | source/quickjs/libregexp.c:3061-3126 | Exact condition for a counted loop to agree with the standard |
| UndoLog.PopRestores | source/quickjs/libregexp.c:2852-2871 | Undoing the log restores the captures and registers of the newest choice point exactly |
| UndoLog.SaveKeepsFrames | source/quickjs/libregexp.c:2805-2812 | A logged write is invisible to every saved state |
| UndoLog.SkipKeepsFrames | source/quickjs/libregexp.c:2815-2833 | A slot logged since the last choice point needs no second entry |
| UndoLog.CompactionKeepsFrames | source/quickjs/libregexp.c:2874-2906 | Removing the inner choice points after a lookahead and sliding the undo pairs down keeps every saved state below it |
| BacktrackVm.REExecContext.SaveCaptureCheck | source/quickjs/libregexp.c:2815-2833 | In place: writes the slot, keeps all saved states, with or without a new entry |
| BacktrackVm.REExecContext.PopState | source/quickjs/libregexp.c:2852-2871 | In place: undo, drop the header, resume in the saved state |
| BacktrackVm.REExecContext.LookaheadMatch | source/quickjs/libregexp.c:2874-2906 | In place: the stack after compaction stands for the states below the lookahead, with the captures kept |
| BacktrackVm.REExecContext.CheckStackSpace | source/quickjs/libregexp.c:2750-2771 | Growing the stack keeps its contents and makes the room asked for |
| BacktrackVm.REExecContext.RunInstruction | source/quickjs/libregexp.c:2839-3320 | One turn of the loop is one step of the snapshot machine |
| BacktrackVm.REExecContext.LreExecBacktrack | source/quickjs/libregexp.c:2774-3321 | The loop ends with the final configuration of the snapshot machine |
| BacktrackVm.InRanges | source/quickjs/libregexp.c:3229-3307 | The unsigned binary search decides membership in the range table without index wrap |
| ClassMatch.EmitClassCorrect | source/quickjs/libregexp.c:1225-1259 | Encoding a canonical set as ranges and testing with the machine accepts exactly its members |
| ClassMatch.Range16Correct | source/quickjs/libregexp.c:1241-1250 | In the 16-bit form 0xffff means unbounded only where the set is |
| ClassMatch.RangeSearchCorrect | source/quickjs/libregexp.c:3229-3307 | On sorted ranges the guarded search is membership |
| Bytecode.FetchEncoded | source/quickjs/libregexp.c:616-671 | Every encoded instruction is fetched back, wherever it stands |
| Bytecode.EncodedHasCode | source/quickjs/libregexp.c:616-671 | A whole encoded program is read back instruction by instruction |
| Compiler.REParseState.DbufInsert | source/quickjs/libregexp.c:123-130 | Opens a gap; what stands before and after it is kept |
| Compiler.REParseState.ParseTerm | source/quickjs/libregexp.c:1845-2369 | Succeeds exactly within the limits, and then has appended the code of the term |
| Compiler.REParseState.EmitQuantifier | source/quickjs/libregexp.c:2258-2358 | The six shapes of quantifier code, built by inserting in front of the finished atom |
| Compiler.REParseState.ParseAlternative | source/quickjs/libregexp.c:2372-2404 | Terms in order; backward, each new one moved in front of the others |
| Compiler.REParseState.ParseDisjunction | source/quickjs/libregexp.c:2406-2440 | Inserted splits and patched jumps give the code of the alternation |
| Compiler.REParseState.EmitRange | source/quickjs/libregexp.c:1225-1259 | Fails exactly for 65535 or more ranges; else appends the range instruction of the set |
| Compiler.REParseState.ComputeRegisterCount | source/quickjs/libregexp.c:2444-2519 | The linear scan numbers the registers as the pattern nests, and fails exactly above the limit |
| Compiler.REParseState.LreCompile | source/quickjs/libregexp.c:2522-2606 | Ok if and only if the pattern is within the limits, and then header and code are the image of the pattern |
| Compiler.FlagBits | source/quickjs/libregexp.h:30-38 | The nine flags are bits 0 to 8 of the word: it is below 512 and each flag is its own bit |
| Compiler.FlagsInHeader | source/quickjs/libregexp.c:2533-2549 | Images under flags that agree in sticky differ in the two flag bytes of the header only |
| EcmaCharacters.SameTests | source/quickjs/libregexp.c:2616-2619 | The tests of the machine on line terminators, word characters and sets are those of the standard, written with their code points |
| EcmaCharacters.SamePositions | source/quickjs/libregexp.c:2985-3171 | So are its start, end and word boundary tests on every position |
| RegisterScan.CodeAlloc | source/quickjs/libregexp.c:2444-2505 | The scan gives each quantifier registers disjoint from those around it, pairs every loop and check with its own setter, never underflows and ends where it began |
| RegisterScan.ProgramAlloc | source/quickjs/libregexp.c:2444-2519 | A program starts and ends with no register in use |
| CodeBounds.CodeWithin | source/quickjs/libregexp.c:2258-2440 | No jump leaves its own term, and all operands fit |
| CodeScan.NeedCheckAdvAndCaptureInit | source/quickjs/libregexp.c:1557-1628 | The pass over byte code computes the two flags of its instruction list |
| CodeScan.CodeEffect | source/quickjs/libregexp.c:1557-1628 | On the code of a pattern the flags are what its structure says |
| LoopLayout.LoopCodeLayout | source/quickjs/libregexp.c:2258-2358 | Where the setter, atom, check and jump of each quantifier shape stand |
| StringClass.ReEmitStringList | source/quickjs/libregexp.c:1276-1352 | Like every term it appends the code of a pattern, here of the members as alternatives, the longest first; sorting, chaining of unresolved jumps through their operands and patching included |
| StringClass.PatchStep | source/quickjs/libregexp.c:1342-1347 | One patch reads the next link, and resolves one jump without touching the others |
| StringClass.ListCode | source/quickjs/libregexp.c:1306-1340 | These bytes are the code of the alternation of the members |
| StringMatch.LongestMemberFirst | source/quickjs/libregexp.c:1282-1304 | Forward, exactly the members that stand at the position are delivered, never a longer one after a shorter one |
| StringMatch.BackwardRuns | source/quickjs/libregexp.c:2148-2156 | What the machine does with a string member in a lookbehind |
| StringMatch.BackwardOnlySingle | source/quickjs/libregexp.c:2148-2156 | That is what the standard asks if and only if the member is one character |
| Utf16Cursor.GetChar | source/quickjs/libregexp.c:2621-2636 | Reads the character at the cursor and stops behind it |
| Utf16Cursor.GetPrevChar | source/quickjs/libregexp.c:2670-2686 | Reads the character before the cursor and stops in front of it |
| Utf16Cursor.StartCursor | source/quickjs/libregexp.c:3351-3357 | A start inside a surrogate pair moves to its first half |
| Utf16Cursor.ReadsForward | source/quickjs/libregexp.c:2621-2636 | At boundary i this is character i of the subject, and the next boundary is i + 1 |
| Utf16Cursor.ReadsBackward | source/quickjs/libregexp.c:2654-2702 | At boundary i > 0 going back gives character i - 1 and boundary i - 1 |
| Utf16Cursor.OffsetOrder | source/quickjs/libregexp.c:2621-2702 | Comparing cursors, also with the ends of the buffer, compares indices |
| Utf16Cursor.StartIsBoundary | source/quickjs/libregexp.c:3351-3357 | Every start becomes the greatest boundary not above it |
| Utf16Cursor.CharsRoundTrip | source/quickjs/cutils.h:340-363 | The characters read from a buffer encode back to exactly its units |
| Limbs.MpAddUi | source/quickjs/dtoa.c:75-90 | In place: value plus b, carry returned |
| Limbs.MpMul1 | source/quickjs/dtoa.c:92-105 | Value times b plus l, carry returned |
| Limbs.MpDiv1 | source/quickjs/dtoa.c:137-150 | Quotient in place, remainder returned |
| Limbs.MpShr | source/quickjs/dtoa.c:152-168 | Shift right with bits coming in at the top |
| Limbs.MpShl | source/quickjs/dtoa.c:170-184 | Shift left with bits coming in at the bottom |
| Reciprocal.InitIs | source/quickjs/dtoa.c:107-115 | The reciprocal is floor((B^2 - 1) / d) - B |
| Reciprocal.Udiv1norm | source/quickjs/dtoa.c:117-135 | Exact quotient and remainder for every d >= 2^31 and a1 < d |
| Reciprocal.MpDiv1norm | source/quickjs/dtoa.c:186-199 | Divides a limb array like long division, unshifted between any two arrays and shifted in place; quotient and remainder of the remaining case are stated as they are |
| Reciprocal.ShiftNeedsSameArray | source/quickjs/dtoa.c:186-199 | Two calls on the smallest failing input: in place the quotient is right, into another array it is 0 |
| Rounding.StickyRounds | source/quickjs/dtoa.c:338-398 | With two bits to spare, rounding the truncated quotient with its sticky bit rounds the exact quotient, in every mode |
| Rounding.RoundedIsNearest | source/quickjs/dtoa.c:338-398 | Nearest-even rounding: no integer is closer, and of two as close the even one is taken |
| Rounding.NoneCloser | source/quickjs/dtoa.c:338-398 | In both nearest modes no integer is closer |
| Rounding.NoneBetween | source/quickjs/dtoa.c:338-398 | Towards zero: the greatest integer not above |
| BigNumber.Mpb.ShiftDown | source/quickjs/dtoa.c:338-398 | In place: divide by 2^shift and round in the mode asked for |
| BigNumber.Mpb.ShiftUp | source/quickjs/dtoa.c:313-337 | In place: multiply by 2^shift |
| BigNumber.Mpb.GetBit | source/quickjs/dtoa.c:300-310 | Bit k of the value, also outside the buffer |
| BigNumber.Mpb.GetU64 | source/quickjs/dtoa.c:434-446 | The value modulo 2^64 |
| BigNumber.Mpb.Renorm | source/quickjs/dtoa.c:214-219 | Drops zero limbs at the top, keeps the value |
| PowerScaling.PowUi | source/quickjs/dtoa.c:242-269 | Square and multiply, with its tables, is the power |
| PowerScaling.PowUiInv | source/quickjs/dtoa.c:271-298 | The power shifted to fill a limb, the shift, and the reciprocal |
| PowerScaling.FloorLog2 | source/quickjs/dtoa.c:448-459 | The position of the top bit |
| PowerScaling.MulPow | source/quickjs/dtoa.c:893-957 | Successive limb multiplications or truncating divisions equal one scaling; the or-ed remainder is its sticky bit |
| RoundDouble.MulPowRound | source/quickjs/dtoa.c:959-967 | round(m * 2^e * radix^f) exactly, every mode, either sign of f |
| RoundDouble.RoundToD | source/quickjs/dtoa.c:970-1003 | Rounds an exact or sticky buffer to a double in every mode, also subnormal and underflowing |
| RoundDouble.MulPowRoundToD | source/quickjs/dtoa.c:1006-1013 | a * radix^f rounded to a double exactly |
| RoundDouble.RoundsToUnique | source/quickjs/dtoa.c:970-1013 | A number rounds to one double only |
| DoubleRounding.RoundsToDouble | source/quickjs/dtoa.c:970-1003 | What rounding means in the format alone (53 bits, unit 2^-1074): the result is a double; in the nearest modes no double is closer; towards zero it is the greatest one not above |
| DoubleRounding.DoubleIsExact | source/quickjs/dtoa.c:970-1003 | Every double, subnormal ones included, rounds to itself in every mode |
| DoubleRounding.NormalRoundsToItself | source/quickjs/dtoa.c:981-994 | A normal double rounds to its own mantissa and exponent in every mode |
| RadixLog.MulLog2RadixIs | source/quickjs/dtoa.c:473-488 | mul_log2_radix is floor(a / log2(radix)) for every radix and every a from -2048 to 2047: radix^q <= 2^a < radix^(q+1) |
| RadixLog.Neighbours | source/quickjs/dtoa.c:460-471 | Why 24 bits of the table are enough: no fraction with a denominator up to 2048 lies between two neighbours around entry and logarithm |
| FreeFormat.FirstReadsBack | source/quickjs/dtoa.c:1184-1219 | The first candidate, accepted untested, reads back, for normal and subnormal doubles: with the maximal digits one unit is below half a step, and in radix 2 it is exact |
| FreeFormat.MaxDigitsLeast | source/quickjs/dtoa.c:722-725 | The table has the least p with radix^(p-1) >= 2^53 |
| FreeFormat.Mantissa | source/quickjs/dtoa.c:1196-1207 | The double correctly rounded to P digits at the exponent tried first, or at the next one when those do not fit |
| FreeFormat.CandidateBounds | source/quickjs/dtoa.c:1180-1207 | That candidate is positive, has at most P digits and is within half a unit of the double |
| FreeFormat.DigitsNearest | source/quickjs/dtoa.c:1202-1203 | No other digits at its exponent are closer, and of two as close it is the even one |
| FreeFormat.ZeroDropped | source/quickjs/dtoa.c:1208-1212 | Without a zero at the end, a candidate is the candidate of one digit less, and reads back if and only if that does |
| FreeFormat.FreeDigits | source/quickjs/dtoa.c:1184-1238 | The digits are the double rounded to p digits, without trailing zero; the candidates of p digits up to the maximum all read back, and the one of p - 1 digits does not |
| FreeFormat.BufferSuffices | source/quickjs/dtoa.c:64-64 | 52 limbs are enough for both conversions of every step, for all finite doubles and radices 2 to 36 |
| DoubleDigits.UnpackIs | source/quickjs/dtoa.c:1121-1165 | Mantissa and exponent taken from the word, subnormal numbers normalized, are the number the word stands for |
| DoubleDigits.WordFields | source/quickjs/dtoa.c:1123-1126 | Where the word has its exponent and fraction |
| DoubleDigits.FreeFormatDigits | source/quickjs/dtoa.c:1108-1238 | For every finite double that is not zero and every radix, with no further condition: no other double is closer to the digits, and they satisfy the stop rule of the search |
| DigitCodec.OutputDigits | source/quickjs/dtoa.c:847-889 | Writes the radix digits of the value modulo radix^n, by shifts or by division |
| DigitCodec.ReadDigits | source/quickjs/dtoa.c:1475-1496 | Accumulating limb by limb gives the number the digits stand for |
| DigitCodec.MulBase | source/quickjs/dtoa.c:1333-1351 | In place: value times base plus digit, base 0 meaning 2^32 |
| DigitCodec.DigitsRoundTrip | source/quickjs/dtoa.c:847-889 | Reading back n written digits gives the number modulo radix^n |
| DigitCodec.DigitValues | source/quickjs/dtoa.c:1320-1331 | The value of every character: digits, letters of both cases, 36 for all others |
| CharSets.CharRange.CrOp | source/quickjs/libunicode.c:462-515 | Strictly increasing, even, and denotes the union, intersection, difference or xor |
| CharSets.CharRange.CrCompress | source/quickjs/libunicode.c:433-459 | In place: same set, no empty and no adjacent intervals |
| CharSets.CharRange.CrInvert | source/quickjs/libunicode.c:529-541 | The complement in [0, 2^32 - 1) |
| CharSets.CanonicalUnique | source/quickjs/libunicode.c:433-459 | A canonical list is determined by its set |
| CharSets.InvertInvolution | source/quickjs/libunicode.c:529-541 | Complementing twice gives a canonical set back |
| CaseTables.LreCanonicalize | source/quickjs/libunicode.c:227-260 | The binary search finds the run of a character, if there is one |
| CaseTables.OutsideMaskFixed | source/quickjs/libunicode.c:552-612 | Characters outside the unicode_case1 mask are fixed |
| CaseTables.EntryIsCanonical | source/quickjs/libunicode.c:192-224 | Folding with the entry of a character is its canonical form, also for ASCII |
| CaseTables.AsciiForms | source/quickjs/libunicode.c:236-239 | On ASCII: letters go to upper case, under the Unicode flag to lower case; every other character is fixed |
| CaseTables.PairForms | source/quickjs/libunicode.c:77-82 | Both members of an upper-lower pair have one form, the upper one, under the Unicode flag the lower one |
| CaseTables.TripleForms | source/quickjs/libunicode.c:83-90 | All three members of a triple have one form |
| CaseTables.OffsetForms | source/quickjs/libunicode.c:68-76 | In a run with an offset the k-th character has the k-th form |
| CaseTables.SingleForms | source/quickjs/libunicode.c:99-113 | The form given by the data of a run for each of its characters |
| CaseTables.LongForms | source/quickjs/libunicode.c:192-224 | Characters with several folded characters are fixed, except U+FB06, U+1FD3 and U+1FE3 |
| CaseClosure.UnicodeCase1 | source/quickjs/libunicode.c:552-612 | The mask holds exactly the characters some masked run contains |
| CaseClosure.SortAndRemoveOverlap | source/quickjs/libunicode.c:622-656 | Canonical, and the union of the given intervals |
| CaseClosure.AdvanceTo | source/quickjs/libunicode.c:694-703 | The one-pass index never misses the run of a masked character and never leaves the table |
| CaseClosure.CrRegexpCanonicalize | source/quickjs/libunicode.c:660-742 | Replaces a set by exactly its image under lre_canonicalize |
| CaseMatch.AcceptsImage | source/quickjs/libregexp.c:3229-3307 | A character is accepted by the canonicalised class if and only if some member of the parsed class has the same canonical form |
| TableLookup.UnicodeProp1 | source/quickjs/libunicode.c:1458-1503 | Appends the boundaries of the present runs |
| TableLookup.IndexLayout | source/quickjs/libunicode.c:263-266 | The three bytes of an index entry: 21 bits of code, 3 bits of offset, low byte first |
| TableLookup.GetIndexPos | source/quickjs/libunicode.c:271-301 | A byte boundary at or before c where a scan may start, or none when c is beyond the table |
| TableLookup.LreIsInTable | source/quickjs/libunicode.c:304-345 | True exactly for the members of the table, for every valid index |
| TableLookup.LookupRefinesDecoder | source/quickjs/libunicode.c:271-345 | Lookup and linear decoding describe the same set, which is canonical |
| Normalization.SortCc | source/quickjs/libunicode.c:1091-1125 | In place: starters stay, each run of marks is stably sorted; the result is the canonical ordering |
| Normalization.OrderedUnique | source/quickjs/libunicode.c:1091-1125 | A text has only one ordered reordering |
| Normalization.ExchangeInvariant | source/quickjs/libunicode.c:1091-1125 | Exchanging neighbouring marks of different classes does not change the ordered text |
| Normalization.FindStarter | source/quickjs/libunicode.c:1211-1225 | The backward search with its early exit decides blocking as definition D115 does |
| Normalization.ComposeLoop | source/quickjs/libunicode.c:1207-1241 | In place: canonical composition, exactly the unblocked pairs, and the text stays ordered |
| Normalization.ToNfdRec | source/quickjs/libunicode.c:1127-1153 | Appends the full decomposition |
| Normalization.UnicodeNormalize | source/quickjs/libunicode.c:1171-1241 | Computes the normal form asked for, Latin-1 shortcut included |
| Normalization.Latin1Unaffected | source/quickjs/libunicode.c:1184-1194 | Decomposing, ordering and composing a Latin-1 text gives it back |
| Normalization.DecomposedFormIdempotent | source/quickjs/libunicode.c:1127-1153 | Forms D and KD are idempotent |
| Normalization.EquivalentSameForm | source/quickjs/libunicode.c:1171-1241 | Canonically equivalent texts have the same forms |
| Normalization.JamosCompose | source/quickjs/libunicode.c:1134-1141 | Composing the jamo of a Hangul syllable gives the syllable back |
| Normalization.PairDeparts | source/quickjs/libunicode.c:1156-1169 | compose_pair is the pair table of the standard except on LV and U+11A7 |
| Normalization.CompositionLossless | source/quickjs/libunicode.c:1156-1241 | Decomposing a composed form gives the decomposed form if and only if that has no U+11A7 right after a leading and a vowel jamo |
| Normalization.DropsAtTriples | source/quickjs/libunicode.c:1162-1165 | The composition loop drops a character exactly at such places |
| Normalization.ComposesAcross | source/quickjs/libunicode.c:1211-1230 | The next character composes with the last starter across marks of smaller classes, which stay |
| Normalization.AppendsOtherwise | source/quickjs/libunicode.c:1211-1236 | It is appended when there is no starter, a mark of no smaller class between, or no composite |
| Normalization.ComposedIsComplete | source/quickjs/libunicode.c:1207-1241 | When pairs decompose in canonical order, no composed text holds a starter and a later unblocked character that have a composite |
| Normalization.ComposedFormComplete | source/quickjs/libunicode.c:1171-1241 | The same for forms C and KC of every text |
| Normalization.UnlistedUnchanged | source/quickjs/libunicode.c:1171-1241 | Text of characters that no table lists, Hangul aside, is its own normal form, in all four forms |
| Normalization.ComposedFormIdempotent | source/quickjs/libunicode.c:1171-1241 | Forms C and KC are idempotent, for every text |
| Normalization.SwallowsTrailingBase | source/quickjs/libunicode.c:1156-1169 | Form C of U+AC00 U+11A7 is U+AC00 |
| RqSort.Sorter.RqSort | source/quickjs/cutils.c:522-639 | A sorted permutation for every total preorder; ends; the 50 stack entries suffice |
| RqSort.Sorter.HeapSort | source/quickjs/cutils.c:480-512 | Sorts a segment in place |
| RqSort.Sorter.Partition | source/quickjs/cutils.c:553-614 | Less, equal, greater than a pivot, a permutation, the equal part not empty |
| RqSort.SplitSegment | source/quickjs/cutils.c:616-631 | After a partition the two smaller segments are all that is left to order |
| Utf8.UnicodeToUtf8 | source/quickjs/cutils.c:216-249 | Writes the encoding of c, touches nothing behind it; 0 from 2^31 on |
| Utf8.UnicodeFromUtf8 | source/quickjs/cutils.c:261-314 | The code whose encoding begins the bytes, with its length; -1 if and only if there is none |
| Utf8.PrefixFree | source/quickjs/cutils.c:216-249 | No encoding is the beginning of another |
| Utf8.DecodeInvertsEncode | source/quickjs/cutils.c:216-314 | Decoding an encoding gives the code back and consumes exactly its bytes |
| LinkedList.ListAddTail | source/quickjs/list.h:64-68 | The ring holds the element at its end, all neighbours linked both ways |
| LinkedList.ListAdd | source/quickjs/list.h:58-62 | The ring holds the element at its front |
| LinkedList.ListDel | source/quickjs/list.h:69-78 | The ring without the element, the order of the others kept |
| LinkedList.RingInsert | source/quickjs/list.h:48-56 | Linking between two neighbours inserts there, also when they are one node |
| LinkedList.RingDelete | source/quickjs/list.h:69-78 | Joining the neighbours of an element removes it |
| MessagePipe.JSWorkerMessagePipe.Post | source/quickjs/quickjs-libc.c:3837-3843 | The critical section appends the message and keeps one wake-up byte for a queue that is not empty |
| MessagePipe.JSWorkerMessagePipe.Take | source/quickjs/quickjs-libc.c:2384-2396 | The critical section removes the first message and the byte with the last one |
| MessagePipe.JSWorkerMessagePipe.FreeMessages | source/quickjs/quickjs-libc.c:3573-3576 | The freeing loop meets every message once, in order |
| WorkerPipe.NextKeepsInv | source/quickjs/quickjs-libc.c:2374-2428 | Every step of every thread keeps mutual exclusion, the wake-up rule, order, buffer counts and the pipe's lifetime |
| WorkerPipe.NoLostWakeUp | source/quickjs/quickjs-libc.c:3837-3843 | In every reachable state outside the critical section: one byte if a message waits, else none |
| WorkerPipe.ReadNeverBlocks | source/quickjs/quickjs-libc.c:2391-2394 | The read in js_waker_clear always finds its byte |
| WorkerPipe.FirstInFirstOut | source/quickjs/quickjs-libc.c:2384-2396 | Taken, then discarded with the pipe, then waiting messages are exactly those posted, in order |
| WorkerPipe.BuffersAlive | source/quickjs/quickjs-libc.c:3832-3836 | Counts cover every use of a buffer by a queued message and by every thread |
| WorkerPipe.NextBufferAlive | source/quickjs/quickjs-libc.c:3507-3524 | A buffer about to be shared or released is still counted |
| WorkerPipe.QuietCounts | source/quickjs/quickjs-libc.c:3549-3559 | With no call under way, counts are script objects plus queued messages; nothing leaks with the pipe |
| WorkerPipe.FreedAlone | source/quickjs/quickjs-libc.c:3561-3581 | The pipe is freed by one thread, after every call on it, so the unlocked loop is alone |
| WorkerPipe.NeverStuck | source/quickjs/quickjs-libc.c:2374-2428 | No deadlock: while a call is under way, some call can go on |
| WorkerPipe.WorkDecreases | source/quickjs/quickjs-libc.c:2374-2428 | Every call ends after finitely many steps |

## Left out

- Surface syntax of patterns (escapes, Annex B, names, modifiers, error texts) and the trailer of group names: the model starts at the parsed pattern.
- Memory failure, timeouts and the abort callback; growing buffers are sequences, and code size is limited by the 32-bit operands, checked once for a whole program.
- Engine.CompileAndMatch: needs every back reference to name a group of the pattern, which the parser ensures; the subject is a sequence of characters and captures are character indices; Utf16Cursor and Engine.LreExecBuffer relate them to unit offsets outside the machine.
- CaptureReset.RunMatchIsMatch: needs Fits, because the property is false without it (CountLimit.FillerAgreesIff).
- CountLimit.FillerAgreesIff: the exact condition is proved for one family of patterns; for all patterns Fits is sufficient only.
- StringClass.ReEmitStringList: a pattern with such a class is the pattern with its alternatives in the same place, there is no node of its own; the hash table of strings is the sequence it is enumerated in, strings are taken in canonical form when case is ignored, and the code must stay below 2^31 bytes.
- Reciprocal.MpDiv1norm: a shifted division is claimed in place only, because between two arrays it is wrong (Reciprocal.ShiftNeedsSameArray).
- FreeFormat: the search stops at the first length that fails, so its digits need not be the fewest that read back; the shortcut for integers, placement of the dot and exponent text, fixed-format printing.
- DigitCodec.ReadDigits: within the digit limit, where no digit is dropped.
- RoundDouble.RoundToD: a sticky buffer must hold at least 55 bits of quotient, which MulPow provides.
- CaseTables.LreCanonicalize: the generated tables are parameters with stated conditions (sorted disjoint runs, even upper-lower runs, agreement with the ASCII fast path).
- CaseClosure.SortAndRemoveOverlap: the points are sorted as an array of pairs and written back, not through pointers into the array of numbers.
- Normalization.UnicodeNormalize: tables are parameters: decompositions do not go in circles, composites of starters are starters, jamo are starters, Latin-1 characters behave as the tables make them; output buffers are sequences.
- Normalization.ComposeLoop: composites of starters are taken to be starters, as in the published tables; Normalization.ComposedIsComplete also takes that composites decompose in canonical order and that the second part of a pair does not decompose.
- RqSort.Sorter.RqSort: elements are values; the variants of swapping by element width are one operation.
- WorkerPipe.NoLostWakeUp: writes to the wake-up pipe are taken to succeed; the source stops retrying on any failed write, and then a wake-up could be lost.
- WorkerPipe: the contents of messages, JS_WriteObject2 and JS_ReadObject appear as the references they create; one pipe is modelled, others count as script objects.
- Script, property and general-category tables, cr_op1, lre_case_conv to upper and lower strings, and the rest of quickjs-libc.c and the browser shell.
