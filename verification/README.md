# Verified models of the Wasmi core and of the Motoko debugger

This project models, in Dafny, the parts of the repository whose correctness rests on arithmetic
constants, on several functions working together or on whole runs, and proves what those parts are
for. `dafny verify dfyconfig.toml` checks everything.

| modules | what they model |
|---|---|
| `LinearMemory`, `Words` | loads and stores on linear memory, instruction by instruction |
| `FloatFormat`, `FloatTruncation`, `FloatNearest`, `FloatMinMax` | float to integer conversion, rounding to even, minimum and maximum |
| `RegisterSpans`, `RegisterCopies`, `CopyEncoding` | spans of registers, their iterator, copies of many registers at once and their encoding |
| `Comparators`, `Immediates`, `ShiftBits` | operands packed into instruction words, and shifts bit by bit |
| `InverseIndex`, `DedupArenas`, `StringInterners`, `Linkers` | interning and the two-level table of definitions |
| `Stepping` | the stepping commands of the debugger over the executor's single step |
| `HeapPrinter`, `HeapObjects`, `HeapDecoding`, `TextEncoding` | the printer of Motoko heap objects, and UTF-8 |
| `Powers`, `Wrappers` | powers of two, division, `Option` and `Result` |

What the source updates in place is a class or an array with imperative methods (`LoadInto`,
`StoreFrom`, `RegSpanIter`, `CopySpan`, `DedupArena`, `StringInterner`, `LinkerInner`, `Linker`,
`InstrEncoder`, `InterceptedExecutor`, `MainDebugger`, the two printing loops). Each such method is proved against a
specification function or a logical condition, and the lemmas say what that function is worth.
Everything the source writes as an expression is a function.

## How the source is represented

* A float is its bit pattern. Its value is exact: an integer number of units, the unit being the
  least subnormal of the format. The formats are parameters; `f32` and `f64` are the two in `Float`.
  `floor`, `ceil`, `trunc`, `round` and `% 2.0` of `libm` are exact functions, and so is the one
  subtraction in `nearest`. That the exact results of all these steps are floats of the same format,
  so that the hardware does not round them, is `NearestStepsAreExact`.
* The casts between `f32` and `f64` are parameters of `NarrowFloatMeaning`, of which `AreCasts`
  states what hardware guarantees: widening is exact, and narrowing keeps a number that fits.
  `CastsExist` shows that casts of this kind exist.
* Integers of the source are bounded types or are cut explicitly (`Wrap`, `ToU32`, `NextN`). The
  heap printer's `u32` offsets wrap, as in a release build.
* `RunWhileAtLeast` is the loop that the source spells out in both `InstOver` and `Out`. The step is
  a function parameter (`Stepper`); `ExecuteStep` is the step of the real executor, reduced to its
  effect on the call stack and on the interceptor, and `Interpreter` makes a `Stepper` of it.
  Commands terminate on halting runs: `bound` is a ghost parameter that exists for those only.
  `StepOut` requires of the abstract step that the end of the run leaves no frame, which the real
  step satisfies in every state (`EndLeavesNoFrame`).
* The register file is an array of 2^16 cells, one for each register index. A constant that an
  instruction does not hold itself has a register of its own that nothing writes; it is kept as the
  constant it holds. `isImmediate` stands for the type-directed choice between the two.
* Indirect calls may lead into another module instance, as the executor allows. With the one instance
  that the debugger builds, calls of imported Wasm functions do not occur and an indirect call is
  reported as the function it calls.
* A text value is its characters. The heap holds their UTF-8 bytes (`IsEncoded`), which determine them
  (`Utf8Injective`).
* The ordered map of the interner and of the linker is a mathematical map; that the interner's order
  is fit for one is `LenOrderIsTotalOrder`. The interner is that of the `no-hash-maps` configuration.
  Symbols are limited to 2^32, beyond which the source panics; `HasRoomFor` is that limit. A
  comparator is its discriminant.
* In the heap printer a depth bound stands for the call stack (`Overflowed` when it is exhausted);
  `DeeperDisplay` shows that nothing else depends on it. Number formatting and the conversion of big
  integers, which runs code of the debugged program, are the fields of `Env`.
  Where it matters, `IsDecimal` says that different integers have different texts, none
  with a comma; `StrokesAreDecimal` gives such a format.

## Where the code falls short of its purpose

The model keeps the code as it is. In each case the exact condition under which the purpose is met
is proved.

* `ComparatorAndOffset::as_u64` combines the halves with `&` instead of `|`. Unpacking returns the
  packed pair exactly for comparator `I32Eq` with offset 0 (`RoundTripAsWritten`). The packing with
  `|` and a masked low half round-trips for every pair (`RoundTripRepaired`).
* `Out` discards the signal of its first step. It does what it is meant to exactly if its first
  instruction traps or neither ends the run, nor starts a source line to stop at, nor calls a watched
  function (`OutAsMeantIffQuietStart`). `OutMissesBreakpoint` is a run on which it goes past a
  breakpoint to the end of the program.
* The debugger's list of invoked functions departs from the call stack after a call of an imported
  Wasm function (not reported), an indirect call into another instance (reported as the function that
  the table of that instance holds), an indirect call of a host function (reported, never popped), a
  conditional return that is not taken (popped anyway) and a tail call, including one of a host
  function that fails after its caller was popped (`ListTrueIffKept`,
  `ConditionalReturnLosesFunction`).
* `DedupArena::from_iter` does not deduplicate: its map is the inverse of its entities exactly for
  input without duplicates (`CollectInverseIffDistinct`).
* The overlap test on a list of values is sound but answers yes for some lists that could be copied
  one by one (`ListTestIsNotComplete`); `AgreeIffHarmless` is the exact condition. The test on spans
  is exact.
* A compact integer is shown as itself exactly if it is not negative, and otherwise 2^31 too high,
  because the shift is logical (`CompactIntShown`).
* A text is shown byte by byte, and so as itself exactly if it is ASCII (`TextIsPrintedIffAscii`);
  `AccentIsTwoCharacters` is a text that is not.
* Hence an array, however nested, is printed as what it represents exactly if it holds no negative
  integer and no text beyond ASCII (`ValueIsPrinted`). `ValueIsPrintedAsShown` says what is printed in
  all cases.
* A rope that contains itself, however indirectly and in whichever half, is never printed
  (`CycleIsNotPrinted`). Among texts, printing succeeds exactly for finite ropes
  (`TextIsPrintedIffRope`), and among texts that lie within the memory exactly for those that reach no
  cycle; the others exhaust the stack at every depth (`TextIsPrintedIffNoCycle`). The rope is one that
  the bytes represent (`TextIsPrintedIffRopeThere`). `SelfContainingRope` is a memory with a cycle.
* In a memory of all 2^32 bytes a text at address 0 that claims more than 0xFFFF_FFF7 bytes is printed
  although the memory cannot hold it, because the offsets of its last bytes wrap
  (`OverlongTextIsFound`, `OverlongTextExists`). What the loads find is what the bytes represent exactly
  if no leaf is longer than that (`RopeFoundIffThere`).

## Model

| member | source | states |
|---|---|---|
| LinearMemory.LoadInto | crates/core/src/value.rs:110-122 | a load into a buffer succeeds exactly in bounds, then holds the addressed slice, and otherwise leaves the buffer alone |
| LinearMemory.StoreFrom | crates/core/src/value.rs:133-145 | a store of a buffer succeeds exactly in bounds, replaces the addressed slice and nothing else, and otherwise leaves the memory alone |
| LinearMemory.LoadExtend | crates/core/src/untyped.rs:154-167 | the imperative load through a byte buffer refines the pure load on every memory, address, offset and instruction |
| LinearMemory.StoreWrap | crates/core/src/untyped.rs:328-344 | the imperative store refines the pure store: same outcome, same memory after it, trapping or not |
| LinearMemory.ExtendIsExtension | crates/core/src/value.rs:368-399 | casting a stored pattern up gives the zero or sign extension of section 4.3.2 of the WebAssembly Core Specification |
| LinearMemory.LoadMeaning | crates/core/src/untyped.rs:140-167 | the two-stage check traps exactly if the unbounded address plus width exceeds the memory; otherwise the result is the extension of the little-endian bytes there |
| LinearMemory.StoreMeaning | crates/core/src/untyped.rs:328-344 | a store traps under the same condition and then changes nothing; otherwise only its own bytes change and they decode to the value modulo the width |
| LinearMemory.LoadAfterStore | crates/core/src/untyped.rs:328-344 | a load of the width and place of a store, whatever address operand and offset lead there, succeeds exactly if the store did, and returns the value wrapped and then extended |
| LinearMemory.LoadInsideStore | crates/core/src/untyped.rs:328-344 | any load inside a store, whatever address operand and offset lead there, returns the matching little-endian slice of the stored value, extended |
| LinearMemory.LoadDisjointFromStore | crates/core/src/untyped.rs:328-344 | a load that shares no byte with a store gives the same outcome before and after it, traps included |
| LinearMemory.LoadOpMeaning | crates/core/src/untyped.rs:188-320 | each of the fourteen load instructions reads the width and adds the sign fill that its name says |
| LinearMemory.LoadOpByName | crates/core/src/untyped.rs:188-320 | each load instruction by name: the bytes it reads, what a set top bit adds, and the trap |
| LinearMemory.StoreOpMeaning | crates/core/src/untyped.rs:365-493 | each of the nine store instructions writes the value modulo its width, as seen by the matching unsigned load |
| LinearMemory.StoreOpByName | crates/core/src/untyped.rs:365-493 | each store instruction by name: the low bytes it writes, the frame, and the trap |
| Words.FromToLe | crates/core/src/value.rs:158-177 | decoding the little-endian bytes of a value gives the value modulo their width |
| Words.ToFromLe | crates/core/src/value.rs:158-177 | encoding the decoded value of any bytes gives those bytes back |
| Words.ToLeSlice | crates/core/src/value.rs:158-177 | every run of bytes inside an encoding is the encoding of the value shifted down |
| FloatFormat.DecodeMeaning | crates/core/src/nan_preserving_float.rs:44-68 | every bit pattern by its IEEE 754 fields: the value of a finite float relative to 1.0, sign, infinities and NaNs |
| FloatFormat.OneBits | crates/core/src/nan_preserving_float.rs:44-68 | the bits 0x3F80_0000 of `f32` and 0x3FF0_0000_0000_0000 of `f64` are the number 1.0 in which all values are counted |
| FloatTruncation.IntegerRanges | crates/core/src/value.rs:351-358 | the four integer targets hold exactly the integers of their widths |
| FloatTruncation.NoFloatInGap | crates/core/src/value.rs:351-358 | no float of any format lies strictly between -(2^t + 2^(t-p)) and -2^t, p being the width of its fraction |
| FloatTruncation.LowerGuard | crates/core/src/value.rs:351-358 | for all eight pairs the guard on the lower literal rejects a negative float exactly if its integer part is below the target's minimum |
| FloatTruncation.Guards | crates/core/src/value.rs:311-313 | for all eight pairs both guards let a finite float through exactly if its integer part is in the target's range |
| FloatTruncation.TryTruncateMeaning | crates/core/src/value.rs:303-316 | on every bit pattern the trapping conversion is trunc_s or trunc_u of section 4.3.4 of the WebAssembly Core Specification, with the right one of the two errors otherwise |
| FloatTruncation.SaturateMeaning | crates/core/src/value.rs:318-332 | the saturating conversion returns the member of the target's range closest to the integer part, the end of the range for infinities, zero for NaN |
| FloatTruncation.SaturateAgreesWithTry | crates/core/src/value.rs:303-332 | the two conversions agree where the trapping one succeeds; where it overflows the other gives an end of the range |
| FloatTruncation.SaturateMonotone | crates/core/src/value.rs:318-332 | saturating conversion preserves the order of finite floats |
| FloatTruncation.BoundsAreFloats | crates/core/src/value.rs:351-358 | all sixteen literals are exactly representable in their format |
| FloatNearest.NearestMeaning | crates/core/src/value.rs:682-695 | on every bit pattern the repaired rounding is fnearest of section 4.3.3 of the WebAssembly Core Specification: the closest integer, the even one on ties, sign kept, zeros included |
| FloatNearest.LibmMeaning | crates/core/src/value.rs:664-689 | what floor, ceil, trunc, round and the remainder by 2.0 are, by integer part and fraction |
| FloatNearest.NearestOffTies | crates/core/src/value.rs:682-686 | off ties the result is the rounded number |
| FloatNearest.NearestOnTies | crates/core/src/value.rs:687-694 | on ties it is the even neighbour |
| FloatNearest.NearestStepsAreExact | crates/core/src/value.rs:682-695 | for every finite float each intermediate result, the subtraction and the remainder included, is a float of the same format, so no step rounds |
| FloatNearest.TiesToEvenUnique | crates/core/src/value.rs:682-695 | a number has only one nearest integer with ties to even, so the previous property determines the result |
| FloatNearest.NearestIsRepresentable | crates/core/src/value.rs:682-695 | the result is a float of the same format, for every finite float |
| FloatMinMax.CompareByKey | crates/core/src/nan_preserving_float.rs:129-143 | comparing decoded numbers is comparing the integer keys of their bit patterns, except that the two zeros are equal |
| FloatMinMax.MinMaxSelectByKey | crates/core/src/value.rs:579-621 | on numbers min and max select bit for bit by the total order that puts -0 below +0 |
| FloatMinMax.MinMaxOfNan | crates/core/src/value.rs:594-598 | exactly if an operand is a NaN the outcome is the sum of the two operands, which propagates it |
| FloatMinMax.MinMaxMeaning | crates/core/src/value.rs:579-621 | by the values: one of the operands, never above (min) or below (max) either, infinities included; of two zeros the negative or the positive one |
| FloatMinMax.LatticeLaws | crates/core/src/value.rs:579-621 | bitwise commutativity, associativity and absorption of min and max |
| FloatMinMax.NegReversesKey | crates/core/src/nan_preserving_float.rs:120-127 | flipping the sign bit reverses the total order and undoes itself |
| FloatMinMax.MaxIsDualOfMin | crates/core/src/value.rs:601-621 | max(a, b) is bit for bit -min(-a, -b) |
| RegisterSpans.RegSpanIter.NewU16 | crates/ir/src/span.rs:243-251 | a new iterator has exactly the registers of the span left to yield |
| RegisterSpans.RegSpanIter.LenAsU16 | crates/ir/src/span.rs:259-261 | the length is the number of registers left |
| RegisterSpans.RegSpanIter.Next | crates/ir/src/span.rs:304-311 | takes the first register left, despite wrapping increments |
| RegisterSpans.RegSpanIter.NextBack | crates/ir/src/span.rs:315-321 | takes the last register left, despite wrapping decrements |
| RegisterSpans.RunPartitions | crates/ir/src/span.rs:301-322 | any interleaving of the two ends yields every register once, ascending in front and descending at the back, and ends after as many yields as the span is long |
| RegisterSpans.FixedSpanAccepts | crates/ir/src/span.rs:69-75 | the wrapping comparison accepts exactly the non-empty spans whose end, one past the last register, is still an index, and keeps their head |
| RegisterSpans.ContainsIffYielded | crates/ir/src/span.rs:101-108 | for every span, containment is being yielded by its iterator; a span that overflows contains nothing |
| RegisterCopies.SpanTestExact | crates/ir/src/span.rs:276-298 | the span test is false exactly if copying register by register equals simultaneous assignment on every register file |
| RegisterCopies.SimultaneousMeaning | crates/ir/src/for_each_op.rs:1201-1225 | register by register: results hold the old contents of their sources or the constants, all other registers are unchanged |
| RegisterCopies.ListOverlaps | crates/wasmi/src/engine/translator/instr_encoder.rs:544-563 | the list test is true exactly if some value is read from a register that an earlier copy wrote |
| RegisterCopies.ListTestSound | crates/wasmi/src/engine/translator/instr_encoder.rs:544-563 | if the list test is false, sequential and simultaneous copying agree on every register file |
| RegisterCopies.ListTestIsNotComplete | crates/wasmi/src/engine/translator/instr_encoder.rs:544-563 | a list on which the test is true although both ways agree everywhere |
| RegisterCopies.SequentialResolves | crates/wasmi/src/engine/executor/instrs/copy.rs:96-108 | what sequential copying leaves in each cell, traced back to the initial registers |
| RegisterCopies.AgreeIffHarmless | crates/wasmi/src/engine/executor/instrs/copy.rs:96-108 | for every list of values: both ways of copying agree on all register files exactly if each value read late comes from a register that was copied to itself |
| RegisterCopies.CopySpan | crates/wasmi/src/engine/executor/instrs/copy.rs:68-76 | the copy through a buffer is the simultaneous assignment, overlapping or not |
| RegisterCopies.CopySpanNonOverlapping | crates/wasmi/src/engine/executor/instrs/copy.rs:96-108 | the copy without a buffer is the sequential assignment |
| RegisterCopies.CopySpanAsEncoded | crates/wasmi/src/engine/translator/instr_encoder.rs:498-507 | the instruction selected by the overlap test always performs the simultaneous assignment |
| RegisterCopies.CopyTwo | crates/wasmi/src/engine/executor/instrs/copy.rs:30-37 | the copy of a pair is the simultaneous assignment |
| RegisterCopies.CopyMany | crates/wasmi/src/engine/executor/instrs/copy.rs:118-151 | the copy of a list through a buffer is the simultaneous assignment |
| RegisterCopies.CopyManyNonOverlapping | crates/wasmi/src/engine/executor/instrs/copy.rs:160-195 | the copy of a list without a buffer is the sequential assignment |
| CopyEncoding.MergeKeepsMeaning | crates/wasmi/src/engine/translator/instr_encoder.rs:348-388 | the pair of copies that replaces two adjacent copies does on every register file what they did one after the other |
| CopyEncoding.MergesAdjacent | crates/wasmi/src/engine/translator/instr_encoder.rs:348-372 | a copy merges exactly with a copy before it to the neighbouring register |
| CopyEncoding.SpanFromProviders | crates/wasmi/src/engine/translator/utils.rs:119-133 | finds a span exactly if the values are contiguous registers whose end is an index, and the right one |
| CopyEncoding.InstrEncoder.EncodeCopy | crates/wasmi/src/engine/translator/instr_encoder.rs:396-443 | merged, dropped or emitted, by exactly these conditions; the code does what it did before and then the copy |
| CopyEncoding.InstrEncoder.EncodeMany | crates/wasmi/src/engine/translator/instr_encoder.rs:488-519 | one instruction is emitted: for a span exactly if the values are one, through a buffer exactly if a value is read from a register written before; it performs the simultaneous assignment |
| CopyEncoding.InstrEncoder.EncodeCopies | crates/wasmi/src/engine/translator/instr_encoder.rs:451-521 | for every list of values and every code before: from every register file the new code does what the old did and then the simultaneous assignment, with at most one more instruction and none for registers copied to themselves |
| Comparators.UnpackedAsWritten | crates/ir/src/primitive.rs:341-361 | what unpacking makes of each packed pair: the offset is lost, and the comparator too unless the offset is negative |
| Comparators.UnpackMeaning | crates/ir/src/primitive.rs:341-347 | unpacking rejects exactly the words whose high half is no comparator; every other word is the repaired packing of its result |
| Comparators.RoundTripAsWritten | crates/ir/src/primitive.rs:341-361 | the round trip holds exactly for one pair |
| Comparators.AsWrittenMerges | crates/ir/src/primitive.rs:357-361 | all comparators with non-negative offsets pack to the same word |
| Comparators.RoundTripRepaired | crates/ir/src/primitive.rs:341-361 | with `\|` and a masked low half the round trip holds for every comparator and offset |
| Comparators.RepairedInjective | crates/ir/src/primitive.rs:357-361 | the repaired packing keeps all pairs apart |
| Immediates.NarrowMeaning | crates/ir/src/immeditate.rs:367-533 | narrowing succeeds exactly on values that some immediate widens to, decoding returns the value, and only zero becomes zero |
| Immediates.NarrowRange | crates/ir/src/immeditate.rs:367-533 | the accepted range in numbers, and the immediate modulo its width |
| Immediates.WidenRange | crates/ir/src/immeditate.rs:469-503 | decoding gives the number of that range congruent to the immediate |
| Immediates.NonZeroStaysNonZero | crates/ir/src/immeditate.rs:407-449 | the non-zero variants accept exactly what the plain ones accept |
| Immediates.NarrowFloatMeaning | crates/ir/src/immeditate.rs:535-545 | an `f64` number is accepted exactly if `f32` holds it, sign of zero included, and decoding restores the bits of all that is accepted, NaNs included |
| Immediates.CastsExist | crates/ir/src/immeditate.rs:535-545 | the assumptions about the casts can be met by any two formats of which one holds the numbers of the other |
| Immediates.DoubleInSingle | crates/ir/src/immeditate.rs:535-545 | the instance for `f64` and `f32`: a number is accepted exactly if `f32` holds it, and then decoded to the same bits |
| Immediates.PlacesAreResidue | crates/core/src/untyped.rs:675-702 | masked shifts and rotations move by the residue of the operand, negative operands included |
| Immediates.ShiftAmountKeepsMeaning | crates/ir/src/primitive.rs:396-402 | every shift or rotation by the stored amount equals the one by the original operand, and the amount fits the immediate |
| Immediates.ShiftAmountValue | crates/ir/src/primitive.rs:396-402 | the stored amount is the truncated remainder, with the sign of the operand |
| ShiftBits.MoveMeaning | crates/core/src/untyped.rs:675-702 | bit by bit, every shift and rotation by a number of places is that of section 4.3.2 of the WebAssembly Core Specification |
| ShiftBits.ApplyMeaning | crates/core/src/untyped.rs:735-752 | ... and by any operand the one by its residue modulo the width |
| Immediates.NoShiftAmountIffNoOp | crates/ir/src/primitive.rs:396-402 | no amount is stored exactly if the operation leaves every word alone |
| Immediates.ShiftAmountOfWords | crates/ir/src/primitive.rs:413-416 | both shift properties for the two integer types, at every amount |
| InverseIndex.InternKeeps | crates/collections/src/arena/dedup.rs:88-98 | one interning keeps map and sequence inverse, keeps earlier places, finds the entry, and appends just the entry exactly if it is not known |
| InverseIndex.RunInverse | crates/collections/src/arena/dedup.rs:58-98 | over every run of additions and clearings the map is the exact inverse and the entries are distinct |
| InverseIndex.RunEndsWith | crates/collections/src/arena/dedup.rs:58-98 | a run that ends with a clearing leaves nothing; one that ends with an addition at most one entry more |
| InverseIndex.AddsKeepPlaces | crates/collections/src/string_interner/detail.rs:66-114 | earlier entries keep their places over every run of additions |
| InverseIndex.SamePlaceIffSameEntry | crates/collections/src/arena/dedup.rs:88-98 | whatever is added in between, two additions return one place exactly for one entry |
| InverseIndex.CollectHoldsLast | crates/collections/src/arena/dedup.rs:123-126 | the collected map holds exactly the entries, each with its last place |
| InverseIndex.CollectInverseIffDistinct | crates/collections/src/arena/dedup.rs:118-131 | building from a sequence gives the inverse exactly for distinct entries |
| DedupArenas.DedupArena.FromIter | crates/collections/src/arena/dedup.rs:118-131 | keeps all items in order; map and entities are inverse exactly if the items are distinct |
| DedupArenas.DedupArena.Alloc | crates/collections/src/arena/dedup.rs:88-98 | returns the place of the entity, appending it only if new, and keeps the inverse and all earlier places |
| DedupArenas.DedupArena.Clear | crates/collections/src/arena/dedup.rs:60-63 | leaves the empty arena |
| DedupArenas.DedupArena.Get | crates/collections/src/arena/dedup.rs:102-104 | under the invariant, finds an entity at an index exactly if the map gives that entity this index, so it undoes `alloc` |
| StringInterners.StringInterner.GetOrInternWithHint | crates/collections/src/string_interner/detail.rs:29-38 | symbol and new state do not depend on the hint; the symbol resolves to the string and earlier symbols resolve as before |
| StringInterners.StringInterner.GetOrInternHintNew | crates/collections/src/string_interner/detail.rs:66-79 | refines interning on the abstract table |
| StringInterners.StringInterner.GetOrInternHintExisting | crates/collections/src/string_interner/detail.rs:88-93 | refines interning on the abstract table |
| StringInterners.StringInterner.InternNew | crates/collections/src/string_interner/detail.rs:101-114 | refines interning of a new string; its assertion cannot fail |
| StringInterners.StringInterner.Get | crates/collections/src/string_interner/detail.rs:118-125 | finds a symbol exactly for interned strings, and the right one |
| StringInterners.StringInterner.Resolve | crates/collections/src/string_interner/detail.rs:129-131 | under the invariant, resolves a symbol to a string exactly if the map gives that string this symbol, so it undoes interning |
| StringInterners.Cmp | crates/collections/src/string_interner/detail.rs:192-211 | the loop for short strings agrees with the comparison of long ones: shorter strings are less, and of equally long ones that with the smaller byte at the first difference |
| StringInterners.LenOrderMeaning | crates/collections/src/string_interner/detail.rs:192-211 | the length-first order, by the first differing byte |
| StringInterners.LexicographicLaws | crates/collections/src/string_interner/detail.rs:192-211 | Equal exactly on equal strings; exchanging the operands reverses the result |
| StringInterners.LexicographicTransitive | crates/collections/src/string_interner/detail.rs:192-211 | transitivity of the order within one length |
| StringInterners.LenOrderIsTotalOrder | crates/collections/src/string_interner/detail.rs:190-212 | the order of the map's keys is total: equality, reversal, transitivity |
| Linkers.KeyParts | crates/wasmi/src/linker.rs:223-238 | the halves of a packed key are the two symbols |
| Linkers.KeyOrder | crates/wasmi/src/linker.rs:202-225 | keys are ordered by module symbol, then by name symbol |
| Linkers.LinkerInner.NewImportKey | crates/wasmi/src/linker.rs:771-778 | interning names for a key changes no binding, and the key is that of the two names |
| Linkers.LinkerInner.GetImportKey | crates/wasmi/src/linker.rs:781-786 | a key exists exactly if both names are interned |
| Linkers.LinkerInner.ResolveImportKey | crates/wasmi/src/linker.rs:789-793 | resolves exactly the keys whose two symbols are known |
| Linkers.LinkerInner.Insert | crates/wasmi/src/linker.rs:800-814 | succeeds exactly on a free pair and binds it; on a bound pair it reports that pair and changes nothing; the panic on missing names is unreachable |
| Linkers.LinkerInner.Define | crates/wasmi/src/linker.rs:823-867 | succeeds exactly on a free pair and adds just that binding; otherwise reports the pair and changes nothing |
| Linkers.LinkerInner.GetDefinition | crates/wasmi/src/linker.rs:876-879 | lookup in the packed table is lookup in the plain map |
| Linkers.LinkerInner.HasDefinition | crates/wasmi/src/linker.rs:882-887 | is true exactly for bound pairs |
| Linkers.BindInOwn | crates/wasmi/src/linker.rs:390-400 | binding a pair that is not shared in the own table is binding it in the union, and keeps the tables disjoint |
| Linkers.Linker.Create | crates/wasmi/src/linker.rs:648-654 | a created linker has exactly the builder's bindings |
| Linkers.Linker.EnsureUndefined | crates/wasmi/src/linker.rs:374-383 | fails exactly on pairs bound in the shared table |
| Linkers.Linker.Define | crates/wasmi/src/linker.rs:390-400 | succeeds exactly on pairs bound in neither table and adds just that binding; otherwise reports the pair and changes nothing |
| Linkers.Linker.GetDefinition | crates/wasmi/src/linker.rs:484-500 | the shared-first lookup is lookup in one plain map |
| Linkers.FirstDefinitionWins | crates/wasmi/src/linker.rs:800-814 | over every run of definitions the first one of a pair stays in force |
| Linkers.BoundIffDefined | crates/wasmi/src/linker.rs:800-814 | after every run exactly the pairs are bound that were bound before or defined in it |
| Linkers.Build | crates/wasmi/src/linker.rs:671-733 | every run of builder definitions yields the bindings of the plain map, and each definition the outcome it must have |
| Linkers.DefineAll | crates/wasmi/src/linker.rs:390-455 | every run of definitions in a linker refines the plain map; each definition succeeds exactly if its pair was free and not defined earlier in the run |
| Linkers.BuildAndDefine | crates/wasmi/src/linker.rs:648-654 | builder definitions, creation and linker definitions together behave like one plain map given all definitions in order, outcome by outcome |
| Stepping.InterceptedExecutor.Step | crates/wasmi/src/engine/executor/instrs.rs:1427-1466 | the step with its three callbacks refines the step function, signals and state |
| Stepping.SignalMeaning | crates/wasmi/src/engine/executor/instrs.rs:1427-1466 | by the kind of instruction: when a step is an error, the end, or a breakpoint |
| Stepping.StepMeaning | crates/wasmi/src/engine/executor/instrs.rs:1427-1466 | by the kind of instruction: what a step does to the call stack, the list of functions and the interrupt flag, errors included |
| Stepping.InterceptedExecutor.ExecuteInst | crates/debugger/src/debugger.rs:686-699 | breaks at a source line only while interrupted, and clears that |
| Stepping.LineStartOnce | crates/debugger/src/debugger.rs:686-699 | between two interrupts the debugger stops at a line start at most once |
| Stepping.LineStopsArePaid | crates/debugger/src/debugger.rs:75-76 | in every run with interrupts arriving at any time, stops at line starts are at most as many as the interrupts, plus one if the flag was set at the outset |
| Stepping.EndLeavesNoFrame | crates/wasmi/src/engine/executor/instrs.rs:52-63 | the end is signalled only when no frame is left |
| Stepping.MainDebugger.StepIn | crates/debugger/src/debugger.rs:503-512 | is one step |
| Stepping.MainDebugger.RunWhileAtLeast | crates/debugger/src/debugger.rs:523-531 | stops at the first state with a signal or below the limit, whichever comes first |
| Stepping.MainDebugger.StepOver | crates/debugger/src/debugger.rs:513-533 | stops at the first state after a step that has a signal or at most the initial depth, and returns that signal |
| Stepping.OverMeaning | crates/debugger/src/debugger.rs:513-533 | in depths: goes on while steps give Next and more frames are left than at the start; what it returns for each signal |
| Stepping.MainDebugger.StepOut | crates/debugger/src/debugger.rs:534-547 | stops after its first step if that traps or leaves the frame, and else at the first later state with a signal or a smaller depth |
| Stepping.OutMeaning | crates/debugger/src/debugger.rs:534-547 | in depths: goes on while steps give Next and no fewer frames are left than at the start, only an error of the first step counting; what it returns |
| Stepping.MainDebugger.Step | crates/debugger/src/debugger.rs:493-549 | each style of stepping stops where its own definition says, and returns what it says |
| Stepping.MainDebugger.Process | crates/debugger/src/debugger.rs:551-564 | stops at the first signal and returns it |
| Stepping.ProcessMeaning | crates/debugger/src/debugger.rs:551-564 | the stop is the first step that does not give Next |
| Stepping.MainDebugger.RepeatStepIn | crates/debugger/src/debugger.rs:503-512 | repeating single steps until one gives another result than Next has the same result and final state as `Process` |
| Stepping.FirstStopUnique | crates/debugger/src/debugger.rs:493-564 | the stop named by the contracts of the commands is determined |
| Stepping.OutAsMeantIffFirstIsNext | crates/debugger/src/debugger.rs:534-547 | stepping out stops at the first signal or in the caller exactly if its first step gives no signal |
| Stepping.OutAsMeantIffQuietStart | crates/debugger/src/debugger.rs:534-547 | the same condition read off the state before the command: its first instruction traps, or neither returns from the last frame nor starts a source line to stop at nor calls a watched function |
| Stepping.OutMissesBreakpoint | crates/debugger/src/debugger.rs:536-537 | a program on which stepping out goes past the breakpoint of its first instruction to the end |
| Stepping.ListAfterStep | crates/wasmi/src/engine/executor/instrs.rs:1787-1822 | which events keep the list of invoked functions equal to the call stack |
| Stepping.ListTrueIffKept | crates/wasmi/src/engine/executor/instrs.rs:1427-1466 | over every run the list is the call stack exactly as long as only such events occur |
| Stepping.ConditionalReturnLosesFunction | crates/wasmi/src/engine/executor/instrs/return_.rs:232-247 | a run on which a conditional return that is not taken empties the list |
| HeapPrinter.HandleBlobText | crates/debugger/src/heap.rs:264-284 | the loop over the bytes refines the recursive decoder, errors included |
| HeapPrinter.HandleArrayVarT | crates/debugger/src/heap.rs:152-196 | the loop over the elements refines the recursive decoder, errors and panics included |
| HeapObjects.ObjectMeaning | crates/debugger/src/heap.rs:102-150 | in bytes: an unreadable or unknown tag is an error; objects of one number show the number after the header; other tags show a description |
| HeapObjects.ConcatMeaning | crates/debugger/src/heap.rs:286-330 | a concatenation shows the text at its third word and then the one at its fourth, and passes on what is no text |
| HeapObjects.BlobMeaning | crates/debugger/src/heap.rs:264-284 | a text blob shows its bytes in order, one character each |
| HeapObjects.ElementMeaning | crates/debugger/src/heap.rs:171-192 | elements of all types in bytes: an error only outside the memory; an even integer word is its half; any other word is the object there, or the float of its bits if that cannot be printed |
| HeapObjects.UnknownElement | crates/debugger/src/heap.rs:477-489 | an element that is the address of nothing known shows as the float of its bits |
| HeapObjects.ArrayMeaning | crates/debugger/src/heap.rs:152-196 | an array is the combination of its elements in brackets, or what prevents it |
| HeapObjects.CombinedMeaning | crates/debugger/src/heap.rs:171-193 | the combination is a text exactly if all elements are; otherwise it is the first that is none |
| HeapObjects.CombinedTexts | crates/debugger/src/heap.rs:178-192 | each text is followed by a comma and a blank, in order |
| HeapObjects.ArrayFailsIffOutside | crates/debugger/src/heap.rs:152-196 | an array of numbers is an error exactly if its length, or an element preceded only by printable ones, lies outside the memory |
| HeapDecoding.LoadHeapReads | crates/debugger/src/heap.rs:391-402 | the loads find the little-endian words and the bytes of the memory |
| HeapDecoding.RopeIsFlattened | crates/debugger/src/heap.rs:264-330 | in every memory in which an address represents a finite rope, printing terminates within the rope's height and gives the leaf bytes in order, one character each |
| HeapDecoding.LaidOutRopeIsPrinted | crates/debugger/src/heap.rs:264-330 | the round trip: every rope can be laid out behind any memory contents with room for it, and is then printed as its flattening |
| HeapDecoding.EqualFlatteningsPrintAlike | crates/debugger/src/heap.rs:286-330 | ropes with one flattening print alike, whatever their shapes and heaps |
| HeapDecoding.ValueIsPrintedAsShown | crates/debugger/src/heap.rs:152-196 | arrays of compact integers, texts, arrays and addresses of nothing known, nested to any depth, are printed as the values they represent with each negative integer 2^31 too high and each text byte by byte |
| HeapDecoding.ValueIsPrinted | crates/debugger/src/heap.rs:455-490 | ... and so as what they represent exactly if they hold no negative integer and no text beyond ASCII |
| HeapDecoding.TextIsPrintedIffAscii | crates/debugger/src/heap.rs:275-283 | a rope with the UTF-8 bytes of a text is printed as that text exactly if it is ASCII |
| HeapDecoding.AccentIsTwoCharacters | crates/debugger/src/heap.rs:275-283 | the text of the one letter U+00E9 is printed as two characters |
| TextEncoding.CharsOfUtf8 | crates/debugger/src/heap.rs:281-281 | one character for each UTF-8 byte gives the text exactly if it is ASCII |
| TextEncoding.EncodeCharMeaning | crates/debugger/src/source_code_in_moc/prim.mo:192-192 | the four forms of UTF-8: length, lead byte and continuation bytes of every code point |
| TextEncoding.Utf8Injective | crates/debugger/src/source_code_in_moc/prim.mo:192-192 | the bytes of a text determine it |
| HeapDecoding.CompactIntShown | crates/debugger/src/heap.rs:467-475 | a compact integer is shown as itself exactly if not negative, and otherwise 2^31 too high |
| HeapDecoding.CycleIsNotPrinted | crates/debugger/src/heap.rs:286-330 | a rope that reaches itself through any halves is not printed at any depth |
| HeapDecoding.LeftCycleOverflows | crates/debugger/src/heap.rs:310-318 | if it does so through left halves the stack overflows, whatever the right halves hold |
| HeapDecoding.TextIsPrintedIffRope | crates/debugger/src/heap.rs:264-330 | among text objects, printing succeeds at some depth exactly where the loads find a finite rope |
| HeapDecoding.TextIsPrintedIffNoCycle | crates/debugger/src/heap.rs:264-330 | among text objects within the memory, printing succeeds exactly for those that reach no cycle, and overflows at every depth for the others |
| HeapDecoding.TextIsPrintedIffRopeThere | crates/debugger/src/heap.rs:264-330 | the same on the bytes: printing succeeds exactly where they represent a finite rope, unless the memory is full and a blob claims more than 0xFFFF_FFF7 bytes |
| HeapDecoding.SelfContainingRope | crates/debugger/src/heap.rs:286-330 | a memory of 17 bytes that reaches a cycle and is never printed |
| HeapDecoding.RopeFoundIffThere | crates/debugger/src/heap.rs:268-308 | in every memory the bytes represent a rope exactly if the loads find it and no leaf is longer than 0xFFFF_FFF7 bytes |
| HeapDecoding.OverlongTextIsFound | crates/debugger/src/heap.rs:275-280 | in a memory of all 2^32 bytes a longer text at address 0 is found and printed although the bytes cannot represent it |
| HeapDecoding.DeeperDisplay | crates/debugger/src/heap.rs:102-150 | an outcome other than running out of stack does not depend on the depth allowed |

## Left out

- The executor's instructions, the translator, the module parser, tables, globals and the DWARF
  reader: of the executor only the step's effect on call stack and debugger is modelled, and of the
  translator only the encoding of copies.
- The REPL, command parsing, output, signal handling, the WASI glue, the `unsafe` transmutes and the
  process-wide mutable store, engine and stack.
- Float addition, multiplication and square root, and the bits of a propagated NaN: rounding of the
  hardware or of `libm`. `Min` and `Max` name the sum of a NaN case without evaluating it.
- Promotion, demotion and integer-to-float conversion as operations of their own: rounding casts.
- `Linker::process_import`, `instantiate` and the checks that two engines are the same: type checks
  on single imports. That nobody defines through a builder that has already created a linker is left
  to the caller, where the source panics.
- `Arena::get_pair_mut`, `alloc_many`, `get_mut`, `iter_mut` and the arena iterators: they hand out
  references to single slots. Mutating an entity through them can break the dedup map.
- The layout of register lists in instruction words, fuel, and the errors when instructions or
  constants run out.
- `BranchOffset`, `BlockFuel`, `Sign`, `Pages`, `StoreLimits`, `HeadVec`, `ComponentVec`: only easy
  members.
- The hash-backed interner, `Map` and `Set`: thin wrappers over libraries.
- HeapDecoding.ValueIsPrinted: covers arrays of 32-bit words. Elements of the other types and objects
  of the other tags are covered one by one, by `ElementMeaning` and `ObjectMeaning`.
- HeapDecoding.CompactIntShown: covers 32-bit compact integers, the form Motoko uses in the heap.
- Memory changes made by the big-integer conversion while an array is being printed: it is a function
  of its operands in `Env`.
- Stepping.MainDebugger.StepOver: termination is proved for runs that halt, as for the other
  commands; a program that never ends is not stopped by the source either.
