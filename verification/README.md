# Verified model of the C library's heap, formatted output and number conversions

A Dafny model of the three components of this freestanding C library that carry the most state and
arithmetic, with proofs of what they promise.

**Heap** (`Arena.dfy`, `ArenaRuns.dfy`, `HeapWords.dfy`, `HeapSteps.dfy`, `Heap.dfy`). `Heap` is a class over
two arrays, the two 8-byte words of every 16-byte cell, and does what `malloc` and `free` do: tags, links, splits,
merges and growth in place. An `Arena` is the same heap as a value: a map from headers to sizes and the free list.
`Valid` says that the words represent the arena, and every method proves that it computes the abstract operation
and leaves live blocks alone. `Store` is the client writing into its region. Over arenas the project proves safety of all
runs, disjointness, conservation of bytes, that malloc and free undo each other, and that nothing leaks.

**Conversions** (`Numerals.dfy`, `Resumable.dfy`, `RawDecimals.dfy`, `Conversions.dfy`). What one call of a resumable conversion emits
and leaves behind is the function `Step`; the in-place loops refine it, and over any sequence of buffers the output
is the canonical numeral. `RawDecimals.dfy` covers itoa on every int64: a number is printed correctly if and only if
it lies outside the 2^61 band reserved for remainders, which the code itself takes for unfinished numbers, and if the
buffers hold it from the first one that can start it.

**Formatted output** (`Traces.dfy`, `Streams.dfy`, `Sinks.dfy`, `IntegerFormat.dfy`; `Rounding.dfy`, `Bignum.dfy`, `ExactValue.dfy`,
`DecimalText.dfy`, `Expansion.dfy`, `Decimals.dfy`, `FloatValue.dfy`, `FloatTexts.dfy`, `FixedFormat.dfy`,
`HexFormat.dfy`, `FloatFormat.dfy`, `FloatMeaning.dfy`, `FloatBits.dfy`; `Meanings.dfy`; `Formats.dfy`, `Rendering.dfy`,
`Printf.dfy`, `Directives.dfy`). A stream
is the bytes in its buffer and the write requests made; the kernel's answers, fixed in advance, determine what of them
has been delivered. Every method that prints is proved against that state. The float path starts from mantissa and exponent, works
on limb and digit arrays in place, and prints texts that are specified as functions of the exact value; an
independent reader (`FloatTexts.Read`) shows what the texts denote (section 7.21.6.1 of ISO/IEC 9899:2018, rounding as
in section 4.3.1 of IEEE 754-2008). `fprintf` is proved against parse-then-render; `Meanings.dfy` and `Directives.dfy`
say in terms of characters alone, for every directive and every place of a format, what is printed for which argument.

Main results: `Heaps.Heap.Malloc`, `Heaps.Heap.Free`, `ArenaRuns.ReachableValid`, `ArenaRuns.MallocThenFree`,
`ArenaRuns.NothingLeaks`; `Resumable.RunEmits`, `RawDecimals.ItoaRunExactly`, `Conversions.AtoiMeans`,
`Conversions.AtoiReadsBack`;
`Streams.File.PutBytes` and `Streams.File.Puti` with `Traces.RunMeans` and `Traces.RunWhole`; `Decimals.Decimal.Set`,
`Decimals.Decimal.Round`, `FloatFormat.OutputFloat` with `FloatMeaning.*` and `Meanings.FloatTextMeans`;
`Printf.Fprintf` with `Formats.SpellParsed`, `Formats.ParseSpelled`, `Directives.AnyPlace` and the directive theorems.

Conventions. Heap addresses and sizes count 16-byte cells, so alignment is part of the address space and address 0 is
NULL. `Arith.dfy` names products, quotients and powers; proofs hide their definitions and use its laws. The kernel is an
oracle fixed in advance: for each request whether `brk` grants it, and how many bytes each `write` takes, at least one
of a nonempty request, or that it fails.

## Model

| member | source | states |
|---|---|---|
| ArenaRuns.ReachableValid | test/malloc_comprehensive.c:119-178 | In every arena that any run of malloc and free can reach (the kernel may refuse to grow it), blocks tile the arena between the sentinels, the free list names free blocks once each, and no two neighbours are both free |
| ArenaRuns.NothingLeaks | test/malloc_comprehensive.c:180-190 | Once a run has freed everything it allocated, in any order, the heap is one free block of the arena size less 64 bytes |
| ArenaRuns.AllFree | test/malloc_comprehensive.c:180-190 | A valid arena without live blocks is the single free block that spans it |
| ArenaRuns.Accounting | test/malloc_comprehensive.c:133-177 | Walking the arena meets every block once in ascending order; free and live payload, 32 bytes a block and 32 for the sentinels are the arena size; the free list holds all of the free payload |
| ArenaRuns.MallocNull | src/stdlib.c:228-272 | malloc gives NULL exactly when no free block has n bytes and brk refuses, and then nothing has changed: the retry after a successful extend always finds a block |
| ArenaRuns.GrowthMeans | src/stdlib.c:259-271 | The break asked for is the first page boundary that leaves room for the request, or for 32 bytes, and 32 bytes of header and footer |
| ArenaRuns.MallocRegions | src/stdlib.c:228-257 | A returned region has at least n bytes and, but for rounding up to 16 and to 32, at most 32 more, lies inside the arena, was not live before, and is the only change to the set of live regions |
| ArenaRuns.RegionsDisjoint | src/stdlib.c:228-257 | Two live regions, headers and footers included, never share a cell |
| ArenaRuns.FreeRegions | src/stdlib.c:274-319 | free ends exactly one live region and keeps address and size of all others |
| ArenaRuns.MallocThenFree | src/stdlib.c:198-319 | malloc followed by free of its result restores the tiling, up to growth of the arena, and only permutes the free list |
| ArenaRuns.ExtendedFits | src/stdlib.c:259-271 | After extend(n + 32) the rescan finds a block, so the goto is taken at most once; live regions are untouched |
| Arenas.FirstFit | src/stdlib.c:228-258 | The first list position whose block is big enough: every earlier block is too small, or there is none |
| Arenas.TakeValid | src/stdlib.c:234-254 | Splitting or handing out a whole block keeps tiling, list and coalescing |
| Arenas.TakeLive | src/stdlib.c:234-254 | The block handed out is live and big enough; every other live block is untouched |
| Arenas.GrowValid | src/stdlib.c:173-194 | Growing the arena, by stretching a free last block or appending a new one, keeps it consistent |
| Arenas.GrowRoom | src/stdlib.c:170-194 | Growth leaves live blocks alone and yields a free block of at least the growth less 32 bytes |
| Arenas.ReleaseValid | src/stdlib.c:288-318 | Listing a block and merging it with both neighbours keeps the arena consistent, coalescing included |
| Arenas.ReleaseLive | src/stdlib.c:288-318 | free makes exactly one block stop being live |
| Heaps.Heap.constructor | src/stdlib.c:103-136 | Start-up writes sentinels, header and footer so that memory represents one free block between the first 16-byte boundary at or above the break and the first page boundary at least 1024 bytes above that |
| Heaps.Heap.InsertIntoList | src/stdlib.c:66-81 | The four link writes of an insertion, with a missing header or footer computed from the other |
| Heaps.Heap.RemoveFromList | src/stdlib.c:83-99 | The link writes of a removal in all four cases of present neighbours |
| Heaps.Heap.Extend | src/stdlib.c:154-196 | The kernel is asked once and its answer decides: if it grants the break, memory represents the arena grown to that page, else nothing has changed; no live payload or tag moves |
| Heaps.Heap.StretchLast | src/stdlib.c:173-179 | A free last block: footer and sentinel move up by delta as a copy of two cells, both size tags grow |
| Heaps.Heap.AppendBlock | src/stdlib.c:180-193 | A used last block: the old sentinel becomes the header of a new free block at the head of the list |
| Heaps.Heap.Carve | src/stdlib.c:238-248 | The size writes of a split, with the prev link carried over from the moved footer |
| Heaps.Heap.Place | src/stdlib.c:234-256 | Splitting when worthwhile, unlinking and marking leave memory representing the arena with that block taken; live cells are kept |
| Heaps.Heap.Search | src/stdlib.c:226-258 | The walk over the list stops at the first block that is big enough, or at its end |
| Heaps.Heap.Malloc | src/stdlib.c:198-272 | malloc in place on memory computes the abstract malloc (same block, same arena) and keeps every live block word for word; NULL if and only if no free block fits and the kernel refuses the break asked for; it is asked once if none fits, else not at all |
| Heaps.Heap.FuseBelow | src/stdlib.c:296-309 | The writes by which the lower neighbour takes over the list head and its links |
| Heaps.Heap.CoalesceBelow | src/stdlib.c:294-309 | Merging with a free lower neighbour keeps memory and arena in step |
| Heaps.Heap.CoalesceAbove | src/stdlib.c:311-318 | Merging with a free upper neighbour keeps memory and arena in step |
| Heaps.Heap.Free | src/stdlib.c:274-319 | free in place on memory computes the abstract release: tags, links and sizes of the coalesced block, and no change to any other live block; NULL does nothing |
| Heaps.Heap.Consistent | test/malloc_comprehensive.c:119-178 | In every state of the heap class: sentinels intact, header and footer of each block agree on size and on being used, no two free neighbours, and from head_ the next links pass each free block once with the prev links their inverse |
| HeapWords.InsertRepresents | src/stdlib.c:66-81 | Inserting at a list position keeps next and prev inverse to each other and the tags of all blocks in agreement with the list |
| HeapWords.RemoveRepresents | src/stdlib.c:83-99 | Removing a list position keeps the links of all others |
| HeapWords.StretchRepresents | src/stdlib.c:173-179 | Moving the footer of the last free block moves its prev link with it |
| HeapWords.AppendRepresents | src/stdlib.c:180-193 | The appended block is linked, tagged and fenced |
| HeapWords.CutRepresents | src/stdlib.c:238-248 | A split keeps both halves tagged and the list links intact although the footer that held one has moved |
| HeapWords.BelowRepresents | src/stdlib.c:294-309 | The merged lower neighbour stands at the head of the list with correct links |
| HeapWords.AboveRepresents | src/stdlib.c:311-318 | The merged upper neighbour leaves the list and its cells become payload |
| HeapSteps.FreeKept | src/stdlib.c:274-319 | The three phases of free together keep every other live block word for word |
| Resumable.UnpackPacked | src/conversions.c:22-25 | radix^m + suffix determines the m digits, leading zeros included |
| Resumable.PackUnpacked | src/conversions.c:35-50 | Conversely a band value below twice its leading power packs the digits read out of it |
| Resumable.RestUnique | src/conversions.c:105-181 | A remainder decodes to one digit string only |
| Resumable.RadixBands | src/conversions.c:270-291 | The limits 18, 60, 20 and 15 on remaining digits keep radix^m + suffix inside the band of 2^61 |
| Resumable.StepEmits | src/conversions.c:79-102 | A call emits as much of the pending text as fits and leaves the rest of it pending; the value reaches 0 exactly with the end |
| Resumable.RunEmits | src/conversions.c:9-103 | Over any sequence of buffer sizes the outputs together are the pending text from its start, and the value reaches 0 exactly when it is complete |
| Resumable.ChunkedIsNumeral | src/conversions.c:9-291 | However the buffers cut it, a fresh value outside the band is printed as its canonical signed numeral if and only if the buffers hold the numeral from the first one in which it can be started |
| Resumable.UsableMeans | src/conversions.c:152-159 | A conversion starts in the first buffer that has a byte (two for a negative number) and leaves no more characters over than its limit |
| Resumable.Bands | src/conversions.c:29-30 | The values taken for remainders: -2^63 < i <= -2^63 + 2^61 among int64, 2^64 - 1 - 2^61 and above among uint64 |
| Resumable.EqualBuffers | src/conversions.c:152-159 | With buffers of one size, enough of them, the value is printed if and only if the first of them can start it; otherwise nothing is ever printed and the value never changes |
| Resumable.NeverStartedWitness | src/conversions.c:152-154 | 2^63 in binary through buffers of one byte never progresses |
| Resumable.BandExactly | src/conversions.c:115-118 | With room enough, a call prints the numeral of a nonzero value of the type if and only if the value lies outside the reserved band |
| RawDecimals.DecimalExactly | src/conversions.c:9-103 | For every int64 and any buffer with room for its numeral, itoa prints the numeral if and only if not -2^63 < i <= -2^63 + 2^61 |
| RawDecimals.ItoaRunExactly | src/conversions.c:9-103 | For every nonzero int64 and any sequence of buffers, the calls of itoa print its numeral if and only if not -2^63 < i <= -2^63 + 2^61 and the buffers hold it from the first one that can start it |
| RawDecimals.BandWitnesses | src/conversions.c:29-50 | INT64_MIN + 1 vanishes without a character, INT64_MIN + 50 is printed as the letter X |
| RawDecimals.DecimalIsStep | src/conversions.c:9-103 | On fresh values and on remainders that earlier calls have left, itoa is the decimal resumable conversion |
| RawDecimals.RawStep | src/conversions.c:84-89 | A round of the digit loop writes the next character and keeps the rest of the number, digit or not |
| Conversions.Itoa | src/conversions.c:9-103 | For every int64, itoa writes the text of the call and stores back its remainder, touching no byte beyond the buffer given |
| Conversions.EmitBytesAndPack | src/conversions.c:79-101 | The characters that fit and the packed value of the digits that do not |
| Conversions.UtoaGeneric | src/conversions.c:105-181 | The unsigned conversions in any radix, likewise |
| Conversions.ItoaGeneric | src/conversions.c:183-268 | The signed conversions in any radix, likewise |
| Conversions.EmitAndPack | src/conversions.c:84-101 | The digits that fit and the packed value of those that do not |
| Conversions.TakeApart | src/conversions.c:35-77 | Number, value and leading weight of the digits that a fresh or resumed value stands for |
| Conversions.Utoa | src/conversions.c:270-272 | Decimal, at most 18 digits left over |
| Conversions.Utoab | src/conversions.c:273-275 | Binary, at most 60 |
| Conversions.Utoao | src/conversions.c:276-278 | Octal, at most 20 |
| Conversions.Utoax | src/conversions.c:279-281 | Hexadecimal in either case, at most 15 |
| Conversions.Itoab | src/conversions.c:283-285 | Signed binary |
| Conversions.Itoao | src/conversions.c:286-288 | Signed octal |
| Conversions.Itoax | src/conversions.c:289-291 | Signed hexadecimal |
| Conversions.Atoi | src/conversions.c:293-313 | atoi returns the number that AtoiMeans gives for the string |
| Conversions.AtoiMeans | src/conversions.c:293-313 | Blanks, tabs, line feeds, carriage returns, vertical tabs and form feeds, a minus or a plus or none, decimal digits or none, and something that goes on with none of these: atoi is the number of the digits, 0 without any, negated by the minus |
| Conversions.AtoiPieces | src/conversions.c:293-313 | Every C string is made of such pieces, so AtoiMeans speaks of all inputs |
| Conversions.AtoiReadsBack | src/conversions.c:293-313 | atoi of any of the six white-space characters, a signed numeral and anything but a digit behind it is the number: it undoes itoa |
| Numerals.NumeralReads | src/stdio.c:392-398 | A canonical numeral reads back as its number and has no superfluous zero |
| Numerals.NumeralUnique | src/stdio.c:392-398 | It is the only digit string without superfluous zero that does |
| Streams.File.Flush | src/stdio.c:1074-1081 | The whole buffer goes into one write request and is empty afterwards; the answer to that request decides success; an unbuffered stream is left as it is and false returned |
| Streams.File.PutBytes | src/stdio.c:29-57 | The stream is afterwards what byte-by-byte output makes of it: the bytes stored in the buffer, the write requests made and success, all determined by the old stream and the answers of the kernel; text that fits the buffer is stored without a write |
| Streams.File.PutBuffered | src/stdio.c:41-56 | Copying by chunks is the same as byte-by-byte output that flushes a full buffer when there is more |
| Streams.File.WriteAll | src/stdio.c:30-40 | Unbuffered: each request holds all that has not been taken; on success exactly the given bytes have been delivered, whatever the short writes |
| Streams.File.Puti | src/stdio.c:1034-1072 | fputi outputs the decimal numeral of i in either mode, exactly as PutNumber describes it |
| Streams.File.PutiBuffered | src/stdio.c:1050-1071 | Whatever the fill level, the numeral goes the way of any text, split over flushes or not; only a negative number with a single free byte flushes first; the loop terminates |
| Streams.File.PutiUnbuffered | src/stdio.c:1036-1048 | A single write; when it succeeds, the numeral has been delivered if and only if that write was answered in full |
| Streams.AheadStep | src/stdio.c:1057-1070 | A round of the loop moves text into the buffer and is as far from the end as the specification says, except for a sign with one free byte, which waits |
| Traces.FilledThen | src/stdio.c:29-57 | Buffered output does not depend on how the text is cut into pieces, behind a failure included |
| Traces.SentThen | src/stdio.c:29-57 | Texts handed over one after the other are one text handed over, buffered or not |
| Traces.FilledFits | src/stdio.c:41-56 | Text that fits the buffer goes there and nothing is written |
| Traces.FilledMeans | src/stdio.c:41-56 | Buffered: bytes put out and bytes lost add up to what there was and the text; the buffer stays within 1024 bytes; failure means a new failed write |
| Traces.ServedMeans | src/stdio.c:30-40 | Unbuffered: all of the text is delivered, or a proper front part of it behind a failed write |
| Traces.SentMeans | src/stdio.c:29-57 | Handing over a text fails exactly behind a new failed write; buffered, delivered and held bytes have grown by the text if and only if no byte of a write was lost |
| Traces.SentWhole | src/stdio.c:29-57 | If the writes made are answered in full (unbuffered: do not fail), handing over succeeds and the output grows by exactly the text |
| Traces.NumberMeans | src/stdio.c:1034-1072 | fputi outputs the numeral if and only if no byte is lost; buffered it fails only behind a new failed write, unbuffered it does not notice a short one |
| Traces.ShortNumber | src/stdio.c:1043 | On an unbuffered stream whose kernel takes one byte at a time, fputi of 12 prints 1 and reports success |
| Traces.RunMeans | src/stdio.c:29-57 | Over any sequence of fput_bytes, fputi and fflush and any answers, the buffer stays within its 1024 bytes, and delivered and held bytes have grown by all the texts in order if and only if no byte of a write was lost |
| Traces.RunWhole | src/stdio.c:29-57 | If every write is answered in full, all calls succeed and delivered and held bytes grow by exactly the texts in order |
| Sinks.Sink.Repeat | src/stdio.c:83-96 | n copies of a character by chunks of 64 |
| Sinks.Sink.FieldBegin | src/stdio.c:336-346 | Spaces and prefix, prefix and zeros, or the prefix alone |
| Sinks.Sink.FieldEnd | src/stdio.c:349-354 | Spaces behind a left-aligned field |
| Sinks.Sink.TextField | src/stdio.c:435-439 | A text of given length in its field |
| Sinks.FieldShape | src/stdio.c:336-354 | A field is exactly max(width, length) bytes: its text at one end, spaces for the rest, or zeros between prefix and body |
| IntegerFormat.OutputInteger | src/stdio.c:370-433 | Padding, prefix, zeros, digits and padding are handed to the stream as IntegerText specifies, up to a failed write if there is one |
| Meanings.IntegerTextMeans | src/stdio.c:370-433 | The text handed on is, in its field, a minus exactly for a negative number under a signed conversion, else a plus or a space if asked for; 0x or 0X exactly in front of a nonzero hexadecimal number with # or under %p; then digits that read in radix 8, 10 or 16 as the magnitude, as many as the precision asks and no further zero in front but that of alternate octal; zeros fill the field only with 0 and no precision |
| IntegerFormat.IntegerBodyDenotes | src/stdio.c:389-424 | Zeros and digits denote the absolute value in the base, number at least the precision, are missing only for 0 at precision 0 outside %#o, and start with 0 under %#o |
| IntegerFormat.DigitsOf | src/stdio.c:389-402 | The digits at the end of the 24-byte buffer, moved to its front, are the canonical numeral |
| IntegerFormat.ShiftDown | src/stdio.c:399-401 | The overlapping move down keeps the text |
| Bignum.BigMul | src/stdio.c:531-543 | The limbs represent exactly the old value times the factor, stay below 10^9 and within 1300, no superfluous limb on top |
| Bignum.MulLimb | src/stdio.c:534-536 | limb * factor + carry fits 64 bits and the new carry is below the factor |
| Bignum.CarryFits | src/stdio.c:538-541 | A limb for a carry is always there while the product stays below 10^11700 |
| ExactValue.ExactIntegerBound | src/stdio.c:463-468 | Every mantissa below 2^64 with -16445 <= exp2 <= 16320 has an integer below 10^11700: 1300 limbs and 11700 digits suffice |
| ExactValue.DecimalMeans | src/stdio.c:463-466 | A decimal equal to the exact integer at its scale equals mantissa * 2^exp2, as cross-multiplied integers |
| ExactValue.HalveStep | src/stdio.c:551-554 | Halving an even mantissa and raising the exponent keeps the value and does not enlarge the integer |
| Expansion.OddPart | src/stdio.c:551-554 | Stripping powers of two ends with an odd mantissa of the same value |
| Expansion.Limbs | src/stdio.c:556-562 | The limbs of the mantissa |
| Expansion.Scale | src/stdio.c:563-579 | Multiplying by chunks of 2^29 or 5^13 and a last smaller power gives m * 2^e2, or m * 5^-e2 |
| Decimals.Decimal.Set | src/stdio.c:545-604 | fp_to_decimal is exact: D * 10^(exp10 - count + 1) = mantissa * 2^exp2 for the integer D that the digits spell, with nonzero first and last digit; zero has no digits |
| Decimals.Decimal.Unpack | src/stdio.c:581-599 | The digit buffer spells the canonical numeral of the limbs |
| Decimals.Decimal.UnpackTop | src/stdio.c:581-589 | The top limb without leading zeros, by way of a reversing buffer |
| Decimals.Decimal.UnpackLimb | src/stdio.c:590-598 | Nine digits of each lower limb, inner zeros included |
| Decimals.Decimal.WithoutZeros | src/stdio.c:634-636 | The zeros at the end go and the value is scaled by as many tens |
| Decimals.Decimal.AddOne | src/stdio.c:621-633 | A rounding up adds one to the kept digits; all nines become 1 with the exponent raised |
| Decimals.Decimal.Round | src/stdio.c:606-637 | For every keep, zero and negative included, the result denotes the multiple of 10^(exp10 + 1 - keep) nearest the old value, ties to even, in canonical form |
| DecimalText.RoundKept | src/stdio.c:616-619 | The test on the next digits rounds exactly as half-even does |
| DecimalText.RoundAway | src/stdio.c:611-614 | A value below a tenth of the unit rounds to zero |
| DecimalText.CarryStops | src/stdio.c:630-633 | Adding one behind which only nines stood |
| Rounding.RoundIsHalfEven | src/stdio.c:606-619 | Half-even rounding of a fraction is nearest to it, and even in a tie |
| Rounding.HalfEvenUnique | src/stdio.c:606-619 | It is the only integer that is |
| FloatValue.NearestDecimal | src/stdio.c:822-831 | Rounding the decimal expansion is rounding the binary value |
| FloatValue.ExponentMeans | src/stdio.c:474 | The decimal exponent is the only x with 10^x <= m * 2^e2 < 10^(x + 1) |
| FixedFormat.FixedPlaces | src/stdio.c:659-684 | The digits taken place by place, zeros in front and behind included, are integer part, point and exactly p fraction digits |
| FixedFormat.OutputFixed | src/stdio.c:655-685 | fp_output_fixed prints n * 10^-p for the n that the rounded decimal denotes, in a field whose computed length is the length printed |
| FixedFormat.OutputExponent | src/stdio.c:688-731 | fp_output_exponent prints n * 10^(x - p) with p + 1 digits and an exponent of at least two |
| FixedFormat.FilledUp | src/stdio.c:709-719 | Significant digits filled up with zeros are the p + 1 digits of that n |
| FixedFormat.NumeralLength | src/stdio.c:645-652 | fp_count_digits is the length of the numeral |
| FixedFormat.FillDigits | src/stdio.c:721-726 | Exponent digits written backwards |
| HexFormat.RoundHex | src/stdio.c:752-766 | Bits below the last digit round the mantissa half-even; a carry to 0x10 becomes 1 with exponent + 4 |
| HexFormat.ShortestPlaces | src/stdio.c:745-751 | Without a precision, trailing zero nibbles go and nothing else |
| HexFormat.ShownDigits | src/stdio.c:788-793 | Lead digit and shifted-out nibbles are the p + 1 hexadecimal digits of the number shown |
| HexFormat.OutputHex | src/stdio.c:733-803 | fp_output_hex prints n * 2^(e - 4p) in a field of the computed length |
| FloatFormat.OutputFloat | src/stdio.c:805-873 | Every floating conversion hands FloatText of its argument to the stream, up to a failed write if there is one |
| Meanings.FloatTextMeans | src/stdio.c:805-873 | The text handed on is, in its field, a minus exactly for a negative value (zero, infinity and NaN included), else a plus or a space if asked for, 0x or 0X under %a, then the magnitude rounded once half-even: p places of it, p + 1 leading digits with an exponent of two digits or more, the style of %g by the exponent after rounding, or hexadecimal digits; else inf or nan, in the case of the letter; zeros fill the field of finite values only |
| FloatBits.SplitDouble | src/stdio.c:508-527 | Every bit pattern of a double lies in the range for which the conversions are proved |
| FloatBits.SplitLongDouble | src/stdio.c:488-507 | Likewise for every x87 long double |
| FloatBits.DoubleFields | src/stdio.c:508-527 | Sign, exponent and fraction put together as IEEE 754 does and split again are the number, the infinity or the NaN that they stand for, subnormals included |
| FloatBits.LongDoubleFields | src/stdio.c:488-507 | The same for the x87 format, pseudo-denormals included |
| FloatBits.DoublesDiffer | src/stdio.c:508-527 | Splitting loses nothing of a finite double |
| FloatFormat.OutputFixedStyle | src/stdio.c:835-840 | %f: converted exactly, rounded once at 10^-p |
| FloatFormat.OutputScientificStyle | src/stdio.c:841-844 | %e: rounded once to p + 1 significant digits |
| FloatFormat.OutputSmartStyle | src/stdio.c:846-872 | %g: rounded once, the style chosen by the exponent after rounding, zeros dropped without # |
| FloatFormat.SignificantDenotes | src/stdio.c:841-851 | After rounding to p + 1 digits the decimal has the digits and the exponent of the rounded value, a carry included |
| FloatFormat.DropDecimal | src/stdio.c:853-872 | The digits that %g leaves out are zeros and all of the zeros at the end of the fraction |
| FloatMeaning.FixedMeans | src/stdio.c:835-840 | %f text reads back as N / 10^p for the N nearest m * 2^e2 * 10^p, ties to even; exactly p fraction digits, no superfluous leading zero |
| FloatMeaning.ScientificMeans | src/stdio.c:841-844 | %e text reads back as n * 10^(x - p), the value rounded half-even to its p + 1 leading digits, n having exactly p + 1 digits |
| FloatMeaning.SmartMeans | src/stdio.c:846-872 | %g text denotes the same number as %e, in fixed style exactly when -4 <= X < P for the exponent X after rounding; without # no zero is left at the end of its fraction |
| FloatMeaning.HexMeans | src/stdio.c:733-803 | %a text denotes m * 2^e2 exactly without a precision, with no trailing zero, and else its half-even rounding to that many hexadecimal digits |
| FloatTexts.FixedReads | src/stdio.c:655-685 | Reading fixed text back gives its number and its number of places |
| FloatTexts.ScientificReads | src/stdio.c:688-731 | Reading exponent text back gives number, places and exponent |
| FloatTexts.HexReads | src/stdio.c:768-803 | Reading hexadecimal text back gives number, places and exponent |
| Formats.NextItem | src/stdio.c:951-1012 | The first item of a nonempty format spells a nonempty front part of it: each pass strictly advances |
| Formats.SpellParsed | src/stdio.c:951-1019 | Literal runs, %%, conversions and unknown conversions cut the format up without loss or overlap |
| Formats.ParseSpelled | src/stdio.c:951-1019 | Every well-formed sequence of items parses back out of its spelling |
| Rendering.StringLengthIs | src/stdio.c:932-936 | A string is read up to its zero or the precision and never beyond |
| Rendering.RenderAppend | src/stdio.c:951-1019 | Items take their arguments from left to right: what follows items a is rendered with the arguments and the count that a leaves |
| Rendering.CountStores | src/stdio.c:875-900 | %n stores the number congruent to the characters printed so far that lies in the range of its signed type of 8, 16, 32 or 64 bits, hence that number itself while the type holds it |
| Printf.GetFlags | src/stdio.c:109-134 | The run of flag characters and the flags in it |
| Printf.ParseNumber | src/stdio.c:98-107 | The run of digits and its value |
| Printf.GetLength | src/stdio.c:136-173 | The longest length modifier at the cursor |
| Printf.GetSpecifier | src/stdio.c:176-229 | The conversion and its letter case, or none; what each letter means is stated by the Directives rows |
| Printf.GetData | src/stdio.c:234-333 | An integer argument cut to the type its length modifier names, sign-extended for %d and %i and zero-extended for the unsigned conversions |
| Printf.GetAmount | src/stdio.c:975-998 | A width or precision from the format or from the next argument |
| Printf.GetConversion | src/stdio.c:973-1006 | Cursor, argument position and conversion state after a conversion; a negative width means left alignment, which overrides leading zeros |
| Printf.OutputWideString | src/stdio.c:442-459 | Wide characters up to the precision, or failure before any output if one is not ASCII |
| Printf.OutputText | src/stdio.c:928-938 | %s of bytes, wide characters or no string |
| Printf.OutputFormatted | src/stdio.c:902-941 | Each conversion prints what is specified for its kind of argument |
| Printf.OutputItem | src/stdio.c:951-1019 | One pass of the loop renders one item and moves cursor and arguments on by what it spells and takes |
| Directives.IntegerDirective | src/stdio.c:176-433 | Any flags, width, precision and length modifier with d, i, u, o, x, X or p, spelled out in characters: the argument modulo 2^8, 2^16, 2^32 or 2^64, signed for d and i, is printed in radix 10, 8 or 16 in the case of the letter, as IntegerTextMeans says; a null pointer is (nil) |
| Directives.FloatDirective | src/stdio.c:176-873 | The same with f, F, e, E, g, G, a or A: the value in fixed, exponent, shorter or hexadecimal style in the case of the letter, as FloatTextMeans says |
| Directives.CharDirective | src/stdio.c:920-927 | c prints one byte in its field; under l a character from 0x80 on fails and prints nothing |
| Directives.StringDirective | src/stdio.c:928-938 | s prints the characters in front of the first zero, at most as many as the precision; wide ones one byte each, or nothing and failure if one of them is not ASCII; (null) for no string |
| Directives.CountDirective | src/stdio.c:875-900 | n anywhere in a format stores the characters printed in front of it as a signed integer of 8 bits with hh, 16 with h, 64 with l, ll, z, t or j, else 32: the one congruent to it, and it itself while it fits |
| Directives.UnknownDirective | src/stdio.c:973-1010 | What looks like a directive but goes on with another character, or with none at the end, is printed as it stands; its stars take their arguments |
| Directives.PlainText | src/stdio.c:951-970 | Text without a per cent sign is printed as it is, %% as one |
| Directives.EveryItem | src/stdio.c:951-1010 | Every item of every format is one of these: text, %%, a directive with one of the eighteen conversion characters, or a longest piece that goes on with another character; only the last one may end early |
| Directives.AnyPlace | src/stdio.c:951-1019 | An item anywhere in a format prints, behind what the items in front have printed and with the arguments they have left, what it prints as a format of its own (n apart); a conversion that fails is the last |
| Directives.DirectiveSupplied | src/stdio.c:973-1013 | A caller owes a directive exactly an int for each star and behind them a value of the kind that its letter names |
| Directives.SuppliedTogether | src/stdio.c:951-1019 | The arguments for some items and behind them those for others are the arguments for all of them |
| Printf.Fprintf | src/stdio.c:943-1024 | fprintf refines parse-then-render: the text of all items in order is handed to the stream and the counts are stored; it fails only behind a new failed write or at a conversion that cannot be printed; when its writes are answered in full, delivered and held bytes grow by exactly that text |

## Left out

- Heaps.Heap.Malloc: requests of 128 KB and more go to mmap, a foreign call; the model asks for a smaller one, and with it that `n + 15` does not wrap.
- Heaps.Heap.Free: blocks that came from mmap go back by munmap and are not modelled; freeing anything but a live pointer is undefined and excluded.
- System calls, `_start` and assembly: only the oracles for `brk` and `write` stand for the kernel; `write` is taken never to return 0 for a nonempty request, `brk` to return the request or the old break, and the answers not to depend on the requests.
- Start-up failure: the program exits when the kernel refuses the initial break; the model starts behind that test.
- `memcpy_small`: the move of footer and sentinel in `extend` is a plain copy of two cells.
- NULL arguments of the conversions and of `atoi`: one guard that returns 0.
- Conversions.UtoaGeneric: values inside the reserved band that pack no digit string are excluded (`Resumable.Proper`), since for them the code looks up a digit at or behind the end of its table.
- Conversions.ItoaGeneric: the same values are excluded, for the same reason.
- Resumable.BandExactly: on those values it speaks of `Step`, which stands in for that look-up; `RawDecimals.DecimalExactly` is about the code of itoa on every value.
- Conversions.Atoi: numbers whose magnitude exceeds 2147483647 are excluded, since the C code overflows an int there.
- Printf.ParseNumber: widths and precisions are unbounded here; int overflow in the C code is outside the model, as are fields so long that their lengths overflow an int.
- Printf.GetConversion: a width of INT_MIN among the arguments counts as 2147483648 to the left; its negation overflows in C.
- Printf.Fprintf: arguments come in a sequence, an integer or pointer as 64 bits; how va_list holds them is not modelled, nor are the places that `%n` writes to, of which the values stored are returned in order. The integer types are those of a 64-bit target.
- FloatFormat.OutputFloat: starts from the parts that `FloatBits` splits off; the way of a double through long double and back is exact and not modelled.
- `fputs`, `fputc`, the registration of flushing at exit, and the two global streams: single calls of what is modelled.
- `__print_heap`, the counters compiled for tests only, and the malloc lock hooks: printing or empty functions.
- String and memory routines, `exit` handlers, `assert`: separate from the three components modelled.
