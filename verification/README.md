# Verified models of libdivide, AviSynth handles and UTF-8 scanning

This project models three pieces of C++ code and proves properties of them.

**Division by an invariant integer** (`include/libdivide.h`). A generator turns a divisor into a magic
factor and a byte of bit fields; afterwards every division is a multiply-high, an optional add and a
shift. The generators are methods with the source's loops and branches (`UnsignedDivide`,
`SignedDivide`, over `LongDivision`), and each is proved to produce `Reciprocal(w, d)`, a definition by
rounded-up powers of two. The divisions are functions (`UnsignedDivide.Do`, `SignedDivide.Do`) whose
wrap-around is written out, and the main theorems, `UnsignedDivide.DivisionExact` and
`SignedDivide.DivisionExact`, say that dividing by `Reciprocal(w, d)` is C's division for every
numerator and every non-zero divisor. `MagicNumbers` holds the width-independent theory; widths 32 and
64 are instances. `MultiplyHigh` covers the portable schoolbook products, `Denominators` the bit fields,
`Dividers` the specialised algorithms and the meaning of `unswitch` and `operator==`, `Vectors` and
`VectorAlgorithms` the SSE2 lanes, `DividerObjects` the divider classes. Unsigned words are natural
numbers below 2^w, signed ones are two's complement, and `>>` on a signed value rounds down, as the file
itself expects.

**AviSynth handles and frame rates** (`include/avisynth/avisynth25.h`). `ClipHandles` is the heap of
clips, `PClip` handles and `AVSValue`s with the source's methods in the source's order; a ghost registry
knows which objects are alive, and every operation keeps the counting invariant; `Chains` is the theory
of the chains of children. `ClipThreads` is the same protocol under concurrency: a state machine in
which the interlocked increment, the interlocked decrement with its test, the deletion and the pointer
store are separate steps of any number of threads; its theorems hold for every schedule. `ClipOutcomes`
says what each operation of it leaves behind when it completes. `FrameBuffers` shows what the two counts
behind `IsWritable` mean. `FrameRate` is `SetFPS` and `MulDivFPS`.

**UTF-8 boundaries** (`include/Utf8.h`). `Utf8` proves that scanning backwards agrees with parsing
forwards, and compares the code's notion of a character with section 4 of RFC 3629.

`Bits` and `Words` hold powers of two, floor division, the bitwise operators and machine words.

Where the documentation, or what a reader would expect, and the code differ, the model follows the code:

- The comment on `libdivide_128_div_64_to_64` suggests a general 128 by 64 bit division. With a divisor
  whose top bit is set the code merges the low word of the dividend into the high one, so the result is
  the true quotient exactly when the merge changes nothing (`LongDivision.ExactDivision`), as long as
  the merged word is below the divisor; otherwise it is `LongDivision.MergedQuotient`, which is wrong
  for some dividend of every such divisor (`LongDivision.MergedQuotientWrong`). Both callers pass a zero
  low word.
- The field table in `include/libdivide.h:80-101` calls the shift-path bit "bit 6" in its prose and bit
  7 in its u32 table; the code uses bit 7.
- `MulDivFPS` is called range protected, but its shift helper takes the count modulo 32. From 2^62 on
  the count reaches 32 and an operand is not shifted at all, from 2^63 on it is 33 and the shift is by
  one place (`FrameRate.ShiftCountRange`, `FrameRate.ShiftCountWraps`, `FrameRate.RoundedRate`).
- Reference counts release what nothing refers to, but assigning a filter's child can make a cycle,
  which then outlives its last handle (`ClipHandles.SelfAssignedChildStays`). `ClipHandles.PClip.Set`
  says exactly when an assignment makes one.
- Assigning a clip does not always leave its count one higher: if the clip held so far dies and is a filter
  over the assigned one, that reference goes (`ClipHandles.SourceBelowHeldClip`). The count rises exactly
  when no dying filter has the clip as its child (`ClipHandles.AVSValue.Assign`).
- `isValid` accepts some three-byte and four-byte forms that RFC 3629 excludes; `Utf8.StrictlyValid`
  and `Utf8.FormsBeyondStandard` say which.

## Model

| member | source | states |
|---|---|---|
| `LongDivision.CountLeadingZeros` | include/libdivide.h:428-457 | the shift loops return w - 1 - floor(log2 val) for every non-zero word |
| `LongDivision.CountTrailingZeros32` | include/libdivide.h:388-397 | the xor loop returns the exponent of the largest power of two that divides val |
| `LongDivision.CountTrailingZeros64` | include/libdivide.h:410-415 | the same for 64 bits through the two halves |
| `LongDivision.Divide64By32` | include/libdivide.h:471-476 | the quotient is truncated to 32 bits: it is the true one if and only if u1 < v, and then the remainder is exact |
| `LongDivision.QuotientFits` | include/libdivide.h:505-508 | a two-digit dividend has a one-digit quotient if and only if its high digit is below the divisor |
| `LongDivision.QuotientDigit` | include/libdivide.h:528-544 | each goto loop makes at most two corrections, ends, and leaves the true quotient digit, its comparison being done in 64-bit arithmetic; for every input the result is the first estimate that passes the test or whose remainder has reached b |
| `LongDivision.EstimateBounds` | include/libdivide.h:528-529 | the first estimate is never below the true digit and at most b + 1 |
| `LongDivision.DigitTest` | include/libdivide.h:531-531 | the correction test decides whether the estimate exceeds the true digit |
| `LongDivision.LargeRemainder` | include/libdivide.h:532-534 | once rhat reaches b the estimate cannot be too large |
| `LongDivision.NormaliseOperands` | include/libdivide.h:510-520 | normalisation scales divisor and dividend by the same power of two without loss and sets the divisor's top bit; a divisor that has it already leaves the operands as they are except for the merge of the high word |
| `LongDivision.TwoDigits` | include/libdivide.h:536-548 | the two exact digits make the whole quotient, and both remainders computed with wrap-around are the true ones |
| `LongDivision.MergedRemainder` | include/libdivide.h:536-547 | the final remainder belongs to the returned quotient modulo 2^64 even when the digits overflow |
| `LongDivision.Divide128By64` | include/libdivide.h:496-549 | for every input: the true quotient and remainder for v < 2^63, those of the dividend with the merged high word for other v above it, the quotient when the merged high word is not below the divisor, a remainder that always belongs to the quotient, and the overflow answer when u1 >= v |
| `LongDivision.ExactDivision` | include/libdivide.h:516-520 | with a merged high word below v the quotient is the true 128 by 64 bit quotient if and only if v < 2^63 or the merge leaves u1 as it is, in particular for u0 = 0 |
| `LongDivision.MergedQuotientWrong` | include/libdivide.h:516-520 | with a merged high word not below v, every divisor with its top bit set has a wrong quotient: v divided by v |
| `LongDivision.MergedQuotientSporadic` | include/libdivide.h:516-520 | and 2^63 + 2^32 over 2^63 shows that a quotient can be right there |
| `LongDivision.NormalisedDivisorCounterexample` | include/libdivide.h:516-520 | dividing 1 by 2^63 gives quotient 2 |
| `MagicNumbers.MagicQuotient` | include/libdivide.h:576-590 | a rounded-up reciprocal with excess e divides exactly whenever e * n stays below the scaling power |
| `MagicNumbers.MagicQuotientNegative` | include/libdivide.h:823-838 | for negative numerators the floored product is one below the truncated quotient |
| `MagicNumbers.ReciprocalRange` | include/libdivide.h:573-575 | a reciprocal of a non-power of two lies strictly inside a binade with non-zero remainder, so it neither overflows nor loses its top bit |
| `MagicNumbers.DoubledQuotient` | include/libdivide.h:584-587 | doubling quotient and remainder and correcting once divides the doubled dividend |
| `MultiplyHigh.MulHiU32Exact` | include/libdivide.h:211-215 | the upper half of the 32-bit product |
| `MultiplyHigh.MulHiU64Exact` | include/libdivide.h:223-234 | the portable code returns floor(x * y / 2^64) for all x and y |
| `MultiplyHigh.SchoolbookSum` | include/libdivide.h:232-234 | no intermediate sum of it reaches 2^64 |
| `MultiplyHigh.MulHiS32Exact` | include/libdivide.h:800-804 | the floor of the signed product over 2^32 |
| `MultiplyHigh.MulHiS64Exact` | include/libdivide.h:244-251 | the floor of the signed product over 2^64 for all x and y |
| `MultiplyHigh.SignedSchoolbookSum` | include/libdivide.h:249-251 | no intermediate sum of it overflows a signed word |
| `Denominators.MoreFields` | include/libdivide.h:80-101 | every masked read of the byte returns its own field: the fields never collide |
| `Denominators.OrFields` | include/libdivide.h:566-588 | the unsigned generators' bitwise or assembles those fields |
| `Denominators.OrFieldsSigned` | include/libdivide.h:813-835 | so does the signed generators' |
| `Bits.PowerOfTwoHasOneBit` | include/libdivide.h:564-564 | d & (d - 1) is zero if and only if d is a power of two |
| `UnsignedDivide.OneWordReciprocal` | include/libdivide.h:573-582 | the test e < 2^floor_log_2_d decides whether the one-word reciprocal suffices, and adding one yields it without overflow |
| `UnsignedDivide.LongReciprocal` | include/libdivide.h:584-590 | otherwise the doubled remainder does not wrap and the doubled quotient plus one, taken modulo 2^w, is the low word of the longer reciprocal |
| `UnsignedDivide.AddStepExact` | include/libdivide.h:604-608 | ((numer - q) >> 1) + q never wraps and is the product by the factor with its implicit top bit |
| `UnsignedDivide.GeneralPath` | include/libdivide.h:604-608 | the add path divides exactly by every divisor that is not a power of two |
| `UnsignedDivide.SmallPath` | include/libdivide.h:604-611 | the one-word path divides exactly whenever it is chosen |
| `UnsignedDivide.OneWordSufficesExactly` | include/libdivide.h:573-582 | the excess of the one-word reciprocal over 2^(w + l) / d, times d, decides whether it is used, where 2^l is the power of two at or below d |
| `UnsignedDivide.ReciprocalFields` | include/libdivide.h:562-596 | the pair field by field: factor 0 and byte l + 0x80 for powers of two and for them alone; byte l and the factor with magic * d = 2^(w + l) + excess when the excess is below 2^l; otherwise byte l + 0x40 and the factor with 2^(w + 1 + l) < (2^w + magic) * d < 2^(w + 1 + l) + d |
| `UnsignedDivide.ReciprocalBits` | include/libdivide.h:718-733 | what the masked reads of the byte return: the shift is l, the shift path marks exactly the powers of two, the add marker exactly the divisors without a one-word reciprocal, bit 5 is clear for u32 |
| `UnsignedDivide.GenU32` | include/libdivide.h:562-596 | the 32-bit generator yields the specified reciprocal for every divisor, and for a power of two the factor 0 and the marked shift |
| `UnsignedDivide.GenU64` | include/libdivide.h:683-716 | the 64-bit generator does, through the 128 by 64 bit division |
| `UnsignedDivide.DivisionExact` | include/libdivide.h:718-733 | dividing by the generated pair is n / d for every n and every d > 0, in both widths |
| `SignedDivide.RoundedShiftExact` | include/libdivide.h:847-850 | the tweaked arithmetic shift divides by a power of two toward zero, shift w - 1 included |
| `SignedDivide.MagicTruncates` | include/libdivide.h:856-863 | flooring the product and adding one to a negative result truncates toward zero |
| `SignedDivide.SmallPath` | include/libdivide.h:825-829 | the path without the add marker gives the truncated quotient, for divisors of either sign |
| `SignedDivide.AddPath` | include/libdivide.h:857-860 | adding the signed numerator restores the part of the factor that does not fit a signed word, without overflow |
| `SignedDivide.LongPath` | include/libdivide.h:856-863 | the add path gives the truncated quotient, for divisors of either sign |
| `SignedDivide.AbsWordExact` | include/libdivide.h:810-810 | the wrapped negation is the right magnitude, the minimum included |
| `SignedDivide.SignedMagicExact` | include/libdivide.h:838-838 | the cast and negation of the proposed factor |
| `SignedDivide.ReciprocalFields` | include/libdivide.h:806-843 | the signed pair field by field in terms of the magnitude and the sign of the divisor: factor 0 for powers of two and their negatives alone, with bit 5 in s32; shift l - 1 and the signed factor on the plain path; shift l, add marker and sign bit, and the factor 2^w too small, on the add path |
| `SignedDivide.ReciprocalBits` | include/libdivide.h:1012-1033 | what the masked reads of the byte return, for both widths |
| `SignedDivide.GenS32` | include/libdivide.h:806-843 | the 32-bit generator yields the specified pair for every non-zero divisor |
| `SignedDivide.GenS64` | include/libdivide.h:975-1010 | so does the 64-bit generator |
| `SignedDivide.Divide` | include/libdivide.h:845-865 | the routine that updates q step by step returns the wrapped truncated quotient whenever its denominator was generated for the divisor |
| `SignedDivide.DivisionExact` | include/libdivide.h:1012-1033 | dividing by the generated pair is the truncated quotient, wrapped to the word, for every numerator and non-zero divisor in both widths |
| `SignedDivide.OverflowOnlyForMinimumOverMinusOne` | include/libdivide.h:1012-1033 | the result is the truncated quotient itself if and only if the pair is not (minimum, -1) |
| `Dividers.UnsignedSpecialisation` | include/libdivide.h:616-637 | the algorithm a denominator reports computes what the general one computes |
| `Dividers.UnsignedClass` | include/libdivide.h:736-741 | which divisors report which algorithm, by the bits and the excess of the divisor |
| `Dividers.UnsignedUnswitch` | include/libdivide.h:743-756 | a specialised unsigned divider divides and never aborts |
| `Dividers.SignedSpecialisation` | include/libdivide.h:867-908 | the same for the five signed algorithms on every well-formed denominator |
| `Dividers.SignedClass` | include/libdivide.h:1036-1042 | generated denominators are well-formed, so algorithm 4 may use the byte unmasked, and the class tells the sign and kind of the divisor, by its bits and excess |
| `Dividers.SignedUnswitch` | include/libdivide.h:1044-1078 | a specialised signed divider divides |
| `Dividers.UnsignedEquality` | include/libdivide.h:1302-1302 | magic and more are equal if and only if the divisors are |
| `Dividers.SignedEquality` | include/libdivide.h:1302-1302 | the same for signed divisors |
| `DividerObjects.UnsignedDivider.constructor` | include/libdivide.h:1285-1285 | a divider object holds the reciprocal of its divisor |
| `DividerObjects.UnsignedDivider.Unswitch` | include/libdivide.h:1307-1309 | unswitching to any algorithm number keeps the divisor and its denominator |
| `DividerObjects.UnsignedDivider.PerformDivide` | include/libdivide.h:1291-1291 | dividing by an object of matching algorithm is n / d, and the division aborts exactly for algorithms 3 and 4 |
| `DividerObjects.UnsignedDivider.PerformDivideVector` | include/libdivide.h:1293-1296 | so is the vector division, in every lane |
| `DividerObjects.UnsignedDivider.Equals` | include/libdivide.h:1302-1302 | comparing the fields decides equality of divisors |
| `DividerObjects.SignedDivider.constructor` | include/libdivide.h:1285-1285 | the signed divider object |
| `DividerObjects.SignedDivider.Unswitch` | include/libdivide.h:1307-1309 | the same for signed dividers |
| `DividerObjects.SignedDivider.PerformDivide` | include/libdivide.h:1291-1291 | dividing by an object of matching algorithm is C's quotient except exactly for (minimum, -1), which wraps |
| `DividerObjects.SignedDivider.PerformDivideVector` | include/libdivide.h:1293-1296 | so is the vector division, in every lane |
| `DividerObjects.SignedDivider.Equals` | include/libdivide.h:1302-1302 | comparing the fields decides equality of divisors |
| `Vectors.MulHiU32FlatWords` | include/libdivide.h:317-322 | even and odd products, shifted and masked, are the upper halves of all lanes |
| `Vectors.MulHiU64FlatExact` | include/libdivide.h:326-342 | the vector schoolbook product is floor(x * y / 2^64) |
| `Vectors.LaneMulHiExact` | include/libdivide.h:345-374 | unsigned multiply-high less two masked corrections is the pattern of the signed one |
| `Vectors.ShiftRightVectorExact` | include/libdivide.h:307-314 | (x ^ m) - m is the arithmetic right shift for every amount from 0 to 63 |
| `Vectors.SignBits64Exact` | include/libdivide.h:295-300 | duplicating the high word and shifting spreads the sign of a 64-bit lane |
| `Vectors.HalfU32` | include/libdivide.h:643-662 | both lanes of a half equal the scalar u32 division, for any denominator |
| `Vectors.HalfU64` | include/libdivide.h:759-777 | the lane equals the scalar u64 division, for any denominator |
| `Vectors.LaneDoExact` | include/libdivide.h:1082-1104 | what the vector code does in a lane is the pattern of the scalar signed division |
| `Vectors.HalfS32` | include/libdivide.h:911-932 | the s32 vector code does that in both lanes of a half |
| `Vectors.HalfS64` | include/libdivide.h:1082-1104 | the s64 vector code does |
| `Vectors.VectorU32Exact` | include/libdivide.h:643-662 | all four lanes hold n / d |
| `Vectors.VectorU64Exact` | include/libdivide.h:759-777 | both lanes hold n / d |
| `Vectors.VectorS32Exact` | include/libdivide.h:911-932 | all four lanes hold the truncated quotient of the lane's signed value |
| `Vectors.VectorS64Exact` | include/libdivide.h:1082-1104 | both lanes do |
| `VectorAlgorithms.UnsignedHalfSpecialisation` | include/libdivide.h:664-677 | the specialised unsigned vector algorithms agree with the general one |
| `VectorAlgorithms.ApplySignHalfExact` | include/libdivide.h:934-946 | the sign mask keeps or negates every lane, as algorithms 0 and 1 do outright |
| `VectorAlgorithms.AddNegated` | include/libdivide.h:948-962 | adding negated lanes is the subtraction of algorithm 3 |
| `VectorAlgorithms.SignedHalfSpecialisation` | include/libdivide.h:1106-1143 | the five specialised signed vector algorithms agree with the general one on well-formed denominators |
| `VectorAlgorithms.UnsignedVectorDivides` | include/libdivide.h:779-792 | the vector algorithm that a generated denominator reports, like the general one, leaves n / d in every lane |
| `VectorAlgorithms.SignedVectorDivides` | include/libdivide.h:1106-1143 | and the truncated quotient in every lane in the signed case |
| `ClipHandles.IClip.AddRef` | include/avisynth/avisynth25.h:439-439 | counts one more reference, which is then in flight |
| `ClipHandles.IClip.Release` | include/avisynth/avisynth25.h:440-440 | gives up one reference: the last one deletes the clip, otherwise nothing is deleted; every surviving clip loses this reference and one for each dying filter whose child it was, and no clip is left behind with a count that this took to zero |
| `ClipHandles.IClip.Delete` | include/avisynth/avisynth25.h:440-440 | deletion destroys the child handle and cascades down the chain, which ends for every shape of the graph; every surviving clip loses one reference for each dying filter whose child it was |
| `ClipHandles.ClipDeleted` | include/avisynth/avisynth25.h:440-440 | a clip of count zero is referred to by nothing alive, so its deletion leaves no dangling handle or value |
| `ClipHandles.HandleRemoved` | include/avisynth/avisynth25.h:491-491 | a dying handle leaves exactly one reference to give up |
| `ClipHandles.HandleAdded` | include/avisynth/avisynth25.h:468-471 | a new handle accounts for exactly one added reference |
| `ClipHandles.CountsAreReferences` | include/avisynth/avisynth25.h:435-491 | what the invariant says of the objects themselves: the count of a live clip is the number of live handles that point to it plus the number of live clip values that do, and nothing alive, child handles included, points to a dead clip |
| `ClipHandles.PClip.Init` | include/avisynth/avisynth25.h:468-471 | construction and copy construction |
| `ClipHandles.PClip.Set` | include/avisynth/avisynth25.h:472-476 | assignment to any live handle, the child member of a filter included, stores the pointer; the assigned clip gains one reference, the old one loses one, and every clip loses one for each dying filter whose child it was; the old clip dies if and only if this was its last reference, and otherwise none does; no clip is left with a count this took to zero; the chains of children stay acyclic if and only if the chain of the assigned clip does not lead to the filter whose child it becomes |
| `ClipHandles.NothingUnreachable` | include/avisynth/avisynth25.h:435-476 | while the chains are acyclic every live clip lies below a handle or value from outside |
| `ClipHandles.AllGone` | include/avisynth/avisynth25.h:435-476 | once no handle or value is left outside, the clips are gone if and only if the chains were acyclic |
| `ClipHandles.SelfAssignedChildStays` | include/avisynth/avisynth25.h:472-476 | a filter that is made its own child outlives its last handle: assignment does not prevent cycles |
| `ClipHandles.AssignableWhileAcyclic` | include/avisynth/avisynth25.h:472-476 | while the chains are acyclic the child of every live filter may be assigned, whoever holds the filter |
| `Chains.RelinkedAcyclic` | include/avisynth/avisynth25.h:472-476 | storing one link keeps chains acyclic if and only if the stored chain does not lead back to its owner |
| `ClipHandles.PClip.ExchangeReference` | include/avisynth/avisynth25.h:473-474 | the new clip is counted before the old one is released, so the two may be the same or depend on each other |
| `ClipHandles.PClip.Assign` | include/avisynth/avisynth25.h:483-483 | assignment from any live handle, itself and a handle inside the clip being deleted included, ends with the source's old pointer |
| `ClipHandles.PClip.Destroy` | include/avisynth/avisynth25.h:491-491 | destruction removes the handle and, with the last reference, the clip, with the count of every surviving clip |
| `ClipHandles.NewSource` | include/avisynth/avisynth25.h:442-442 | a new clip is uncounted |
| `ClipHandles.NewFilter` | include/avisynth/avisynth25.h:613-613 | constructing a filter adds exactly one reference to its source, the by-value parameter coming and going, and makes no cycle |
| `ClipHandles.AVSValue.Init` | include/avisynth/avisynth25.h:531-540 | a clip value, on a filter or on a source clip, raises the count of its clip by one; no other count changes, and every other kind of value takes none |
| `ClipHandles.AVSValue.Assign` | include/avisynth/avisynth25.h:590-603 | assignment copies tag, size and payload; the source's clip gains one reference, the held one loses one, and every clip loses one for each dying filter whose child it was; the held clip dies if and only if this was its last reference, and otherwise none does; no clip is left with a count this took to zero |
| `ClipHandles.AVSValue.ExchangeReference` | include/avisynth/avisynth25.h:591-594 | the source's clip is counted before the held one is released, with the same effect on the counts |
| `ClipHandles.AVSValue.Destroy` | include/avisynth/avisynth25.h:542-542 | destruction lowers the count of the held clip by one, or deletes it if that was the last reference, with the count of every surviving clip |
| `ClipHandles.SourceBelowHeldClip` | include/avisynth/avisynth25.h:590-594 | assigning to a value the clip below the filter that only this value kept alive does not raise the count of that clip |
| `ClipThreads.Increments` | include/avisynth/avisynth25.h:439-439 | the interlocked increment keeps the invariant |
| `ClipThreads.Decrements` | include/avisynth/avisynth25.h:440-440 | the interlocked decrement with its test does |
| `ClipThreads.Deletes` | include/avisynth/avisynth25.h:440-440 | deletion by the thread that saw zero does, and passes the child's reference to that thread |
| `ClipThreads.LetsGo` | include/avisynth/avisynth25.h:472-476 | between the decrement and the store the handle still holds its stale pointer, which counts for nothing |
| `ClipThreads.Finishes` | include/avisynth/avisynth25.h:472-476 | the pointer store turns the reference in flight into the handle's |
| `ClipThreads.Unreferenced` | include/avisynth/avisynth25.h:440-440 | a clip about to be deleted is referred to by no handle, filter or thread, and claimed by one thread only |
| `ClipThreads.StepSafe` | include/avisynth/avisynth25.h:439-476 | every step of every thread touches only live clips and keeps the invariant; what the steps of an operation add up to is stated by `ClipOutcomes` |
| `ClipThreads.NoInterleavingFaults` | include/avisynth/avisynth25.h:439-476 | no schedule uses a deleted clip or deletes one twice |
| `ClipThreads.CountIsReferences` | include/avisynth/avisynth25.h:439-476 | in every reachable state a count is the number of handles that still account for the clip, of children, and of references in flight, and it is zero exactly while one thread alone is about to count or delete the clip |
| `ClipThreads.OneDeleter` | include/avisynth/avisynth25.h:440-440 | exactly the thread whose decrement reaches zero goes on to delete |
| `ClipThreads.QuiescentCounts` | include/avisynth/avisynth25.h:435-476 | between operations a count is the number of handles and children, and positive |
| `ClipThreads.NothingOutlivesTheHandles` | include/avisynth/avisynth25.h:435-476 | once every handle is gone no clip is left |
| `ClipThreads.OperationsEnd` | include/avisynth/avisynth25.h:440-476 | wait freedom: an operation, its cascade included, is over after a bounded number of its thread's own steps, whatever the others do |
| `ClipOutcomes.DeadClipFaults` | include/avisynth/avisynth25.h:439-440 | every step that would use a clip that is not alive is a fault, so that the absence of faults means something |
| `ClipOutcomes.EveryOperationCompletes` | include/avisynth/avisynth25.h:440-476 | an operation that an idle thread begins in any reachable state completes once its thread has had twice as many turns as there have ever been clips, and nine more, under any schedule |
| `ClipOutcomes.AssignmentOutcome` | include/avisynth/avisynth25.h:472-483 | when an assignment completes, under any interleaving, the target holds the pointer that the source held when it began, and no other handle of the thread has changed |
| `ClipOutcomes.ChildAssignmentOutcome` | include/avisynth/avisynth25.h:472-483 | the same for assignment from the child of a filter |
| `ClipOutcomes.DestructionOutcome` | include/avisynth/avisynth25.h:491-491 | when a destruction completes the handle is gone, and no other handle of the thread has changed |
| `ClipOutcomes.NewSourceOutcome` | include/avisynth/avisynth25.h:442-475 | when the construction of a source clip completes the handle holds a live clip that did not exist before and has no child |
| `ClipOutcomes.NewFilterOutcome` | include/avisynth/avisynth25.h:613-613 | when the construction of a filter completes the handle holds a live clip that did not exist before and whose child is the clip it was made from |
| `ClipOutcomes.DeclarationOutcome` | include/avisynth/avisynth25.h:479-479 | a declared handle is a new one and points to nothing |
| `ClipOutcomes.GoalReached` | include/avisynth/avisynth25.h:472-476 | whatever the other threads do between its steps, an operation under way ends with its pointer store or with the end of its handle |
| `FrameBuffers.VideoFrame.Release` | include/avisynth/avisynth25.h:348-348 | giving up a reference keeps every count right; the frame ends exactly when no handle and no other reference is left, and only then does its buffer lose a reference |
| `FrameBuffers.CountsAreReferences` | include/avisynth/avisynth25.h:347-348 | what the invariant says of the objects: the count of a live frame is the number of its handles, that of a buffer the number of its live frames |
| `FrameBuffers.WritableIsUnshared` | include/avisynth/avisynth25.h:401-401 | IsWritable holds if and only if no other handle and no other live frame sees the buffer |
| `FrameBuffers.VideoFrame.GetWritePtr` | include/avisynth/avisynth25.h:403-409 | write access is granted exactly then, and advances the sequence number exactly then |
| `FrameBuffers.PVideoFrame.Init` | include/avisynth/avisynth25.h:500-503 | construction of a frame handle |
| `FrameBuffers.PVideoFrame.Set` | include/avisynth/avisynth25.h:504-508 | assignment keeps both counts; the old frame ends if and only if no handle is left on it, and no other frame does |
| `FrameBuffers.PVideoFrame.Destroy` | include/avisynth/avisynth25.h:523-523 | so does destruction |
| `FrameRate.Euclid` | include/avisynth/avisynth25.h:249-252 | the remainder loop ends with the greatest common divisor |
| `FrameRate.GcdIsGreatest` | include/avisynth/avisynth25.h:249-252 | it divides both numbers, and every common divisor divides it and is at most it |
| `FrameRate.LowestTermsMeaning` | include/avisynth/avisynth25.h:253-254 | lowest terms have no common divisor but one, and the other way round |
| `FrameRate.Normalised` | include/avisynth/avisynth25.h:253-254 | dividing by it keeps the ratio and leaves lowest terms |
| `FrameRate.LowestTermsUnique` | include/avisynth/avisynth25.h:253-254 | lowest terms are determined by the ratio |
| `FrameRate.RateUnique` | include/avisynth/avisynth25.h:243-256 | the stored pair is determined by the rate it stands for |
| `FrameRate.VideoInfo.SetFPS` | include/avisynth/avisynth25.h:243-256 | stores the positive pair in lowest terms with the ratio of the arguments, or 0/1 if one of them is zero |
| `FrameRate.ScaleShiftLeast` | include/avisynth/avisynth25.h:270-275 | the shift is the least one that brings both operands below 2^31 |
| `FrameRate.CountHalvings` | include/avisynth/avisynth25.h:270-275 | the loop over the disjunction of the operands finds it |
| `FrameRate.RoundShiftNearest` | include/avisynth/avisynth25.h:277-279 | scaled operands are rounded to nearest, do not exceed 2^31, and vanish exactly below half |
| `FrameRate.ScaledOperand` | include/avisynth/avisynth25.h:277-279 | the 32-bit and 64-bit wrap-around of the code does not disturb that for shifts up to 31 |
| `FrameRate.LargerOperandAccurate` | include/avisynth/avisynth25.h:276-279 | scaling changes the larger operand by at most one part in 2^30 |
| `FrameRate.ShiftCountFits` | include/avisynth/avisynth25.h:270-279 | the shift stays within 31 if and only if both operands are below 2^62 |
| `FrameRate.ShiftCountRange` | include/avisynth/avisynth25.h:270-275 | the shift never exceeds 33, and exceeds 32 if and only if an operand reaches 2^63 |
| `FrameRate.UnshiftedOperand` | include/avisynth/avisynth25.h:276-279 | exactly which operands come out rounded right at a shift of 32 |
| `FrameRate.RoundedRate` | include/avisynth/avisynth25.h:276-279 | exactly when a shift of 32 still stores the rate of the rounded operands: when the low words that are kept stand in the ratio of the high words that are dropped |
| `FrameRate.ShiftCountWraps` | include/avisynth/avisynth25.h:276-279 | for 2^62 over 1 the code stores 2147483648/2147483649 where the rounded operands mean 0/1 |
| `FrameRate.Reduced` | include/avisynth/avisynth25.h:264-268 | the two products over their greatest common divisor: the one pair in lowest terms with their ratio, a term being zero exactly if its product is |
| `FrameRate.VideoInfo.MulDivFPS` | include/avisynth/avisynth25.h:259-285 | the exact ratio of the two products in lowest terms when those fit 31 bits, zero products included; the rate of the rounded operands for shifts up to 31; and the rate of what the helper makes of the operands for shifts of 32 and 33, with the exact condition under which a shift of 32 still stores the rate of the rounded ones |
| `Utf8.CharacterForms` | include/Utf8.h:26-34 | the complete characters byte by byte: one byte up to 7F, or C2-DF, E0-EF, F0-F4 followed by one, two, three bytes in 80-BF |
| `Utf8.AcceptedBytes` | include/Utf8.h:37-45 | what it takes for a character to start at a position and fit, byte by byte |
| `Utf8.IsValid` | include/Utf8.h:37-45 | accepts if and only if a complete character starts at the pointer and fits, a single byte being accepted without regard to the length; stated on the bytes as well |
| `Utf8.CharacterStart` | include/Utf8.h:48-56 | the counting loop computes the scan |
| `Utf8.CharacterStartFrom` | include/Utf8.h:48-56 | rewinds at most five bytes and never below zero, on any input |
| `Utf8.ScanStops` | include/Utf8.h:50-55 | passes only continuation bytes and says where it stops, on any input |
| `Utf8.ScanFindsStart` | include/Utf8.h:47-56 | in valid text the scan finds the start of the character that contains the position |
| `Utf8.Boundaries` | include/Utf8.h:47-56 | a position is a boundary of the forward parse if and only if the scan stays there, if and only if its byte is not a continuation byte, if and only if a character can be read from it |
| `Utf8.UniqueParse` | include/Utf8.h:36-45 | valid text splits into characters in one way only |
| `Utf8.StrictlyValid` | include/Utf8.h:36-45 | exactly which accepted characters RFC 3629 allows |
| `Utf8.FormsBeyondStandard` | include/Utf8.h:36-45 | the accepted forms that RFC 3629 excludes are exactly E0 80-9F, ED A0-BF, F0 80-8F and F4 90-BF with their further bytes |
| `Utf8.OverlongFormAccepted` | include/Utf8.h:36-45 | an overlong form that is accepted |

## Left out

- LongDivision.Divide128By64: the remainder pointer is always given.
- LongDivision.ExactDivision: gives no condition for a true quotient when (u1 | u0) >= v; MergedQuotient states
  the quotient there, MergedQuotientWrong a wrong one for each divisor and MergedQuotientSporadic a right one
  for the divisor 2^63. No caller reaches that case.
- FrameRate.VideoInfo.MulDivFPS: the value of the undefined `1 << 32` at a shift of 33 is a parameter. Both
  products zero is excluded because the code divides by their greatest common divisor.
- DividerObjects.UnsignedDivider.PerformDivide: the quotients of algorithms 0 to 2 on a denominator that reports
  another one are not characterised.
- DividerObjects.SignedDivider.PerformDivide: neither are those of the signed algorithms.
- DividerObjects.SignedDivider.PerformDivideVector: excludes an unmatched algorithm 4 whose shift the code leaves
  undefined.
- FrameBuffers.NewFrame: the constructors of frames and buffers are not part of this model; that a new frame
  takes one reference to its buffer is an assumption. So are Subframe, the cache and frame recycling, and
  the chroma branch of GetWritePtr, which checks nothing.
- ClipHandles.AVSValue.Assign: both values stay alive during the assignment; a value stored inside a clip
  that the assignment deletes is not modelled, nor are array values as owners of their elements.
- ClipHandles.PClip.Set: a filter on a cycle of children whose child member is assigned must be uncounted, or
  held by a value or by a handle that is no child member; held by another filter alone it is not covered,
  since the assignment could then delete the object it works on.
- ClipHandles.PClip.Assign: the same.
- ClipHandles.NewFilter: filters with several child handles are not modelled.
- ClipThreads.StepSafe: assumes that a handle is used by one thread at a time and that the handle or clip a
  pointer is copied from is held by the copying thread; memory is sequentially consistent.
- UnsignedDivide.GenU32: divisor zero is excluded, as in the other generators; the code does not define it.
- Vectors.HalfS32: the SSE4.1 multiplication of `libdivide_mullhi_s32_flat_vector` is not modelled, nor is
  the loading of constants into registers.
- Compiler-specific branches: inline assembly, builtins and 128-bit integer types.
- The template plumbing behind `divider`.
- The video format queries of VideoInfo, the script environment, audio conversion and `avisynth1.h`.
- Every other header of the repository: declarations, identifiers and constants without logic.
