# Verified models of novachains' storage core

Dafny models of four parts of the system, with proofs of what they promise:

1. **Decimal arithmetic** (`src/bson/common_decimal.c`). A decimal is a record of base-10000 digits inside a
   buffer with a spare slot in front, a weight, a sign and a display scale. The model keeps the record and the
   buffer (`Decimals.Decimal`); the number a record denotes is an exact rational (`Magnitude`, `Val`). Addition,
   subtraction, multiplication, division, modulus, rounding, truncation, comparison, type modifiers, printing and
   reading are proved against that rational.
2. **Page allocator** (`src/dms/dmsSMEMgr.cpp`). Segments with sorted, merged free lists over one bitmap, a
   manager over the segments, whole runs of reserve, release and deposit, and the lock-free first-free hint as
   interleaved atomic steps of any number of threads.
3. **Record space and scanner** (`src/dms/dmsBlockData.cpp`, `src/dms/dmsScanner.cpp`). The body of an extent is
   memory: a header write destroys the sixteen bytes it covers, a data write destroys what it covers, so that
   records keeping apart is a theorem and not a property of the data type. On top of it: power-of-two delete
   lists linked across extents, carving, splitting, the chain of live records, the segment-ordered chain of
   extents, and the scanner. A storage unit puts the collection and the page allocator together: extents live on
   pages that the allocator reserves, and no byte of the file belongs to two of them.
4. **Two smaller algorithms**: the number-aware field-name order (`src/bson/bsonobj.cpp`) and streaming MD5
   (`src/bson/md5.c`) for an arbitrary block function.

## Layout

| files | part |
|---|---|
| `Powers`, `Digits`, `Decimals` | powers of ten, digit strings, the decimal record |
| `Compare`, `AddSub`, `Rounding`, `Accumulator`, `Multiply`, `LongDivision`, `Divide`, `Arithmetic`, `Typmod` | decimal operations |
| `DecimalText`, `DecimalPrint`, `DecimalParse`, `DecimalRoundTrip`, `DecimalGrammar` | decimal text |
| `FreeRuns`, `SpaceMap`, `SegmentSpace`, `PageAllocator`, `AllocatorRuns`, `FreeHint` | page allocator |
| `RecordHeader`, `DeleteSlots`, `ExtentBody`, `DeleteLists`, `RecordSpace`, `RecordChain`, `RecordInsert`, `ExtentChain`, `RecordStore`, `StorageUnit`, `Scanner`, `CollectionRuns` | record space |
| `FieldOrder`, `Md5` | name order, MD5 |
| `Shortfalls` | concrete inputs for promises that the code does not keep |

Vocabulary: `N(s)` is the integer a base-10000 digit string denotes, `Shift(x, e)` is x times 10^e,
`Magnitude(s, w)` is the rational of digits s whose first digit counts 10000^w. A decimal is `WellFormed` when it
is stripped and has no nonzero digit below its display scale. `Gap` names what is not as it
should be in the record space: a deleted record on no list while work is in progress (the hole), an extent carved only
up to some offset, and the records lost for good.

## Where the code falls short of what it promises

- The multiplication propagates carries only when `maxdig` would exceed INT_MAX / 9999 = 214769. The entries then
  still fit, but `dig[i] + carry` need not. `Accumulator.PassesFitExactly`: for every left operand, every sum of every
  carry pass stays within INT_MAX against all right operands if and only if `maxdig` is at most 214748 whenever a pass
  starts, the final one included, which the digits of the left operand decide (`SafeLeft`). Up to 21 digits are always
  safe (`ShortLeftIsSafe`); 22 digits 9762 against 69 digits 9999 exceed INT_MAX in the final pass
  (`OverflowingOperands`), 23 of them already in a pass on the way (`OverflowOnTheWay`). The methods carry a ghost
  result `fits` that records whether their sums stayed within INT_MAX; exactness itself is about unbounded integers.
  The long division carries one too, and there it is always true.
- `decimal_cmp` recognises zero by `ndigits == 0` only. `Compare.Cmp` is the numeric order if and only if the two
  operands are not a `ZeroClash`: both zero, and one of them still holding digits that the other lacks, or both
  holding digits under different signs. Stripped operands never clash; 0.0003 rounded to three places does
  (`Shortfalls.RoundedZeroMiscompares`).
- When two equal magnitudes cancel, `decimal_set_zero` clears the result before the operands' display scales are
  read, so a result that is also an operand loses that operand's scale. `SumScale` is the scale that comes out; it is
  the larger one if and only if not `ScaleLost` (`AddSub.ScaleKeptExactly`, instance `Shortfalls.CancelLosesScale`).
- An insert whose data is shorter than five bytes is refused only after its space was taken off the delete list, and
  nothing puts it back. `StorageUnit.Unit.InsertRecord`: the space is lost if and only if the data is that short and
  there was room for the record before the call (`RoomFor`: a large enough record among the first three of a list from
  its slot up, or pages for a new extent); a unit stays `Whole` in all other cases. `Shortfalls.ShortDataLosesSpace`
  puts four bytes into a new unit. Everything else keeps working: runs with such inserts still scan exactly what was
  accepted (`CollectionRuns.InsertThenScan`).
- The comment above `lexNumCmp` says that '{' is greater than anything. The code gives that place to byte 255; '{' is
  above exactly the other non-digits of lower signed value (`Shortfalls.BraceOrder`, `BraceIsNotGreatest`).
- A reservation of zero pages answers an internal error if and only if the first segment asked has no free page
  (`PageAllocator.Manager.ReservePages`, instance `Shortfalls.NoPagesAsked`).
- Loading a page map whose page count is not a multiple of the segment size leaves the pages behind the count off the
  lists although the last segment spans them: `PageAllocator.Manager.Init` states that lists and map agree if and only
  if the map has none of those pages free (instance `Shortfalls.HalfSegmentLoaded`).
- `md5_append` adds the place in the buffer to the length in an int. `Md5.State.Append` takes the data in if and only if
  that place is 0 or the sum is an int (`Appendable`); otherwise the sum turns negative and all of the data would be
  copied over the end of the buffer. One byte and then 2^31 - 1 bytes do it (`Shortfalls.LongChunkFails`).

## Model

| member | source | states |
|---|---|---|
| Decimals.Decimal.Strip | src/bson/common_decimal.c:118-151 | drops leading and trailing zero digits without changing the number; a zero becomes positive with weight 0 |
| Decimals.Decimal.Install | src/bson/common_decimal.c:1487-1513 | a freshly filled buffer, its first slot spare and zero, becomes the record's digits |
| Compare.CmpAbsDigits | src/bson/common_decimal.c:531-622 | the index loops over differently aligned digit strings decide the order of the rationals |
| Compare.CmpAbs | src/bson/common_decimal.c:531-622 | the sign of the result is the order of the magnitudes, also for unstripped operands |
| Compare.Cmp | src/bson/common_decimal.c:2759-2873 | the answer is the order MIN < NaN < numbers < MAX if and only if the operands are not a zero clash |
| Compare.KeyOrderIsTotal | src/bson/common_decimal.c:2759-2873 | that order is total and antisymmetric, so cmp on stripped operands is a total preorder matching numeric order |
| Compare.KeyOrderDirection | src/bson/common_decimal.c:2759-2873 | MIN below NaN below every number below MAX, and numbers in numeric order |
| Compare.StrippedNeverClash | src/bson/common_decimal.c:2832-2855 | stripped operands never meet the failing condition |
| Shortfalls.RoundedZeroMiscompares | src/bson/common_decimal.c:1714-1819 | 0.0003 rounded to three places and a plain zero are both zero and compare unequal |
| AddSub.AddDigits | src/bson/common_decimal.c:472-501 | the carry loop over windows of both operands: digits and carry denote the sum of the windows |
| AddSub.SubDigits | src/bson/common_decimal.c:361-392 | the borrow loop: digits and borrow denote the difference of the windows |
| AddSub.AddAbs | src/bson/common_decimal.c:428-529 | exact sum of magnitudes, stripped; the carry error branch is never taken |
| AddSub.SubAbs | src/bson/common_decimal.c:316-426 | exact difference of magnitudes when the first is not smaller; the borrow error branch is never taken |
| AddSub.Add | src/bson/common_decimal.c:741-852 | exact signed sum, also when the result is one of the operands; the display scale that comes out |
| AddSub.Sub | src/bson/common_decimal.c:624-739 | exact signed difference, with the same scale rule |
| AddSub.ScaleKeptExactly | src/bson/common_decimal.c:658-659 | the larger scale comes out if and only if it did not belong to an aliased operand of a cancelling sum |
| Shortfalls.CancelLosesScale | src/bson/common_decimal.c:658-659 | x - x into x itself ends with scale 0 |
| Rounding.RoundDigit | src/bson/common_decimal.c:1761-1782 | rounding inside one base-10000 digit: the new digit and the carry denote the rounded digit |
| Rounding.PropagateCarry | src/bson/common_decimal.c:1784-1798 | the carry is added to the digits in front and stops inside them or in the spare slot |
| Rounding.RoundBuffer | src/bson/common_decimal.c:1752-1811 | the kept digits are the rounded ones, with at most one digit spilled into the spare slot |
| Rounding.RoundedIsRounding | src/bson/common_decimal.c:1731-1812 | rounding by digits is rounding the rational half up at the scale |
| Rounding.TruncatedIsTruncation | src/bson/common_decimal.c:258-305 | truncating digits is truncating the rational at the scale |
| Rounding.NearestMultiple | src/bson/common_decimal.c:1714-1819 | the rounded number is a multiple of 10^-scale within half a unit, the upper one of two; the cut one is the next multiple below |
| Rounding.RoundingIsOdd | src/bson/common_decimal.c:258-305 | rounding goes away from zero and truncation towards it on both sides |
| Rounding.Round | src/bson/common_decimal.c:1714-1819 | the multiple of 10^-rscale nearest the number, ties away from zero; the overflow error is never taken; how many digits are kept, zero or not |
| Rounding.Trunc | src/bson/common_decimal.c:258-305 | the number truncated toward zero at the scale |
| Typmod.Overflows | src/bson/common_decimal.c:178-219 | finds out whether the magnitude is at least 10^maxdigits |
| Typmod.TypmodParts | src/bson/common_decimal_type.h:93-95 | precision and scale are read back from precision * 65536 + scale |
| Typmod.ApplyTypmod | src/bson/common_decimal.c:153-224 | rounds to the declared scale and succeeds exactly when the rounded magnitude is below 10^(precision - scale) |
| Multiply.AddRow | src/bson/common_decimal.c:1010-1015 | one row of digit products is added to the accumulator without carries |
| Multiply.CarryPass | src/bson/common_decimal.c:983-999 | the accumulator keeps its value and holds digits again; the carry left over, and whether every sum was within INT_MAX |
| Multiply.AddLeftDigit | src/bson/common_decimal.c:970-1016 | one row, behind a carry pass if maxdig asks for it; that pass fits an int when maxdig was at most 214748 |
| Multiply.Accumulate | src/bson/common_decimal.c:966-1016 | the accumulator denotes the product, every entry stays within maxdig * 9999 and INT_MAX, the carry-out error is never taken, and whether the passes on the way fit an int |
| Multiply.FinalPass | src/bson/common_decimal.c:1030-1051 | the stored digits and the last carry denote the accumulator; whether every sum was within INT_MAX |
| Multiply.MulDigits | src/bson/common_decimal.c:966-1051 | postponed carries equal the schoolbook product; all passes fit an int for a safe left operand |
| Multiply.Mul | src/bson/common_decimal.c:854-1077 | the product at the wanted scale with its sign, stripped; a cut product is off by at most half a unit of the scale and the slack of the digits left out |
| Multiply.CutProduct | src/bson/common_decimal.c:905-947 | cutting the operands lowers the product by at most one unit of the first digit left out of each |
| Multiply.KeptRule | src/bson/common_decimal.c:905-947 | how many digits of each operand take part in a cut product |
| Accumulator.PassesFitExactly | src/bson/common_decimal.c:974-1045 | for every left operand: every carry pass fits an int against all right operands if and only if maxdig is at most 214748 at each pass |
| Accumulator.MiddleIsFull | src/bson/common_decimal.c:974-1016 | against a string of 9999s the middle columns reach the bound maxdig * 9999 after any number of passes |
| Accumulator.EntriesBounded | src/bson/common_decimal.c:949-1016 | maxdig * 9999 bounds every entry, and maxdig stays within INT_MAX / 9999 |
| Accumulator.SmallOperandsFitExactly | src/bson/common_decimal.c:979-1045 | for left digit sums that trigger no pass on the way, the final pass over the schoolbook columns always fits if and only if the digit sum is at most 214748 |
| Accumulator.EntriesAreColumns | src/bson/common_decimal.c:1010-1015 | without a pass on the way the accumulator holds the schoolbook columns |
| Accumulator.ShortLeftIsSafe | src/bson/common_decimal.c:974-1045 | left operands of up to 21 digits never overflow |
| Accumulator.SafeThreshold | src/bson/common_decimal.c:979-1008 | a normalising threshold keeps every intermediate sum within INT_MAX if and only if 10000 t - 1 <= INT_MAX |
| Accumulator.ThresholdInUseIsUnsafe | src/bson/common_decimal.c:981-987 | the threshold in use does not |
| Accumulator.OverflowingOperands | src/bson/common_decimal.c:1032-1034 | concrete operands whose final pass exceeds INT_MAX |
| Accumulator.OverflowOnTheWay | src/bson/common_decimal.c:981-987 | concrete operands for which a pass on the way exceeds INT_MAX |
| LongDivision.ScaleUp | src/bson/common_decimal.c:1288-1302 | multiplies a digit string in place by d, with the carry out |
| LongDivision.Normalise | src/bson/common_decimal.c:1233-1306 | dividend and divisor are loaded and scaled by one factor so that the first divisor digit is at least 5000 |
| LongDivision.EstimateDigit | src/bson/common_decimal.c:1316-1352 | the largest trial digit that three dividend and two divisor digits allow; every value of every test is an int |
| LongDivision.SmallRest | src/bson/common_decimal.c:1347-1352 | the rest stays below twice the base through the adjust loop, so the test products are ints |
| LongDivision.TrialDigit | src/bson/common_decimal.c:1341-1352 | Knuth's theorem: the trial digit is the quotient digit or one more |
| LongDivision.MulSub | src/bson/common_decimal.c:1357-1380 | subtracts the trial multiple in place; a borrow is left exactly when it was too large |
| LongDivision.AddBack | src/bson/common_decimal.c:1390-1409 | adds the divisor back; the carry cancels the borrow |
| LongDivision.DivideWindow | src/bson/common_decimal.c:1314-1414 | one step: window = digit * divisor + remainder with the remainder below the divisor |
| LongDivision.LongDivide | src/bson/common_decimal.c:1308-1414 | the quotient digits are the floor of the loaded dividend by the divisor |
| LongDivision.ShortDivide | src/bson/common_decimal.c:1258-1272 | the one-digit path meets the same specification |
| LongDivision.DivDigits | src/bson/common_decimal.c:1213-1415 | for every dividend and every divisor with nonzero first digit, whichever path is taken, the digits are the floor quotient and no value on the way exceeds an int |
| Divide.Div | src/bson/common_decimal.c:1144-1448 | the exact quotient rounded half away from zero, or truncated, at the scale; a divisor without a first digit is refused |
| Divide.QuotientWeight | src/bson/common_decimal.c:1098-1132 | the estimated quotient weight is a true lower bound |
| Divide.QuotientBelow | src/bson/common_decimal.c:1098-1132 | and the quotient is below two units of the next weight |
| Divide.GetDivScale | src/bson/common_decimal.c:1079-1142 | the wanted scale, said of the two numbers: it covers both display scales, shows at least sixteen significant digits and no more than the first digits call for; it is cut at 1000 |
| Divide.RelativeError | src/bson/common_decimal.c:1079-1142 | rounding at such a scale is off by at most half of 10^-16 of the quotient |
| Arithmetic.ProductExact | src/bson/common_decimal.c:905-947 | nothing is cut off and nothing is rounded away for well-formed operands |
| Arithmetic.BoundsAreStorage | src/bson/common_decimal_type.h:67-84 | out of bound is what a 16-bit weight or a 14-bit scale cannot hold |
| Arithmetic.DecimalAdd | src/bson/common_decimal.c:2875-2910 | exact well-formed sum, NaN for special operands, -6 exactly out of bounds |
| Arithmetic.DecimalSub | src/bson/common_decimal.c:2912-2947 | exact well-formed difference, with the same cases |
| Arithmetic.DecimalMul | src/bson/common_decimal.c:2949-2981 | exact well-formed product with the scales added; its carry passes fit an int for a safe left operand |
| Arithmetic.DecimalDiv | src/bson/common_decimal.c:2983-3018 | quotient rounded half away from zero at exactly that scale; relative error at most half of 10^-16 whenever the wanted scale is at most 1000 |
| Arithmetic.DecimalMod | src/bson/common_decimal.c:3140-3187 | left = q * right + result for an integer q, smaller than right and zero or of left's sign; the display scale that comes out; its inner product fits an int for a safe divisor |
| DecimalText.PrintedDigitsDenote | src/bson/common_decimal.c:2063-2142 | the digits that are printed denote exactly the number |
| DecimalText.PrintedDigitsTruncate | src/bson/common_decimal.c:2063-2142 | for every decimal the printed digits are the number cut off at its display scale |
| DecimalText.NoLeadingZero | src/bson/common_decimal.c:2063-2107 | no zero in front of the first digit, and a single 0 when nothing stands in front of the point |
| DecimalPrint.PutBlock | src/bson/common_decimal.c:2077-2104 | four digits of a block, or the block without its leading zeros |
| DecimalPrint.PutInt | src/bson/common_decimal.c:2063-2107 | the digits in front of the point |
| DecimalPrint.PutFrac | src/bson/common_decimal.c:2109-2142 | the point and exactly dscale digits, written in blocks and cut back |
| DecimalPrint.ToStr | src/bson/common_decimal.c:1999-2153 | the buffer holds the terminated text; nothing past the promised length is written, and a shorter buffer is refused untouched |
| DecimalGrammar.PromisedLength | src/bson/common_decimal.c:1450-1485 | the promised length holds text and terminator and is at most ten characters more than the text |
| DecimalGrammar.PrintedIsSpelled | src/bson/common_decimal.c:1999-2153 | printed text is the spelling of its sign and digits |
| DecimalParse.ReadMantissa | src/bson/common_decimal.c:2361-2406 | the digits of the numeral are in place, or the text is no bounded numeral whatever follows |
| DecimalParse.ReadExponent | src/bson/common_decimal.c:2412-2431 | the exponent as the C library reads it |
| DecimalParse.Convert | src/bson/common_decimal.c:2490-2498 | packing four decimal digits at a time keeps the integer |
| DecimalParse.Store | src/bson/common_decimal.c:2463-2501 | alignment to base 10000 keeps the value for every exponent |
| DecimalParse.FromStr | src/bson/common_decimal.c:2255-2513 | without a type modifier exactly the bounded numerals are accepted, and value, sign and scale are the numeral's; with one, the rounded value, its scale and the answer |
| DecimalParse.DenotesParts | src/bson/common_decimal.c:2463-2501 | the value is the whole part and the fraction, moved by the exponent; the scale is what is left behind the point |
| DecimalGrammar.ParseSpelled | src/bson/common_decimal.c:2361-2461 | every spelling (sign, digits, point, digits, e or E, blanks, sign, digits) is read as its digits and signed exponent, or refused exactly beyond the limits |
| DecimalGrammar.ParsedIsSpelled | src/bson/common_decimal.c:2361-2461 | nothing but such spellings is read |
| DecimalGrammar.SpecialNames | src/bson/common_decimal.c:2280-2327 | the special names are nan, min, -inf, max and inf in any case, and what each stands for |
| DecimalGrammar.CharactersUsed | src/bson/common_decimal.c:2026-2056 | the names printed for the special values, and the characters of the ten digits |
| DecimalRoundTrip.ParsePrinted | src/bson/common_decimal.c:2255-2513 | printed text is never a special name and parses to its own digits |
| DecimalRoundTrip.RoundTrip | src/bson/common_decimal.c:1999-2513 | printing then reading restores value, sign and display scale of every well-formed decimal in bounds and of NaN, MIN and MAX |
| FreeRuns.ReleaseRun | src/dms/dmsSMEMgr.cpp:214-335 | the run is merged with its neighbours, or refused exactly when it overlaps a run; the cached maximum stays right |
| FreeRuns.PutKeeps | src/dms/dmsSMEMgr.cpp:228-335 | putting a run keeps the list sorted and merged and adds its size to the total |
| FreeRuns.PutCovers | src/dms/dmsSMEMgr.cpp:228-335 | and covers exactly the old pages and the new ones |
| FreeRuns.TakeKeeps | src/dms/dmsSMEMgr.cpp:118-134 | taking pages off a run keeps the list sorted and merged |
| FreeRuns.CoalescedUnique | src/dms/dmsSMEMgr.cpp:184-359 | sorted merged lists that cover the same pages are equal |
| FreeRuns.FirstFitIsLowest | src/dms/dmsSMEMgr.cpp:111-121 | the first run that is long enough starts at the lowest place that fits |
| SpaceMap.BitOfIsShift | src/dms/dmsBlockData.hpp:329-333 | masking a bit is shifting it down |
| SpaceMap.PageMap.SetBit | src/dms/dmsBlockData.hpp:339-343 | one page becomes allocated, no other page changes |
| SpaceMap.PageMap.FreeBit | src/dms/dmsBlockData.hpp:334-338 | one page becomes free, no other page changes |
| SegmentSpace.Atomic.SwapPredicated | src/include/ossAtomic.hpp:90-114 | whatever other threads write between the attempts, the swap that succeeds leaves the smaller of the value and what the cell then holds |
| SegmentSpace.Atomic.SwapLesserThan | src/include/ossAtomic.hpp:193-197 | undisturbed, lowers the cell to the value unless it is already lower |
| SegmentSpace.Segment.ResetMax | src/dms/dmsSMEMgr.cpp:66-82 | recomputes the largest run |
| SegmentSpace.Segment.ReservePages | src/dms/dmsSMEMgr.cpp:87-169 | the lowest place with n free pages, or no space exactly when there is none; list, bitmap and totals stay in agreement; the internal error comes if and only if n = 0 and the list is empty |
| SegmentSpace.Segment.ReleasePages | src/dms/dmsSMEMgr.cpp:184-359 | accepted exactly when in range and no page is free; a refusal changes nothing |
| PageAllocator.Manager.Init | src/dms/dmsSMEMgr.cpp:389-471 | from any bitmap and any page count: the lists are the free pages below the count and the total counts them; everything is right if and only if no page behind the count in the last segment is free |
| PageAllocator.Manager.ReservePages | src/dms/dmsSMEMgr.cpp:475-517 | -1 exactly when no segment has n contiguous free pages, otherwise the lowest place of the first such segment; an internal error exactly for n = 0 when the first segment asked is full; the hint passes exactly the full segments in front of the next that is not |
| Shortfalls.NoPagesAsked | src/dms/dmsSMEMgr.cpp:111-164 | using up a segment and then asking for no pages answers the internal error |
| Shortfalls.HalfSegmentLoaded | src/dms/dmsSMEMgr.cpp:405-465 | four pages of a free segment of eight are loaded, and lists and map do not agree |
| PageAllocator.Manager.ReleasePages | src/dms/dmsSMEMgr.cpp:519-552 | accepted exactly when the pages lie in one segment and none is free, and the hint becomes the smaller of itself and that segment; a refusal changes nothing |
| PageAllocator.Manager.DepositASegment | src/dms/dmsSMEMgr.cpp:554-599 | accepted exactly for the next segment; keeps everything right when its pages are free in the map |
| PageAllocator.Manager.HintHidesNothing | src/dms/dmsSMEMgr.cpp:482-502 | no free run lies in a segment below the hint |
| AllocatorRuns.ListedRunIsMaximal | src/dms/dmsSMEMgr.cpp:184-359 | every listed run is a maximal run of free bits of its segment |
| AllocatorRuns.MapDeterminesList | src/dms/dmsSMEMgr.cpp:389-471 | the bitmap determines the list |
| AllocatorRuns.SegmentTotal | src/dms/dmsSMEMgr.cpp:361-365 | a segment's total is the number of its free bits |
| AllocatorRuns.ReservationsNeverOverlap | src/dms/dmsSMEMgr.cpp:475-599 | in every state of every run, outstanding reservations are pairwise disjoint and allocated in the map |
| AllocatorRuns.HeldIsReleasable | src/dms/dmsSMEMgr.cpp:519-552 | the manager accepts every release of an outstanding reservation |
| FreeHint.StepKeepsInv | src/dms/dmsSMEMgr.cpp:95-103 | every atomic step, a refused release included, keeps mutual exclusion and the hint invariant |
| FreeHint.EveryInterleaving | src/dms/dmsSMEMgr.cpp:483-546 | under every interleaving, a segment below the hint is empty or has a release between its list update and its atomic minimum |
| FreeHint.QuietHintHidesNothing | src/dms/dmsSMEMgr.cpp:539-546 | with no release pending the hint hides no free page |
| FreeHint.NeverStuck | src/dms/dmsSMEMgr.cpp:95-103 | no deadlock: in every state some thread, the waiting one or the owner of its mutex, can step |
| FreeHint.ReleaseAlone | src/dms/dmsSMEMgr.cpp:519-552 | an undisturbed release adds its pages and leaves the smaller of hint and segment |
| FreeHint.ReserveAlone | src/dms/dmsSMEMgr.cpp:95-103 | an undisturbed reservation moves the hint past an empty segment |
| FreeHint.PendingReleaseHides | src/include/ossAtomic.hpp:90-114 | with one release pending it can |
| RecordHeader.SizeAndFlagAreIndependent | src/dms/dmsRecord.hpp:258-265 | a size survives packing beside any flag if and only if it is 1 to 2^24, and neither part disturbs the other |
| RecordHeader.OversizeWraps | src/dms/dmsRecord.hpp:361-369 | 2^24 + 1 reads back as 1 |
| RecordHeader.DeletedWritten | src/dms/dmsBlockData.cpp:825-835 | saving a deleted record over any old bytes leaves a word that says what its header says |
| RecordHeader.Revives | src/dms/dmsBlockData.cpp:1011-1013 | turning a deleted record normal keeps its size and clears the flag |
| RecordHeader.Resizes | src/dms/dmsBlockData.cpp:1030-1031 | cutting a live record keeps it live |
| RecordHeader.RepresentableExactly | src/dms/dmsRecord.hpp:361-369 | a header has a packed word if and only if its size is 1 to 2^24 |
| RecordHeader.EveryHeaderFits | src/dms/dmsBlockData.cpp:815-1079 | every record of a consistent space has a packed word |
| DeleteSlots.SlotOf | src/dms/dmsBlockData.cpp:841-859 | the halving loop computes the slot |
| DeleteSlots.SlotBound | src/dms/dmsBlockData.hpp:102-128 | slot k takes the sizes above 32 * 2^(k-1) up to 32 * 2^k |
| DeleteSlots.HigherSlotFits | src/dms/dmsBlockData.cpp:1384-1406 | any record on a slot above the request's slot is large enough |
| DeleteSlots.SlotsSuffice | src/dms/dmsBlockData.cpp:861-862 | the twenty slots serve exactly the sizes up to 16 MB |
| ExtentBody.TilesApart | src/dms/dmsBlockData.cpp:909-977 | two records of an extent never overlap |
| ExtentBody.SplitKeeps | src/dms/dmsBlockData.cpp:1014-1034 | splitting a record keeps the tiling; which records there are and the deleted bytes afterwards |
| DeleteLists.UnlinkInside | src/dms/dmsBlockData.cpp:1418-1434 | taking an entry out of the middle links its neighbours |
| RecordSpace.ExactlyOneRecord | src/dms/dmsBlockData.cpp:815-1079 | every byte of an extent's body lies in exactly one record |
| RecordSpace.ExactlyOneList | src/dms/dmsBlockData.cpp:815-870 | every deleted record that is not lost is on exactly one delete list, that of its slot; a lost one is on none |
| RecordSpace.UnlinkKeeps | src/dms/dmsBlockData.cpp:1418-1443 | taking a record off a list keeps tiling, lists and free space, but for that record |
| RecordSpace.LinkKeeps | src/dms/dmsBlockData.cpp:836-869 | putting it on the list of its slot makes the space consistent again |
| RecordSpace.CarveKeeps | src/dms/dmsBlockData.cpp:932-968 | writing a deleted record behind the carved part keeps everything else |
| RecordSpace.LoseKeeps | src/dms/dmsBlockData.cpp:1002-1009 | giving up on a record that was taken off its list leaves the space consistent with one lost record more |
| RecordChain.TakenRecords | src/dms/dmsBlockData.cpp:1036-1068 | the new record is the last of the chain, and every older record keeps its bytes |
| RecordInsert.TakeKeeps | src/dms/dmsBlockData.cpp:1010-1068 | turning a hole into a live record, with or without a rest, keeps tiling, lists, free space and chains |
| RecordStore.Collection.SaveDeletedRecord | src/dms/dmsBlockData.cpp:815-870 | header, free space and list head after saving a deleted record |
| RecordStore.Collection.CarvePiece | src/dms/dmsBlockData.cpp:930-941 | one more piece of 36 bytes to 16 MB; everything stays consistent |
| RecordStore.Collection.MapExtentToDelList | src/dms/dmsBlockData.cpp:909-977 | the pieces tile the free space exactly, add up to it and are cut by the rule of 16 MB, 4 KB and rest; each is pushed on its list in turn |
| RecordStore.Collection.Search | src/dms/dmsBlockData.cpp:1402-1459 | finds a record exactly when a large enough one is among the first three of a list from the slot up, and then the first such one |
| RecordStore.Collection.Unlink | src/dms/dmsBlockData.cpp:1418-1443 | the found record leaves its list and the extent's free space |
| RecordStore.Collection.ReqPages | src/dms/dmsBlockData.cpp:1461-1479 | the pages asked for hold the request for every page size |
| RecordStore.PagesForIsLeast | src/dms/dmsBlockData.cpp:1461-1477 | no fewer pages hold sixteen such records or 16 MB, whichever is less, unless a segment is smaller |
| RecordStore.Collection.CarveTail | src/dms/dmsBlockData.cpp:953-971 | what is left after the whole pieces is carved to the end |
| RecordStore.Collection.OpenExtent | src/dms/dmsBlockData.cpp:1118-1171 | reserved pages with arbitrary old bytes become an extent of the chain and are carved; no other extent changes |
| RecordStore.FoundInNew | src/dms/dmsBlockData.cpp:1480-1484 | if nothing was in reach before, what is found after carving lies in the new extent |
| RecordStore.Collection.ExtentInsertRecord | src/dms/dmsBlockData.cpp:979-1079 | the record is live with its bytes at the end of its extent's chain; it keeps what it needs, or all if 36 bytes or fewer would be left, and the rest is free again at the front of its list; too small a space or data below five bytes is refused unchanged |
| StorageUnit.Unit.ExtendSegments | src/dms/dmsBlockData.cpp:611-749 | a new segment all of whose pages are free; refused exactly beyond the map, on an allocated page, or when the file cannot grow |
| StorageUnit.Unit.FindFreeSpace | src/dms/dmsBlockData.cpp:751-813 | the lowest n free pages in a row, in a new segment exactly if no other has them; one new segment always suffices; every refusal has its exact condition |
| StorageUnit.Unit.AllocateExtent | src/dms/dmsBlockData.cpp:1080-1178 | the new extent occupies pages that were free and that no other extent has; its pages lie in one segment that the chain knows, so adding it never fails |
| StorageUnit.PlacedAside | src/dms/dmsBlockData.cpp:1103-1115 | reserving free pages leaves every extent on its own allocated pages, apart from the new ones |
| StorageUnit.BytesApart | src/dms/dmsBlockData.cpp:1080-1178 | in every valid unit no byte of the file belongs to two extents |
| StorageUnit.Unit.AllocRecordSpace | src/dms/dmsBlockData.cpp:1363-1490 | finds room exactly for requests up to 16 MB that have a record in reach or pages for a new extent; takes the first fit of what was searched; the retry after one extent always succeeds; which pages changed hands |
| StorageUnit.Unit.InsertRecord | src/dms/dmsBlockData.cpp:1492-1588 | succeeds exactly for data of five bytes to the maximum with room for it, and adds one record at the first fit, which takes its need and at most 36 bytes from the free space of its extent; exactly shorter data with room for it loses that space; every other answer changes nothing |
| StorageUnit.LostIsMissing | src/dms/dmsBlockData.cpp:1002-1009 | a deleted record on no list leaves the space inconsistent |
| StorageUnit.WholeExactly | src/dms/dmsBlockData.cpp:1002-1009 | a valid unit has every deleted record on a list if and only if nothing was lost |
| Shortfalls.ShortDataLosesSpace | src/dms/dmsBlockData.cpp:1002-1009 | four bytes put into a new unit are refused and the unit is no longer whole |
| ExtentChain.Chain.AddExtent | src/dms/dmsBlockData.cpp:1180-1296 | the extent goes behind its own and lower segments and in front of all others, with the next number of its segment; one doubly linked chain in segment order, bracketed by the first and last arrays |
| ExtentChain.LogicalIdsIncrease | src/dms/dmsBlockData.cpp:1228-1258 | logical IDs strictly increase along the chain |
| ExtentChain.LogicalIdsFit | src/dms/dmsBlockData.hpp:1110-1113 | and stay below 2^30 for every allowed page size |
| Scanner.ExtScanner.FirstInit | src/dms/dmsScanner.cpp:236-275 | starts at the first record of the extent |
| Scanner.ExtScanner.Extract | src/dms/dmsBlockData.cpp:2008-2043 | reads back exactly the bytes of the record |
| Scanner.LengthOfBytes | src/dms/dmsRecord.hpp:276-279 | three bytes hold the length, the low one first |
| Scanner.ExtScanner.FetchNext | src/dms/dmsScanner.cpp:277-343 | the next record past the skipped ones and within the limit, or the end of the extent |
| Scanner.ExtScanner.Advance | src/dms/dmsScanner.cpp:183-212 | the same from the first call on |
| Scanner.ExtScanner.StepToNextExtent | src/dms/dmsScanner.cpp:162-181 | the next extent of the chain unless the limit is used up |
| Scanner.WindowIsDropThenTake | src/dms/dmsScanner.cpp:285-330 | skip s and limit m are drop s, then take m |
| Scanner.ScanCollection | src/dms/dmsScanner.cpp:171-343 | a full scan yields the records of every extent in chain order, less the skipped ones, up to the limit |
| CollectionRuns.InsertShowsOnce | src/dms/dmsBlockData.cpp:1036-1070 | an insert puts one record into the scan and leaves the others as they were |
| CollectionRuns.ScanYieldsInserted | src/dms/dmsBlockData.cpp:1492-1585 | after any run of inserts the records in chain order are exactly the inserted ones, each once |
| CollectionRuns.InsertAll | src/dms/dmsBlockData.cpp:1492-1588 | any sequence of requests, short data included, leaves a valid unit that shows exactly the data of those answered Ok |
| CollectionRuns.InsertThenScan | src/dms/dmsScanner.cpp:171-343 | a new unit takes in any requests, short data included; the scan with skip s and limit m yields drop s, then take m, of a sequence of exactly the accepted data |
| FieldOrder.CompareNumbers | src/bson/bsonobj.cpp:105-136 | digit runs compare by value, leading zeros or not |
| FieldOrder.LexNumCmp | src/bson/bsonobj.cpp:86-159 | the sign of the result is the lexicographic order of the token sequences |
| FieldOrder.CmpFlips | src/bson/bsonobj.cpp:1627-1632 | swapping the arguments flips the sign |
| FieldOrder.CmpIsTransitive | src/bson/bsonobj.cpp:1627-1651 | the order is transitive, so the sort gets a valid comparator |
| FieldOrder.CmpIsZero | src/bson/bsonobj.cpp:86-159 | names tie exactly when their tokens are the same |
| FieldOrder.TokenOrder | src/bson/bsonobj.cpp:94-147 | numbers by value, byte 255 above them, every other byte below and in signed order |
| FieldOrder.FirstTokenDecides | src/bson/bsonobj.cpp:93-158 | the first token that differs decides, and a prefix comes first |
| FieldOrder.TokensOf | src/bson/bsonobj.cpp:105-136 | what the tokens of a name are |
| FieldOrder.ValueOfDigits | src/bson/bsonobj.cpp:105-132 | a run of digits counts as the number it writes in base ten |
| Shortfalls.BraceOrder | src/bson/bsonobj.cpp:85-148 | '{' is above another token if and only if that is a non-digit of lower signed value other than byte 255 |
| Shortfalls.BraceIsNotGreatest | src/bson/bsonobj.cpp:85-159 | '{' compares below the next byte and below a digit |
| Md5.State.CountBits | src/bson/md5.c:333-337 | two words with a carry count bits modulo 2^64 |
| Md5.State.Append | src/bson/md5.c:322-358 | the state is the fold over the full blocks of the message so far, with the rest buffered; it fails exactly when place and length together are no int |
| Md5.State.Finish | src/bson/md5.c:360-381 | exactly the padded message of sections 3.1 and 3.2 of RFC 1321 is processed, and the sixteen bytes denote the four words, low byte first |
| Md5.PaddedIsPadded | src/bson/md5.c:372-378 | the padding ends in the number of bits modulo 2^64, behind one bit and the fewest zeros |
| Md5.PaddingIsUnique | src/bson/md5.c:372-378 | no other message is so padded |
| Md5.InitialWords | src/bson/md5.c:312-320 | the initial words are the bytes of section 3.3 of RFC 1321 |
| Md5.HashChunks | src/bson/md5.c:312-381 | the digest does not depend on how the message was cut; it comes out exactly when every chunk can follow the ones before it |
| Shortfalls.LongChunkFails | src/bson/md5.c:339-343 | one byte followed by 2^31 - 1 bytes fails |
| Md5.ChunksDoNotMatter | src/bson/md5.c:322-358 | two states that took in the same message agree |

## Left out

- Decimals.Decimal.Strip: digits are unbounded integers in 0..9999 by invariant, not 16-bit words.
- Multiply.Accumulate: entries and carries are unbounded integers; what a sum beyond INT_MAX turns into is not modelled, only exactly when there is none.
- Rounding.Round: does not promise a stripped result, because the code leaves zeros with digits and negative zeros.
- DecimalParse.ReadExponent: the clamping of huge exponents is not modelled, since no accepted exponent reaches it.
- StorageUnit.Unit.InsertRecord: the record size is a parameter between the data plus its header and 16 MB, because it comes from a floating-point ratio; whether the file can grow and the old bytes of new pages are parameters.
- StorageUnit.Unit.FindFreeSpace: one caller at a time, so a segment added by another thread meanwhile is not modelled; the unit holds one collection.
- RecordHeader.SizeAndFlagAreIndependent: little-endian words, with shifts and byte masks written as division and remainder.
- SegmentSpace.Atomic.SwapPredicated: the writes of other threads are a finite sequence of values; interleavings with the rest of the allocator are in `FreeHint`.
- Scanner.ScanCollection: takes records whose first three bytes give their length, as BSON objects do.
- PageAllocator.Manager.DepositASegment: that the pages of the new segment are free in the map is what the caller, which checks it while extending the file, provides.
- FreeHint.EveryInterleaving: a segment is its number of free pages; the lists are in the sequential model.
- Md5.State.Append: the 64 steps of the block function are a parameter; nothing is said of the state after a failure.
- Md5.State.CountBits: the shift that turns the length into bits wraps, as two's complement hardware does.
- FieldOrder.LexNumCmp: plain `char` is taken as signed, which the language leaves to the platform.
- `decimal_to_double`, `decimal_from_double`, the integer conversions, ceiling and floor, the JSON text and the BSON layout of decimals: floating point, or easy beside the rest.
- File and memory-map work when storage is opened or extended, flushing, page and file headers, locks around single calls.
- Total counters of a collection other than an extent's record count and free space.
- The load list, compressed, overflowed and capped records, dictionary extents: no full life cycle is in the repository.
- BSON element comparison across types, JSON printing, builders, base64, network messages.
- Out-of-memory paths, exceptions and logging.
