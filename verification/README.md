# Number machinery, engine lifetime and text codec

This project models the parts of the MicroQuickJS SDK whose correctness rests on
arguments rather than on reading one function, and proves what they promise.

* **Printing and parsing numbers** (`native/mquickjs/dtoa.c`). Little-endian arrays of
  32-bit limbs (`Limbs`, `Bignum`) are added, multiplied, shifted, rounded and divided by
  a precomputed reciprocal (`Reciprocal`). On them stand the scaling by a power of the
  radix (`RadixScaling`), the rounding to binary64 (`DoubleRounding`), the parser
  (`Digits`, `Atod`, `NumberScan`, `NumberParsing`) and the printer with its three formats
  (`DigitSearch`, `FreeFormatSearch`, `FixedFormat`, `FractionFormat`, `WholeNumbers`,
  `DigitOutput`, `IntegerText`, `NumberLayout`, `NumberPrinting`). `RoundTrip` puts the two
  ends together: for every binary64, radix and choice of exponent the printed text is read
  back to the end and gives the same bits. `NumberGrammar` and `NumberPrefixes` say what is
  read and `NumberStyle` what is written in the words of the language: prefixes, signs,
  separators, where a number gets an exponent, how zero looks. `RadixLogarithm` proves the
  logarithm estimate and the cut-off tables by rational brackets around each log2(radix);
  `PrintedLength` compares js_dtoa_max_len with what is printed.
* **Software floating point** (`softfp_template.h`, `softfp_template_icvt.h`, parts of
  `libm.c`), in its 64-bit instance. `Rounding` and `Binary64` define what it means for bits
  to be an exact real number rounded by one of the five modes; `StickyBits` and `RoundPack`
  carry one sticky bit from the exact number to the packed result; `Addition`,
  `Multiplication`, `Division`, `SquareRoot`, `Remainder`, `RoundToInteger`,
  `IntegerConversion` and the bit-by-bit `BitwiseSquareRoot` are proved against it.
* **Refs, runs and closing** (`mquickjs_kmp.c`, `JsRef.kt`, `JsEngine.kt`, `JsRuntime.kt`).
  `RefTable` is the generation-tagged slot table with its free list, `HostCall` the host
  bracket around transient refs under arbitrary nesting, `RefHandles` the Kotlin handles that
  own native references, `EntryPoints` the balance of runs in every entry point. `EngineRuns`
  and `RuntimeClose` are step systems: any number of threads interrupt and close an engine, or
  use, cancel, close and shut down a runtime, in any order of their atomic steps.
* **The WTF-8 codec** (`Wtf8.kt`), in `Wtf8`.

Quantities are exact. The magnitude of a finite binary64 is a natural number of units of
2^-1074, so sums and remainders are integer arithmetic; products, quotients and numerals are
reals. "Rounded" is a relation between a real and a representable number (nearest with ties to
even or away, or toward one side), shown to have exactly one solution. The square root is
given by a bracket of integers around it, so nothing depends on roots of reals existing.

Code that works step by step on arrays and fields is a method on `array`s or a class; loops
keep their shape. What C leaves to the machine is written out: 32 and 64 bit wrap-around,
truncating shifts, the sign of `slimb_t`. Three departures in form: js_atod's digit loop is
split into the scan of the text (`NumberScan.ScanDigits`) and the accumulation of its digits
(`Digits.CollectDigits`); a C string is a sequence that reads as the terminator past its end;
and the growing slot array is a sequence whose growth may fail.

Results that differ from what the comments in the code say:

* js_dtoa_max_len is too small for small positional subnormals in the fixed format and for
  zero in the fraction format with a forced exponent and more than four digits and sign
  characters; everywhere else it is enough, also for subnormals in free format.
  `NumberPrinting.JsDtoa` says exactly when, by a comparison of integers that a caller can
  make, and `SmallestSubnormalTooLong` gives a number that never fits.
* sqrtrem_u does not reach the integer root from every operand
  (`SquareRoot.SqrtremU` says which, `StartsLowExample` gives the first); sqrt_sf never
  passes one of those.
* mp_div1norm divides the wrong number when it has to shift and writes into another array
  (`Reciprocal.UnshiftedExample`); it is only called in place.
* js_sqrt shifts a word by 32 for subnormals whose leading bit is bit 31 or bit 10 of the
  significand, and for no others (`BitwiseSquareRoot.FindLeadingBit`, `OvershiftExample`),
  which C leaves undefined.
* JsEngine.close has no guard against a call from inside a run. A host function that closes
  its own engine makes the run end in freed native code (`EngineRuns.CloseInHostFunction`);
  without a close inside a run native code is never used after it was freed, and with one
  by the owner always, once its runs have ended (`EngineRuns.LateUseIsInnerClose`).
* JsRef.close on the argument of a running host call takes a release from another holder
  (`RefHandles.JsEngine.Close`, `HostCall.ClosedArgumentLosesCopy`); the books of
  `RefHandles` say which handles still reach their object after that.
* A slot whose generation reaches 2^31 can no longer be reached or released
  (`RefTable.LiveHandleResolves`).
* The text NaN read in a radix above 23 is a number (`RoundTrip.NaNReadBack`).

## Model

| member | source | states |
|---|---|---|
| `StickyBits.AgreeShift` | native/mquickjs/softfp_template.h:94-106 | rshift_rnd keeps, in one sticky bit, on which side of every even grid point the exact number lies: the shifted word compares with each of them as the exact quotient does |
| `RoundPack.PackOfRounds` | native/mquickjs/softfp_template.h:117-190 | in all five modes the packed result is the exact number rounded, for any exact number the mantissa stands for: shift of subnormal results, ties, carry into the exponent, overflow to infinity or to the largest finite number by mode and sign |
| `RoundPack.RoundPackSf` | native/mquickjs/softfp_template.h:117-190 | the branches and the addend of round_pack_sf deliver exactly that packed result |
| `RoundPack.NormalizeSf` | native/mquickjs/softfp_template.h:193-202 | normalising never shifts an inexact sticky bit into a rounding position, so the result is the exact number rounded |
| `RoundPack.NormalizeSubnormalSf` | native/mquickjs/softfp_template.h:204-210 | a subnormal significand becomes a full one with the exponent that keeps its value |
| `Binary64.RoundsToUnique` | native/mquickjs/softfp_template.h:117-190 | "the exact number rounded by mode rm" determines the bits, signed zeros included |
| `Rounding.RoundingExists` | native/mquickjs/softfp_template.h:117-190 | every nonnegative real has a rounded value in every direction, so no contract stated by rounding is empty |
| `Addition.AddSf` | native/mquickjs/softfp_template.h:235-294 | the sum correctly rounded in every mode, with the sign of exact zeros, infinities and NaN as section 6.3 of IEEE 754-2019 has them |
| `Addition.SubSf` | native/mquickjs/softfp_template.h:296-299 | the difference correctly rounded in every mode: flipping the sign of b and adding subtracts, zeros, infinities and NaN included |
| `Multiplication.MulU` | native/mquickjs/softfp_template.h:315-338 | four half-word products give the whole 128-bit product, with no carry lost |
| `Multiplication.MulSf` | native/mquickjs/softfp_template.h:344-397 | the product correctly rounded in every mode, subnormal operands and results included |
| `Division.DivremU` | native/mquickjs/softfp_template.h:412-430 | the 64-step shift-and-subtract loop is true 128 by 64 bit division when the high word is below the divisor |
| `Division.DivSf` | native/mquickjs/softfp_template.h:434-507 | the quotient correctly rounded in every mode, with 0/0, x/0 and infinities |
| `SquareRoot.SqrtremU` | native/mquickjs/softfp_template.h:543-570 | for operands below 2^126, as the comment asks, the two-word Newton loop stops; its result is the integer square root exactly when the operand is not one of those that start below it (a power of four above a large low word), and inexact says whether it is not a perfect square; no sum overflows but at 2^126 - 1 |
| `SquareRoot.NewtonSumWraps` | native/mquickjs/softfp_template.h:560-563 | at 2^126 - 1 the first estimate is 2^63, the next is 2^63 - 1, and with that the sum of quotient and estimate is 2^64 and wraps: the next estimate is 0, by which divrem_u does not divide |
| `SquareRoot.StartsLowExample` | native/mquickjs/softfp_template.h:543-570 | the first operand whose root is missed: at 2^64 + 2^33 + 1 the loop stops at 2^32, one below the root |
| `SquareRoot.SqrtSf` | native/mquickjs/softfp_template.h:574-624 | the square root correctly rounded in every mode: whatever number lies in the integer bracket around the exact root rounds to the result |
| `SquareRoot.SquareRootRounded` | native/mquickjs/softfp_template.h:574-624 | in particular the real square root rounds to it |
| `Compare.ComparisonsOrderValues` | native/mquickjs/softfp_template.h:628-720 | eq, le, lt and cmp on raw bits order the numbers, treat both zeros as equal, and find NaN unordered |
| `Remainder.FmodSf` | native/mquickjs/softfp_template.h:882-933 | the remainder is exact, has the sign of the dividend, and is not rounded when packed, also for subnormal divisors (Number::remainder, section 6.1.6.1.6 of ECMA-262 2023) |
| `RoundToInteger.RintSf64` | native/mquickjs/libm.c:261-321 | adding below the binary point and masking, with the carry running into the exponent, is floor, ceiling, truncation or rounding of every finite number, and keeps the sign of zero |
| `RoundToInteger.RintUnique` | native/mquickjs/libm.c:261-321 | there is only one such result |
| `RoundToInteger.JsRoundInf` | native/mquickjs/libm.c:338-341 | Math.round: floor(x + 1/2), for every finite x |
| `RoundToInteger.JsFloor` | native/mquickjs/libm.c:323-326 | Math.floor for every finite x |
| `RoundToInteger.JsCeil` | native/mquickjs/libm.c:328-331 | Math.ceil for every finite x |
| `RoundToInteger.JsTrunc` | native/mquickjs/libm.c:333-336 | Math.trunc for every finite x |
| `IntegerConversion.CvtSfI` | native/mquickjs/softfp_template_icvt.h:38-112 | conversion to a signed or unsigned 32 or 64 bit integer rounds by mode, then saturates; NaN goes the way of +infinity |
| `IntegerConversion.CvtISf` | native/mquickjs/softfp_template_icvt.h:127-154 | conversion of an integer is correctly rounded in every mode |
| `BitwiseSquareRoot.HighLoop` | native/mquickjs/libm.c:577-592 | the first loop keeps twice the root, the scaled remainder and the moving bit, on two words, and no int variable overflows |
| `BitwiseSquareRoot.LowLoop` | native/mquickjs/libm.c:594-609 | the second loop does so with the carries and borrows between the words, wraps only where it means to, and ends with the integer root and its remainder |
| `BitwiseSquareRoot.FindLeadingBit` | native/mquickjs/libm.c:556-563 | the loops that move a subnormal up, 21 bits and then one bit at a time, find its leading bit; the shift that follows is by 32 exactly for the operands with leading bit 31 or 10 |
| `BitwiseSquareRoot.OvershiftExample` | native/mquickjs/libm.c:556-566 | one of those operands, the bits 0x400 |
| `BitwiseSquareRoot.NormalizeWords` | native/mquickjs/libm.c:556-566 | every subnormal ends up with its leading bit in place and keeps its value, whatever a shift by 32 yields for the others, and for those if it yields 0 |
| `BitwiseSquareRoot.WordsFit` | native/mquickjs/libm.c:577-609 | in every state of both loops the high words are far below the sign bit |
| `BitwiseSquareRoot.JsSqrt` | native/mquickjs/libm.c:536-629 | the bit-by-bit square root is correctly rounded to nearest for every operand, subnormals included, unless the code shifts a word by 32 for it and the machine makes something else than 0 of that |
| `BitwiseSquareRoot.RootsCoincide` | native/mquickjs/libm.c:536-629 | the correctly rounded root is unique, so js_sqrt and sqrt_sf deliver the same bits |
| `Limbs.MpAddUi` | native/mquickjs/dtoa.c:73-87 | adding a limb: the sum with its carry, the other limbs untouched |
| `Limbs.MpMul1` | native/mquickjs/dtoa.c:90-102 | multiplying by a limb in place: the exact product with its carry |
| `Limbs.MpDiv1` | native/mquickjs/dtoa.c:135-148 | dividing by a limb: quotient and remainder of the whole number |
| `Limbs.MpShr` | native/mquickjs/dtoa.c:150-164 | right shift with bits let in from above and the lost bits returned |
| `Limbs.MpShl` | native/mquickjs/dtoa.c:168-182 | left shift with bits let in from below and the lost bits returned |
| `Reciprocal.Udiv1NormInit` | native/mquickjs/dtoa.c:105-111 | the reciprocal of a normalised divisor |
| `Reciprocal.Udiv1Norm` | native/mquickjs/dtoa.c:115-132 | division by the reciprocal: q * d + r is the dividend and r < d for every d >= 2^31 and high word below d; no wrapped intermediate matters |
| `Reciprocal.MpDiv1Norm` | native/mquickjs/dtoa.c:184-197 | with its normalising shift and an incoming remainder, division by the reciprocal is floor division of the whole array, with the true remainder, in place or when there is nothing to shift; into another array only the remainder is shifted, and what is divided is stated |
| `Reciprocal.UnshiftedExample` | native/mquickjs/dtoa.c:184-197 | so dividing the limb 1 by 1 into another array gives 0 |
| `RadixPowers.PowUi` | native/mquickjs/dtoa.c:240-267 | table look-up and repeated squaring give the power modulo 2^64 |
| `RadixPowers.PowUiInv` | native/mquickjs/dtoa.c:269-296 | the normalised power, its shift and its reciprocal, from the table for powers of five or computed |
| `RadixTables.LimbPower` | native/mquickjs/dtoa.c:708-718 | each entry of radix_base is the power that a full limb of digits needs |
| `RadixTables.DigitsPower` | native/mquickjs/dtoa.c:721-723 | each entry of dtoa_max_digits: fits 64 bits doubled, and one digit less still exceeds 2^53 |
| `RadixTables.FewestDigits` | native/mquickjs/dtoa.c:721-723 | and with one digit less it would not: the entries are the least such numbers |
| `RadixTables.AllParsedBits` | native/mquickjs/dtoa.c:725-731 | atod_max_digits: as many digits as 128 bits hold, or 64 in a power of two, and no fewer; in base ten at least the 20 digits that the language requires |
| `RadixLogarithm.MulLog2RadixIsFloor` | native/mquickjs/dtoa.c:458-486 | the table estimate is exactly floor(a / log2(radix)) for all 35 radices and all a from -2048 to 2047 |
| `RadixLogarithm.CutoffPowers` | native/mquickjs/dtoa.c:733-749 | max_exponent and min_exponent: radix^max is at least 2^1024, radix^min at most 2^-1075 and not below 2^-1084 |
| `Bignum.RoundShiftRounds` | native/mquickjs/dtoa.c:311-396 | dropping bits by mode rounds the exact quotient to an integer: truncation, ties to even, ties away |
| `Bignum.Mpb.ShrRound` | native/mquickjs/dtoa.c:311-396 | shifts in both directions on the limb array: exact to the left, rounded to the right, carry into a new limb included |
| `Bignum.Mpb.GetBit` | native/mquickjs/dtoa.c:298-308 | one bit of the number, zero beyond its end |
| `Bignum.Mpb.Cmp` | native/mquickjs/dtoa.c:399-414 | comparison of limb arrays is comparison of numbers |
| `Bignum.Mpb.SetU64` | native/mquickjs/dtoa.c:417-430 | a 64-bit word as a normalised bignum |
| `Bignum.Mpb.GetU64` | native/mquickjs/dtoa.c:432-443 | the value, when it fits 64 bits |
| `RadixScaling.MpbFloorLog2` | native/mquickjs/dtoa.c:446-454 | the position of the top bit, or -1 |
| `RadixScaling.MulPow` | native/mquickjs/dtoa.c:891-954 | scaling by radix^f: exact for f >= 0 and powers of two; for f < 0 the limb-group divisions and the ORed sticky bit leave a number that compares with every even grid point as the exact quotient does, with the promised spare bits |
| `RadixScaling.AgreeRounds` | native/mquickjs/dtoa.c:957-965 | rounding such a number with two spare bits rounds the exact one |
| `RadixScaling.MulPowRound` | native/mquickjs/dtoa.c:957-965 | the integer nearest to m * 2^e * radix^f, ties to even or away, for f of either sign |
| `DoubleRounding.RoundToD` | native/mquickjs/dtoa.c:968-999 | rounding a bignum to a binary64 significand: 53 bits, fewer for subnormals, carry into the exponent |
| `DoubleRounding.MulPowRoundToD` | native/mquickjs/dtoa.c:1004-1011 | a * radix^f rounded to binary64 |
| `DoubleRounding.AssembleDouble` | native/mquickjs/dtoa.c:1589-1605 | the bits assembled from significand and exponent: overflow, subnormals, underflow |
| `Digits.MulBase` | native/mquickjs/dtoa.c:1331-1349 | r * base + a, base 0 standing for 2^32 |
| `Digits.CollectDigits` | native/mquickjs/dtoa.c:1459-1494 | the digits, a limb at a time, become the number they stand for; the flag says whether a dropped digit was nonzero |
| `Atod.AtodNumber` | native/mquickjs/dtoa.c:1492-1606 | digits * radix^exponent to the nearest binary64, ties to even, through normals, subnormals and the cut-offs: all digits count in power-of-two radices, the first atod_max_digits in the others |
| `Atod.AtodRoom` | native/mquickjs/dtoa.c:1570-1588 | no bignum of js_atod exceeds DBIGNUM_LEN_MAX limbs |
| `NumberScan.SkipZeros` | native/mquickjs/dtoa.c:1440-1457 | leading zeros, a dot and separators, each where it may stand: what is skipped holds zeros only, and no further zero could be skipped |
| `NumberScan.ScanDigits` | native/mquickjs/dtoa.c:1459-1503 | the significant digits of the text in order and the position of the dot among them; every dot and separator that was passed stands where it may, and the scan could not go on |
| `NumberScan.ScanExponent` | native/mquickjs/dtoa.c:1511-1552 | the exponent up to where it cannot go on, as the number its digits stand for, or that it is beyond the limit, or that its mark has no digit |
| `NumberParsing.FindStart` | native/mquickjs/dtoa.c:1383-1418 | the loops and branches that look at the start of the text decide where its digits begin, in which radix, and whether separators are allowed (what that means: NumberPrefixes) |
| `NumberParsing.HugeExponent` | native/mquickjs/dtoa.c:1553-1560 | an exponent that is too large to be kept means infinity |
| `NumberParsing.TinyExponent` | native/mquickjs/dtoa.c:1553-1560 | one that is too small means zero |
| `NumberParsing.JsAtod` | native/mquickjs/dtoa.c:1352-1618 | for every text: where reading stops, and that the result is the correctly rounded value of the sign, digits, dot and exponent read up to there, infinity, or NaN exactly for texts without a number |
| `NumberParsing.TokenUnique` | native/mquickjs/dtoa.c:1352-1618 | a text is read in one way only: the same digits, point, exponent and end |
| `NumberParsing.ReadsUnique` | native/mquickjs/dtoa.c:1352-1618 | so text, radix and flags determine where js_atod stops and the bits it returns |
| `NumberParsing.LoneDot` | native/mquickjs/dtoa.c:1442-1450 | a dot without a digit is NaN, in every radix, and nothing is consumed |
| `NumberParsing.DoubledSeparator` | native/mquickjs/dtoa.c:1471-1475 | 1__2 is read up to its first separator |
| `NumberGrammar.SpellingRead` | native/mquickjs/dtoa.c:1352-1618 | every text that is spelled by the parts sign, prefix, digits with dot and separators, exponent is read up to its end, and the result is nearest to the number that the parts stand for; the grammar is written without the steps of the parser |
| `NumberGrammar.BareMarkRead` | native/mquickjs/dtoa.c:1511-1533 | a mark that no digit follows makes the text no number |
| `NumberPrefixes.PrefixRead` | native/mquickjs/dtoa.c:1384-1395 | 0x, 0o and 0b in either case: all digits of radix 16, 8 and 2 after them are read, and the result is nearest to what they spell |
| `NumberPrefixes.PrefixNotTaken` | native/mquickjs/dtoa.c:1384-1408 | where the flag or the radix does not allow the prefix, the zero before the letter is read and nothing more |
| `NumberPrefixes.PrefixWithoutDigit` | native/mquickjs/dtoa.c:1409-1411 | a prefix without a digit is NaN |
| `NumberPrefixes.LegacyOctalRead` | native/mquickjs/dtoa.c:1396-1405 | a leading zero and octal digits are read in octal when the flag allows it |
| `NumberPrefixes.LeadingZeroRead` | native/mquickjs/dtoa.c:1396-1408 | with an 8 or a 9 among them, or without the flag, in decimal |
| `NumberPrefixes.PlainRead` | native/mquickjs/dtoa.c:1417-1491 | plain digits are read in the radix asked for, or in ten |
| `NumberPrefixes.InfinityRead` | native/mquickjs/dtoa.c:1413-1416 | the word Infinity with its sign |
| `NumberPrefixes.NoNumberRead` | native/mquickjs/dtoa.c:1413-1564 | what starts with no digit, no dot before a digit and not with the word is NaN, and nothing but the sign is consumed |
| `NumberPrefixes.PrefixExamples` | native/mquickjs/dtoa.c:1383-1412 | 0b11 is 3, 0o17 is 15, 0xfF is 255, 017 is 15, 018 is 18, and 0b1 without the flag is 0 |
| `DigitOutput.DigitStringValue` | native/mquickjs/dtoa.c:845-887 | n digit characters spell the number modulo radix^n |
| `DigitOutput.OutputDigits` | native/mquickjs/dtoa.c:845-887 | repeated division, or shifts for power-of-two radices, write exactly the lowest n digits in order, with the dot in its place |
| `IntegerText.U32toa` | native/mquickjs/dtoa.c:588-601 | an integer in decimal |
| `IntegerText.U64toa` | native/mquickjs/dtoa.c:615-643 | groups of nine digits give the same text above 2^32 |
| `IntegerText.U64toaRadix` | native/mquickjs/dtoa.c:656-687 | the same in any radix, on each of its three paths |
| `IntegerText.NumeralValue` | native/mquickjs/dtoa.c:656-687 | such a text has the value of the number and no superfluous zero |
| `DigitSearch.FirstCandidateRoundsBack` | native/mquickjs/dtoa.c:1191-1213 | with dtoa_max_digits digits the correctly rounded candidate converts back to the number: the spacing argument |
| `DigitSearch.SecondCandidateRoundsBack` | native/mquickjs/dtoa.c:1197-1213 | also after the exponent was raised |
| `FreeFormatSearch.PartsOf` | native/mquickjs/dtoa.c:1120-1163 | the number as a full significand and an exponent, subnormals normalised |
| `FreeFormatSearch.FindMantissa` | native/mquickjs/dtoa.c:1194-1205 | the digits have exactly the wanted count, and the exponent is raised at most once |
| `FreeFormatSearch.StripZeros` | native/mquickjs/dtoa.c:1206-1210 | trailing zeros move to the exponent |
| `FreeFormatSearch.ConvertsBack` | native/mquickjs/dtoa.c:1214-1220 | the check accepts a candidate exactly when it rounds to the number |
| `FreeFormatSearch.FreeFormat` | native/mquickjs/dtoa.c:1182-1234 | the search ends with correctly rounded digits that identify the number, have no trailing zero, and of which one less fails |
| `FreeFormatSearch.SearchRoom` | native/mquickjs/dtoa.c:1182-1234 | no bignum of the search exceeds DBIGNUM_LEN_MAX limbs |
| `FreeFormatSearch.ConvertBackRoom` | native/mquickjs/dtoa.c:1215-1216 | nor does one of the conversion back |
| `WholeNumbers.FastPathAgrees` | native/mquickjs/dtoa.c:1166-1176 | the fast path for whole numbers below 2^53 prints the digits that the search finds |
| `FixedFormat.FixedMantissa` | native/mquickjs/dtoa.c:1268-1274 | the fixed-format loop gives exactly n digits, rounded half away from zero, raising the exponent at most once |
| `FixedFormat.FixedIsNearest` | native/mquickjs/dtoa.c:1268-1274 | no number with n digits, at any exponent, is closer; of two equally close ones the larger is printed (Number.prototype.toPrecision, section 21.1.3.5 of ECMA-262 2023) |
| `FixedFormat.FixedReach` | native/mquickjs/dtoa.c:1268-1274 | the printed exponent exceeds t exactly when the number times radix^(n - t) reaches radix^n - 1/2 |
| `FixedFormat.FixedLimit` | native/mquickjs/dtoa.c:1262-1266 | mant_max is radix^n |
| `FixedFormat.FixedRoom` | native/mquickjs/dtoa.c:1268-1274 | no bignum of the fixed format exceeds DBIGNUM_LEN_MAX limbs |
| `FractionFormat.ScaleFraction` | native/mquickjs/dtoa.c:1245-1246 | abs(d) * radix^n rounded half away from zero |
| `FractionFormat.FractionUpper` | native/mquickjs/dtoa.c:1248-1251 | one digit more than estimated always suffices |
| `FractionFormat.PrintFraction` | native/mquickjs/dtoa.c:1243-1257 | n fraction digits, all integer digits, and no superfluous leading zero (Number.prototype.toFixed, section 21.1.3.3 of ECMA-262 2023) |
| `FractionFormat.FractionRoom` | native/mquickjs/dtoa.c:1245-1246 | no bignum of the fraction format exceeds DBIGNUM_LEN_MAX limbs |
| `NumberLayout.WriteNumber` | native/mquickjs/dtoa.c:1276-1310 | the digits with a dot, padded with zeros on either side, or with an exponent and its mark |
| `NumberPrinting.JsDtoa` | native/mquickjs/dtoa.c:1106-1316 | for every binary64, in all three formats and exponent modes: what the text shows, and that it fits js_dtoa_max_len if and only if a comparison of integers made from the arguments says so |
| `NumberStyle.MarkInText` | native/mquickjs/dtoa.c:1276-1303 | a number has the mark of an exponent exactly when its value is below b^-6 or not below the power of the format, or when an exponent was asked for, and never when it was ruled out; the mark is followed by the sign that tells whether the number is below 1 |
| `NumberStyle.DecimalExponents` | native/mquickjs/dtoa.c:1276-1303 | Number.prototype.toString in radix ten: an e exactly below 10^-6 and from 10^21 on |
| `NumberStyle.NumberWritten` | native/mquickjs/dtoa.c:1276-1310 | with an exponent: one digit, the others after a dot, the mark e, p or @, a sign, and the power without superfluous zeros; without: a 0 before the dot exactly below 1, and the dot where the value puts it, or none |
| `NumberStyle.ZeroWritten` | native/mquickjs/dtoa.c:1138-1154 | zero: one digit, n digits in the fixed format, n digits behind the dot in the fraction format, with the exponent +0 if one is asked for and the sign if that is |
| `NumberStyle.FractionWritten` | native/mquickjs/dtoa.c:1236-1257 | the fraction format: exactly n digits behind the dot, none superfluous before it, and together they spell the scaled and rounded number |
| `NumberStyle.WordWritten` | native/mquickjs/dtoa.c:1127-1137 | NaN and the infinities are words |
| `NumberStyle.LowerCase` | native/mquickjs/dtoa.c:559-587 | no finite number is printed with an upper-case letter |
| `PrintedLength.SubnormalFits` | native/mquickjs/dtoa.c:1032-1058 | even without an exponent the free format never prints more of a subnormal than js_dtoa_max_len allows |
| `PrintedLength.FineCandidate` | native/mquickjs/dtoa.c:1214-1230 | because a candidate finer than the spacing of subnormals converts back |
| `NumberPrinting.FixedSubnormalLength` | native/mquickjs/dtoa.c:1044-1058 | without an exponent a fixed-format subnormal of y units, with n digits and s sign characters, fits js_dtoa_max_len if and only if 2 * y * 10^(n + 318 - s) >= (2 * 10^n - 1) * 2^1074 |
| `NumberPrinting.SmallestSubnormalTooLong` | native/mquickjs/dtoa.c:1044-1058 | the smallest subnormal in that format never fits |
| `NumberPrinting.ZeroFractionLength` | native/mquickjs/dtoa.c:1060-1078 | zero in fraction format with a forced exponent fits exactly when digits and sign are at most four |
| `RoundTrip.TextRoundTrip` | native/mquickjs/dtoa.c:1106-1618 | js_atod(js_dtoa(d)) == d: in every radix from 2 to 36, with any choice of exponent and any parsing flags but integers only, the whole text is read and the same bits come back, zeros, subnormals and infinities included; NaN comes back as NaN exactly below radix 24, where nothing is consumed |
| `RoundTrip.PrintThenParse` | native/mquickjs/dtoa.c:1106-1618 | the two functions composed on a buffer that js_dtoa_max_len allows (Number::toString, section 6.1.6.1.20 of ECMA-262 2023) |
| `RefTable.LiveHandleResolves` | native/shim/mquickjs_kmp.c:205-224 | a live slot is reached through its own handle exactly while its generation is below 2^31 |
| `RefTable.NegativeHandleExample` | native/shim/mquickjs_kmp.c:215-221 | with generation 2^31 the handle is negative and is refused |
| `RefTable.StaleHandles` | native/shim/mquickjs_kmp.c:215-296 | over any run a handle resolves to the object it was issued for or to nothing, and once its slot was freed never again |
| `RefTable.OutstandingResolves` | native/shim/mquickjs_kmp.c:215-224 | what is outstanding resolves, while generations stay below 2^31 |
| `RefTable.RefTable.New` | native/shim/mquickjs_kmp.c:226-258 | a new handle, outstanding once, in the first free slot or a new one; all other references unchanged; the free list stays acyclic and holds exactly the free slots |
| `RefTable.RefTable.Reserve` | native/shim/mquickjs_kmp.c:262-284 | after it slot_new cannot fail, and no handle changes its meaning |
| `RefTable.RefTable.Free` | native/shim/mquickjs_kmp.c:286-296 | the slot joins the free list and its handle dies |
| `RefTable.RefTable.Retain` | native/shim/mquickjs_kmp.c:298-303 | one more outstanding release, if the handle is live |
| `RefTable.RefTable.Release` | native/shim/mquickjs_kmp.c:305-310 | one outstanding release less, and the last one kills the handle |
| `RefTable.GetStats` | native/shim/mquickjs_kmp.c:312-320 | live_refs is the number of outstanding releases |
| `RefTable.LoadBytecode` | native/shim/mquickjs_kmp.c:1024-1057 | a program ref exists exactly on success and reaches the program, and nothing is left outstanding on failure |
| `HostCall.JsKmpHost` | native/shim/mquickjs_kmp.c:661-708 | whatever the conversions and the host do, nested calls and failures included, every transient ref is released exactly once; the host function runs exactly when there is memory and all arguments are converted, and then every step of it is taken: the objects that the host holds afterwards are those that its steps make of those it held before |
| `HostCall.ConvertArgs` | native/shim/mquickjs_kmp.c:683-688 | refs exist for exactly the objects among the arguments before the first that fails, in order, and each ref reaches its object, whatever script ran in between |
| `HostCall.ReleaseArgs` | native/shim/mquickjs_kmp.c:697-702 | the release loop returns them all |
| `HostCall.ClosedArgumentLosesCopy` | native/shim/mquickjs_kmp.c:697-702 | a host that closes an argument it retained loses the copy: why arguments should not be closed |
| `RefHandles.JsEngine.Retain` | library/src/commonMain/kotlin/wang/harlon/mquickjs/JsRef.kt:54-57 | a retained handle owes its own release; closed handles and engines refuse; on a handle whose object is gone the native side does nothing |
| `RefHandles.JsEngine.Close` | library/src/commonMain/kotlin/wang/harlon/mquickjs/JsRef.kt:59-63 | close releases what the handle owes, once, and not after the engine was closed; on an open argument it takes a release that is due elsewhere, and nothing else ever does |
| `RefHandles.JsEngine.IsValid` | library/src/commonMain/kotlin/wang/harlon/mquickjs/JsRef.kt:25-26 | a usable handle reaches its slot exactly when fewer of its releases were taken by closed arguments than are due |
| `RefHandles.JsEngine.Invalidate` | library/src/commonMain/kotlin/wang/harlon/mquickjs/JsRef.kt:66-68 | a transient handle dies without a release |
| `RefHandles.JsEngine.OnHostCall` | library/src/commonMain/kotlin/wang/harlon/mquickjs/JsEngine.kt:19-28 | whatever the host function does with handles, closing those of its arguments, calls back into script and nested host calls included, the handles of its arguments are dead after the call, those of outer calls only if it closed them, outstanding and taken releases are together those that are due, none is taken unless an argument was closed, and the handles that exist and are closed afterwards are those that the steps make and close |
| `RefHandles.JsEngine.CallBack` | native/shim/mquickjs_kmp.c:661-708 | a nested host call lends its arguments, up to the first that cannot be made, takes every one back, and runs the host function when all could be made |
| `RefHandles.JsEngine.NothingLeaks` | library/src/commonMain/kotlin/wang/harlon/mquickjs/JsEngine.kt:131-133 | when every handle that owes a release is closed, nothing but the arguments of running calls is outstanding, and every release that was taken has been made up for |
| `EntryPoints.Engine.Call` | native/shim/mquickjs_kmp.c:626-858 | an entry point succeeds exactly when its handles are usable and no step that it takes fails; on every exit and under any nesting it leaves the run state exactly as it was, but interrupted if the engine was running and an interrupt came, on the path taken, however deep |
| `EntryPoints.Engine.Happens` | native/shim/mquickjs_kmp.c:398-416 | the same for the events of a script step, nested entry points included: an interrupt during a run is still set when the step ends |
| `EntryPoints.Engine.RefCall` | native/shim/mquickjs_kmp.c:778-835 | the call succeeds exactly when every step did, and every failure passes through the common exit |
| `EngineRuns.EngineSafe` | library/src/commonMain/kotlin/wang/harlon/mquickjs/JsEngine.kt:78-121 | for any number of interrupting and closing threads: idle exactly when no run is open, freed at most once, and no interrupt is about to enter native code after that |
| `EngineRuns.LateUseIsRunEnd` | library/src/commonMain/kotlin/wang/harlon/mquickjs/JsEngine.kt:78-121 | native code is entered after it was freed exactly by the end of a run: in no run of any number of threads by an interrupt |
| `EngineRuns.LateUseIsInnerClose` | library/src/commonMain/kotlin/wang/harlon/mquickjs/JsEngine.kt:115-121 | that needs a close() that won while a run was open; and when close() is a call of the owner, native code was entered after it was freed exactly if it won inside a run, once all runs have ended |
| `EngineRuns.ClosedOutsideIsSafe` | library/src/commonMain/kotlin/wang/harlon/mquickjs/JsEngine.kt:115-121 | so an engine that is only closed outside runs is never used after it was freed |
| `EngineRuns.CloseInHostFunction` | library/src/commonMain/kotlin/wang/harlon/mquickjs/JsEngine.kt:115-121 | a host function that closes its own engine: close() does not refuse, and the run ends in freed code |
| `EngineRuns.InterruptPersists` | native/shim/mquickjs_kmp.c:398-416 | an interrupt that is delivered while a run is open interrupts it, and stays set until the outermost run ends |
| `EngineRuns.InterruptLands` | native/shim/mquickjs_kmp.c:398-402 | what the delivery of an interrupt does: an open run is interrupted, and nothing else is touched |
| `EngineRuns.NoInterruptIsLost` | library/src/commonMain/kotlin/wang/harlon/mquickjs/JsEngine.kt:78-86 | no call of interrupt() returns without having delivered the interrupt or found the engine closed |
| `EngineRuns.OnlyInterruptsStop` | native/shim/mquickjs_kmp.c:398-416 | and nothing but an interrupt changes the state of an open run |
| `EngineRuns.IdleInterruptIsDropped` | native/shim/mquickjs_kmp.c:398-402 | an interrupt outside any run moves only its own thread; every state up to the next run is idle and that run starts uninterrupted, in every run of any number of threads |
| `RuntimeClose.RuntimeSafe` | library/src/commonMain/kotlin/wang/harlon/mquickjs/JsRuntime.kt:41-123 | whenever callers are cancelled and whatever blocks do, at most one block runs, it holds the mutex, it finds the engine closed only if a block closed it, and the engine is freed at most once |
| `RuntimeClose.RefusedOnceClosed` | library/src/commonMain/kotlin/wang/harlon/mquickjs/JsRuntime.kt:41-50 | no block starts once close() or shutdown() has won the exchange, and until then a caller that has the lock runs its block |
| `RuntimeClose.NoBlockAfterClose` | library/src/commonMain/kotlin/wang/harlon/mquickjs/JsRuntime.kt:41-50 | so in every later state only blocks that were already running still run |
| `RuntimeClose.InterruptLands` | library/src/commonMain/kotlin/wang/harlon/mquickjs/JsRuntime.kt:52-112 | the interrupts of close(), shutdown() and the watchdog stop the script that is running |
| `RuntimeClose.WatchdogFires` | library/src/commonMain/kotlin/wang/harlon/mquickjs/JsRuntime.kt:52-73 | a watchdog is not over while its block still runs unless it has interrupted the engine or was cancelled before it started |
| `RuntimeClose.NoDeadlock` | library/src/commonMain/kotlin/wang/harlon/mquickjs/JsRuntime.kt:41-123 | while a call is unfinished some unfinished call can take a step that nobody has to ask for |
| `RuntimeClose.EveryStepCounts` | library/src/commonMain/kotlin/wang/harlon/mquickjs/JsRuntime.kt:41-123 | and each such step leaves fewer to take, so that all calls come to an end |
| `RuntimeClose.ClosedUnderLock` | library/src/commonMain/kotlin/wang/harlon/mquickjs/JsRuntime.kt:96-123 | the engine is closed only by the task that holds the mutex, and outside blocks with no native run open, which is what JsEngine.close needs |
| `RuntimeClose.NoCloseIsMissed` | library/src/commonMain/kotlin/wang/harlon/mquickjs/JsRuntime.kt:108-123 | when all started tasks have finished after a close or shutdown, the engine is closed |
| `RuntimeClose.WatchdogStopsOwnCall` | library/src/commonMain/kotlin/wang/harlon/mquickjs/JsRuntime.kt:52-73 | a watchdog interrupt lands only in the run of its own call |
| `RuntimeClose.BlocksStartIdle` | library/src/commonMain/kotlin/wang/harlon/mquickjs/JsRuntime.kt:52-73 | and the next block starts on an idle engine |
| `Wtf8.EncodeLoop` | library/src/commonMain/kotlin/wang/harlon/mquickjs/Wtf8.kt:8-43 | the encoding loop writes the generalised UTF-8 of the code points, within a buffer of three bytes a unit |
| `Wtf8.DecodeLoop` | library/src/commonMain/kotlin/wang/harlon/mquickjs/Wtf8.kt:47-79 | the decoding loop, malformed input included, step by step |
| `Wtf8.Encode` | library/src/commonMain/kotlin/wang/harlon/mquickjs/Wtf8.kt:8-43 | both paths of encode agree |
| `Wtf8.Decode` | library/src/commonMain/kotlin/wang/harlon/mquickjs/Wtf8.kt:45-80 | both paths of decode agree on well-formed input |
| `Wtf8.EncodeThenDecode` | library/src/commonMain/kotlin/wang/harlon/mquickjs/Wtf8.kt:8-80 | decode(encode(s)) == s for every sequence of code units, unpaired surrogates included |
| `Wtf8.DecodeThenEncode` | library/src/commonMain/kotlin/wang/harlon/mquickjs/Wtf8.kt:8-80 | encode(decode(b)) == b exactly for the well-formed sequences that encode no surrogate pair separately |
| `Wtf8.DecodeFront` | library/src/commonMain/kotlin/wang/harlon/mquickjs/Wtf8.kt:47-79 | what is well formed at the front decodes to its units, whatever follows |
| `Wtf8.StrayByte` | library/src/commonMain/kotlin/wang/harlon/mquickjs/Wtf8.kt:73-76 | a byte that starts nothing becomes U+FFFD, and decoding goes on behind it |
| `Wtf8.CutShort` | library/src/commonMain/kotlin/wang/harlon/mquickjs/Wtf8.kt:47-79 | a code point that is cut short at the end becomes one U+FFFD for each byte that is left of it |
| `Wtf8.ContinuationBits` | library/src/commonMain/kotlin/wang/harlon/mquickjs/Wtf8.kt:57-82 | of continuation bytes only the low six bits are looked at |
| `Wtf8.NoSurrogateBytes` | library/src/commonMain/kotlin/wang/harlon/mquickjs/Wtf8.kt:46 | without the byte 0xED no surrogate is encoded |

## Left out

- RoundTrip.TextRoundTrip: restricted to the free format and to flags that accept a dot and an exponent, as the other formats drop digits and integers-only parsing stops at the dot.
- NumberParsing.JsAtod: texts of 2^28 characters or more, where int positions times the bits of the radix overflow; exponents are unbounded integers, so the int overflow of huge exponents in radices other than ten is not modelled.
- Atod.AtodNumber: in radices that are no power of two, digits after the first atod_max_digits are dropped by the code, and the result is nearest to the kept ones.
- FixedFormat.FixedMantissa: radix ten only, which is all that dtoa.h offers for this format.
- FreeFormatSearch.FreeFormat: that one digit fewer fails, not that no shorter numeral of any kind would do, since only correctly rounded candidates are tried.
- SquareRoot.SqrtremU: excludes operands from 2^126 on, as the comment on sqrtrem_u does, and the one operand 2^126 - 1, at which the assertion of divrem_u fails.
- BitwiseSquareRoot.JsSqrt: for the subnormal operands for which the code shifts a 32-bit word by 32, which C leaves undefined, nothing is promised when that yields something else than 0; NaN results are the default NaN.
- RoundPack.NormalizeSf: the count of leading zeros of 0, which C leaves undefined, is taken as 64.
- Reciprocal.MpDiv1Norm: source and destination are the same array or do not overlap.
- RefTable.StaleHandles: ends where a generation would pass 2^32 - 1; HostCall.JsKmpHost and what builds on it assume that generations stay below 2^31.
- HostCall.JsKmpHost: hosts do not close the refs of their arguments (RefHandles.JsEngine.OnHostCall has hosts that do); string and number conversion failures are not told apart.
- RefHandles.JsEngine.OnHostCall: the host does not close the engine during the call (EngineRuns says what that leads to), and exceptions of the host function are the end of its steps.
- EngineRuns.LateUseIsRunEnd: what the freed native code does when a run ends in it; and no run begins after close(), which checkOpen refuses on the owner's thread.
- RuntimeClose.RuntimeSafe: JsEngine.interrupt and JsEngine.close are single steps here; their own steps are in EngineRuns.
- RuntimeClose.WatchdogStopsOwnCall: safety only; an interrupt that comes before its run begins is dropped, so cancellation need not stop a script.
- Wtf8.Decode: what the platform decoder makes of input that is not well formed and has no byte 0xED.
- The floating point exception flags, the 32 and 128 bit instances, conversions between float sizes, and the variants on 128-bit integers.
- The transcendental functions of libm.c, whose claims are error bounds of real analysis.
- The engine proper (parser, virtual machine, compacting collector): JavaScript values are opaque here, and script is whatever a run may do.
- JNI, cinterop and platform bindings, logging, clocks, malloc behaviour beyond success or failure, serialization glue, command line tools and table generators.
