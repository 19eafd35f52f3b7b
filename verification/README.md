# Decimal arithmetic of the decNumber library

This project models the fixed-size decimal arithmetic of decNumber 3.68 (`lib/decNumber`): the module
behind decDouble (16 digits) and decQuad (34 digits). The same C text is compiled for both sizes, so the
model is written over a `Format` (digits, exponent range, length in base-billion units) and, where bits
matter, a `Shape` (words, declets, width of the exponent continuation). Digit strings, accumulators and
word arrays have any length, so every loop is unbounded.

**The specification.** A finite number is (sign, coefficient, exponent). An exact result is a fraction of
naturals in units of 10^Etiny, and `Rounding.RoundExact` rounds it once: the least quantum that leaves p
digits, the mode's choice, flags, clamping, overflow and fold-down. `RoundingTheorems` and `Preferred` show
that this is the rounding IEEE 754-2008 asks for (sections 4.3, 5.2, 7.4 and 7.5) in terms of representable
numbers alone. Every operation is then proved to deliver `RoundExact` of the mathematically exact result.

**The operations.** They keep the form of the source: digit and unit buffers are arrays that loops change
in place, the number being finalized and the context are objects, and carries, borrows, 32-bit and 64-bit
word widths, reciprocal multiplications and sticky digits are those of the code. Where one C function has a
64-bit and a 32-bit body (`decFiniteMultiply`, `decDivide`), both are modelled and proved to agree
(`use64`).

| file | part of the library |
|---|---|
| `Arith`, `Digits` | powers and quotients; digit strings and unit arrays |
| `Rounding`, `RoundingTheorems`, `Preferred`, `Sticky` | correct rounding; why short stand-ins round alike |
| `Context`, `Finalize` | the context and bcdnum objects; `decFinalize` |
| `BillBcd`, `Multiply` | base-billion units; `decFiniteMultiply`, `decFloatMultiply` |
| `ExactSum`, `Separation`, `OneMode`, `SameHalf`, `FusedAdd` | the exact sum, when results differ, in one mode or in all, and when addends may be replaced; `decFloatFMA` |
| `WordAdd`, `Add` | four digits at a time; `decFloatAdd` |
| `Divide`, `DivideOps`, `IntegerDivision` | long division, rounded quotient, integer quotient and remainders (`decDivide`) |
| `NextNumber`, `Compare`, `Quantize` | `decFloatNextPlus`/`NextMinus`, `decNumCompare`, `decFloatQuantize` |
| `Declet`, `Canonical`, `Encoding`, `Interchange` | densely packed decimal, `decCanonical`, `decFloatFromBCD`/`ToBCD` |
| `DoubleRounding`, `Widening` | rounding twice; `decFloatToWider`/`FromWider` |
| `FastPath` | `decFloatAdd` on encodings, the fast path word by word |
| `NumericString`, `FromString`, `LongExponent`, `ToString` | numeric strings, `decFloatFromString`, `decFloatToString` |

`dafny verify dfyconfig.toml` checks the whole project.

**Where code and comments differ, or the code misses its promise.** The model follows the code.

- `decFloatFMA` may collapse the lower operand to one digit although it still overlaps the higher one's
  digits, and a carry or borrow can be lost with it: `FusedAdd.OverlapMissesCarry`. `FusedAdd.FmaRoundsOnce`
  gives the exact condition: in every mode the result is the sum rounded once if and only if not
  `FusedAdd.FmaLosesCarry`, that is, unless the collapsed operand overlaps, its own digits take the sum out of
  the last half unit of the higher operand, and the sum is in range. `FusedAdd.FmaInMode` gives it for one
  mode: the mode must also tell the two sides of that half unit apart (`SameHalf.Tells`).
- `decFloatFromString` replaces an exponent of more than DECEMAXD significant digits by a large one, which
  is wrong for some numerals with very many digits: `LongExponent.ManyDigitsMisread`.
  `LongExponent.AnyExponentIsRounded` and, mode by mode, `LongExponent.AnyExponentInMode` give the exact
  condition, on the two exponents and the digits.
- `decFloatFromString` copies no digit of an all-zero coefficient that is too long for its buffer and ends
  in a point, and then finalizes digits it never stored. `StringReader.NothingCopied` names these strings;
  nothing is claimed of their result.
- The comment on `decFloatFromBCD` says that the digits are ignored for an infinity and that the result is
  canonical. The code places the digits and the whole special value, so an infinity asked for with bit
  0x02000000 set or with digits is not canonical: `Interchange.AskedCanonicalIff`. `decFloatToBCD` hands that
  bit on, so the two together leave decDouble 7A000000 00000000 as it is, where `decCanonical` makes
  78000000 00000000: `Interchange.ToThenFrom`, `Interchange.InfinityNotCleaned`.


## Model

| member | source | states |
|---|---|---|
| Finalizer.Finalize | lib/decNumber/decCommon.c:230-473 | for a digit string of any length with any leading zeros, any exponent and sign, and each of the eight modes, the number stored and the conditions raised are those of the exact value coefficient * 10^exponent rounded once |
| Finalizer.RoundDigits | lib/decNumber/decCommon.c:262-411 | what is left after dropping digits is the exact value rounded to p digits and Etiny, Inexact and Underflow accounted for, with only clamping, overflow or fold-down to come |
| Finalizer.Discard | lib/decNumber/decCommon.c:288-316 | the three ways a cut can fall (inside, at, or left of the digits) all leave the truncated quotient and one re-round digit that stands for the remainder |
| Finalizer.DigestTwo | lib/decNumber/decCommon.c:290-297 | a first discarded digit and one bit for the rest say everything that comparing with zero and with a half needs |
| Finalizer.BumpRounds | lib/decNumber/decCommon.c:326-367 | the choice made from the re-round digit and the last digit kept is correct rounding of the fraction in every mode, 05UP's test for a last digit of 0 or 5 included |
| Finalizer.Increment | lib/decNumber/decCommon.c:371-385 | adding one in place, nines by fours, gives the value plus one, or all zeros and a carry exactly when every digit was nine |
| Finalizer.CarryOut | lib/decNumber/decCommon.c:386-406 | the all-nines carry becomes a one and zeros: the exponent goes up when p digits are in use, and a subnormal gains a digit instead |
| Finalizer.OverflowTest | lib/decNumber/decCommon.c:422-426 | the test on the adjusted exponent decides whether the value itself is out of range |
| Finalizer.FitDigits | lib/decNumber/decCommon.c:416-472 | clamped zeros, overflow to infinity or Nmax as the mode dictates, and fold-down, which keeps the value |
| RoundingTheorems.InexactIffChanged | lib/decNumber/decCommon.c:318-320 | Inexact is raised exactly when the stored number is not the exact value |
| RoundingTheorems.UnderflowIffTiny | lib/decNumber/decCommon.c:321-324 | Underflow is raised exactly for inexact results whose exact value was below 10^Emin, before rounding |
| RoundingTheorems.NearestIsClosest | lib/decNumber/decCommon.c:326-345 | the half modes: no representable magnitude is closer to the exact value, and a tie with another goes the way the mode says |
| RoundingTheorems.TowardZeroIsGreatest | lib/decNumber/decCommon.c:333-359 | rounding toward zero stores the greatest representable magnitude not above the exact one, even on overflow |
| RoundingTheorems.AwayFromZeroIsLeast | lib/decNumber/decCommon.c:343-359 | rounding away from zero stores the least representable magnitude not below the exact one, and infinity only when there is none |
| RoundingTheorems.NearestIsInfiniteIff | lib/decNumber/decCommon.c:422-446 | the half modes give an infinity exactly when the exact value is at least half a quantum above the largest finite number, strictly more under half-down (section 4.3.1 of IEEE 754-2008) |
| RoundingTheorems.ReroundIsDownOrNext | lib/decNumber/decCommon.c:360-367 | 05UP gives what rounding toward zero gives, one unit farther when that is inexact and ends in 0 or 5, with the same exponent and conditions and never an infinity |
| RoundingTheorems.OverflowIffUnboundedExceeds | lib/decNumber/decCommon.c:422-452 | Overflow is raised exactly when rounding with an exponent range wide enough for the value would exceed the largest finite number; otherwise the two ranges agree |
| RoundingTheorems.WideEnough | lib/decNumber/decCommon.c:422-452 | such a range exists for every value, whatever the mode and sign |
| RoundingTheorems.ReroundIsSingleRounding | lib/decNumber/decCommon.c:360-367 | round-for-reround: rounding a 05UP result again to fewer digits, in any mode, is rounding the exact value once to those digits |
| DoubleRounding.RoundTwice | lib/decNumber/decCommon.c:360-367 | the same across two formats, subnormals and overflow included: rounding 05UP into the wider format and then in any mode into the narrower gives the number, exponent and conditions of rounding once, if and only if the value is not an inexact subnormal of two formats with one least quantum |
| RoundingTheorems.RepresentableIsExact | lib/decNumber/decCommon.c:262-272 | a value the format can represent is always stored exactly with nothing raised |
| RoundingTheorems.ResultHolds | lib/decNumber/decCommon.c:475-478 | whatever is rounded, a finite result is a number the format holds and has the sign asked for |
| Preferred.ExactTakesPreferred | lib/decNumber/decCommon.c:262-272 | an exact result has the exponent nearest the ideal one among all the ways to write the value in the format (section 5.2 of IEEE 754-2008) |
| Preferred.InexactTakesLeast | lib/decNumber/decCommon.c:274-411 | an inexact finite result has the least exponent among all the ways to write it in the format |
| Sticky.SameCell | lib/decNumber/decBasic.c:511-516 | any two values strictly inside one cell that holds no representable number and no midpoint round to the same number with the same conditions in every mode: the reason every sticky shortcut is sound |
| Multiply.LongMul32HiExact | lib/decNumber/decNumberLocal.h:127-135 | the 16-bit halves of LONGMUL32HI lose no carry: the result is the exact high word of the product |
| Multiply.EstimateDouble | lib/decNumber/decBasic.c:794-819 | for a column below 2*10^18 the magic-constant estimate (A=29, B=32) is low by at most 1 |
| Multiply.EstimateQuad | lib/decNumber/decBasic.c:794-819 | for a column below 4*10^18 the estimate (A=30, B=31) is low by at most 2 |
| Multiply.Columns64 | lib/decNumber/decBasic.c:747-774 | the unresolved 64-bit column sums represent the exact product and never wrap |
| Multiply.Columns32 | lib/decNumber/decBasic.c:863-890 | the pairs of words of the 32-bit build, with carries found by comparing, represent the same exact product |
| Multiply.LastColumn | lib/decNumber/decBasic.c:851-855 | the top column is below a billion when its turn comes, so it never needs splitting |
| Multiply.Resolve64 | lib/decNumber/decBasic.c:828-860 | resolving the carries column by column leaves reduced units of the same value |
| Multiply.Resolve32 | lib/decNumber/decBasic.c:943-997 | so does the 32-bit build, word by word, with a carry into the high word of the next column |
| Multiply.ProductUnits | lib/decNumber/decBasic.c:743-998 | both builds produce the same base-billion units, those of the exact product |
| Multiply.FiniteMultiply | lib/decNumber/decBasic.c:708-1053 | the digits handed on are exactly the product of the two coefficients, the exponents are added and the signs combined |
| Multiply.FloatMultiply | lib/decNumber/decBasic.c:2659-2679 | the exact product rounded once; zero times infinity is invalid and NaNs propagate |
| ExactSum.SumCommutes | lib/decNumber/decBasic.c:1231-1246 | the rounded exact sum does not depend on the order of the operands, so exchanging them by exponent is harmless |
| ExactSum.ReplaceFar | lib/decNumber/decBasic.c:1345-1354 | a far-away addend may be replaced by any other far-away addend of its sign without changing result or conditions |
| Preferred.SumTakesLowExponent | lib/decNumber/decBasic.c:1558-1567 | an exact sum or difference that fits is returned unrounded at the lower of the two exponents, with the sign that section 6.3 of IEEE 754-2008 asks for when it is zero |
| Preferred.SumIsRounded | lib/decNumber/decBasic.c:1558-1567 | what a sum or difference rounds is the sum of the two signed values at the lower exponent, with its sign; a zero has the sign of section 6.3 |
| FusedAdd.AddStrings | lib/decNumber/decBasic.c:2166-2216 | for digit strings of any length and padding the digit loop (by fours, singly, gap, both, one left over) builds the exact sum with the injected carry and returns the carry out, also when it writes over the buffer that still holds either operand |
| FusedAdd.Negate | lib/decNumber/decBasic.c:2231-2239 | ten's complement in place, by fours and then singly, of any non-zero digits; the added one cannot overrun |
| FusedAdd.SettleSum | lib/decNumber/decBasic.c:2218-2253 | after carry, borrow or cancellation digits and sign are those of the exact signed sum, and an exact zero gets its section 6.3 sign |
| FusedAdd.AddOperands | lib/decNumber/decBasic.c:2104-2253 | complementing hi, aligning and adding in the accumulator that holds one of the operands gives the exact signed sum |
| FusedAdd.OperandsFit | lib/decNumber/decBasic.c:2000-2003 | a product laid out without leading zero words ends far enough left that, with any padding, its last digit stays at or left of the place where the sum is written |
| FusedAdd.FarHarmless | lib/decNumber/decBasic.c:2134-2162 | when lo is collapsed to one digit and lies wholly right of hi's last digit, result and conditions are unchanged in every mode, also when hi is a power of ten and subtraction loses a digit |
| SameHalf.ReplaceWithinHalf | lib/decNumber/decBasic.c:2134-2162 | two addends of one sign, neither of which carries or borrows past the last half unit of a long coefficient, give the same sum and conditions in every mode |
| OneMode.InexactSame | lib/decNumber/decCommon.c:318-324 | two inexact values give one result in a given mode if and only if both overflow, or the mode delivers the same magnitude for both and both or neither are below 10^Emin |
| OneMode.NearIff | lib/decNumber/decCommon.c:326-367 | for values just below and just above, or one of them at, a midpoint or a number of p digits: one given mode gives both the same result if and only if it treats the two sides alike, worked out from its choice on either side, overflow and the change of quantum at a power of ten included |
| SameHalf.ReplaceInMode | lib/decNumber/decBasic.c:2134-2162 | in one given mode a small addend may be replaced by a digit three places down if and only if it does not carry or borrow past the last half unit, or the mode treats the two sides of that boundary alike, or both sums overflow |
| SameHalf.ReplaceIff | lib/decNumber/decBasic.c:2134-2162 | it may be replaced in every mode if and only if it does not carry or borrow past that half unit, or both sums overflow |
| FusedAdd.OverlapInMode | lib/decNumber/decBasic.c:2134-2162 | a collapsed lo that overlaps hi's digits is harmless in a given mode exactly when no carry or borrow is lost with it that the mode tells |
| FusedAdd.FmaInMode | lib/decNumber/decBasic.c:2064-2262 | for all operands and each mode: the fused result is the exact sum of product and addend rounded once in that mode if and only if the collapse loses no carry or borrow past the last half unit whose two sides that mode tells apart |
| FusedAdd.FmaRoundsOnce | lib/decNumber/decBasic.c:2064-2262 | for all operands: it is that in every mode if and only if the collapse loses no such carry or borrow at all; a lost one shows in some mode |
| FusedAdd.OverlapMissesCarry | lib/decNumber/decBasic.c:2134-2162 | a concrete decDouble case in which such a carry is lost and the result to nearest comes out one unit low; rounding down does not show it |
| FusedAdd.CollapseBegins | lib/decNumber/decBasic.c:2134-2162 | decDouble addends of fourteen and of fifteen nines over the same product: the first is collapsed and its carry lost, the second is added exactly |
| FusedAdd.FloatFma | lib/decNumber/decBasic.c:1996-2262 | product, addend and result sharing one accumulator: l * r + a rounded once whenever no carry is lost that the context's mode tells, what is computed otherwise, and every special case |
| LongDivision.DivTop | lib/decNumber/decBasic.c:287-306 | divtop quarters of the divisor's top unit are never less than the divisor |
| LongDivision.LowEstimate | lib/decNumber/decBasic.c:366-417 | a numerator taken low over a denominator taken high never exceeds the true quotient |
| LongDivision.EstimateEqual | lib/decNumber/decBasic.c:366-393 | equal lengths: the multiplier of the 64-bit and of the 32-bit build never exceeds the true quotient |
| LongDivision.EstimateLonger | lib/decNumber/decBasic.c:395-417 | one unit longer: likewise, the possible 32-bit wrap of *(msua-1)*DIVHI only lowering the estimate |
| LongDivision.SplitProduct | lib/decNumber/decBasic.c:435-452 | reciprocal multiplication splits product plus carry into a unit and the next carry, with at most one correction |
| LongDivision.SplitProduct32 | lib/decNumber/decBasic.c:453-475 | the 32-bit build splits the same way from a pair of words |
| LongDivision.SubtractMultiple | lib/decNumber/decBasic.c:427-482 | multiply-and-subtract takes exactly multiplier * divisor off the accumulator in place; no borrow escapes the top unit and every unit stays below 10^9 |
| LongDivision.CompareUnits | lib/decNumber/decBasic.c:351-364 | comparing unit by unit from the top decides less, equal or greater for the numbers |
| LongDivision.QuotientUnit | lib/decNumber/decBasic.c:331-483 | the inner loop ends with the exact quotient unit and a remainder below the divisor |
| LongDivision.CountDigits | lib/decNumber/decBasic.c:496-499 | walking the table of powers of ten counts the digits of the first non-zero unit |
| LongDivision.KeepGoing | lib/decNumber/decBasic.c:503-509 | whenever neither exit is taken there is another accumulator unit to bring in: lsua never drops below acc |
| LongDivision.Turn | lib/decNumber/decBasic.c:318-509 | one turn of the outer loop keeps: dividend so far = quotient so far * divisor + accumulator, with a remainder below the divisor |
| LongDivision.LongDivide | lib/decNumber/decBasic.c:248-509 | on exit the quotient units and the accumulator are quotient and remainder of the shifted dividend, and the quotient is exact or has more than p + 1 digits |
| DivisionOps.QuotientDigits | lib/decNumber/decBasic.c:526-557 | the quotient units become a digit string whose first digit is not zero |
| DivisionOps.QuotientNumber | lib/decNumber/decBasic.c:511-569 | what is handed on stands for the exact quotient: exact without spare zeros, or more than p + 1 digits with a sticky last bit |
| DivisionOps.NoHigherQuantum | lib/decNumber/decBasic.c:559-569 | an exact quotient stripped of the extra unit's trailing zeros has no quantum above its own exponent, so the ideal exponent still decides |
| DivisionOps.StickyCell | lib/decNumber/decBasic.c:511-516 | an inexact quotient and its sticky stand-in lie strictly inside one cell |
| DivisionOps.StickyQuotientRounds | lib/decNumber/decBasic.c:511-578 | for all non-zero coefficients and every mode, rounding the digits handed over gives the same number and conditions as rounding the exact quotient with ideal exponent el - er |
| DivisionOps.QuotientTimesDivisor | lib/decNumber/decBasic.c:511-578 | that exact quotient is the fraction which times the divisor gives the dividend, and its ideal exponent is el - er |
| IntegerDivision.IntegerFromDigits | lib/decNumber/decBasic.c:588-649 | cutting or padding the sticky digits gives the truncated, or nearest-even, integer quotient of the operands themselves |
| IntegerDivision.NearestInteger | lib/decNumber/decBasic.c:611-647 | rounding to nearest even in place, with the carry into the zero placed on the left |
| IntegerDivision.FormInteger | lib/decNumber/decBasic.c:588-649 | the digits formed in place are that integer, or it is reported impossible exactly when it needs more than p digits |
| IntegerDivision.IntegerStored | lib/decNumber/decBasic.c:652-655 | an integer of at most p digits is stored exactly |
| IntegerDivision.NearestFits | lib/decNumber/decBasic.c:611-647 | a quotient of at most p digits is never rounded up to 10^p by remainder-near, so the carry cannot lengthen the integer |
| IntegerDivision.RemainderBound | lib/decNumber/decBasic.c:654-662 | the remainder is below the divisor, at most half of it for remainder-near, and never longer than the dividend |
| IntegerDivision.NoShortcut | lib/decNumber/decBasic.c:658 | the far-operand shortcut of the multiply-add never overlaps on a remainder's operands, so no carry is lost |
| IntegerDivision.RemainderIsExact | lib/decNumber/decBasic.c:654-662 | the multiply-add that forms the remainder is exactly dfl - n * dfr at the lower of the two exponents, with nothing raised |
| IntegerDivision.FloatDivide | lib/decNumber/decBasic.c:167-663 | all four operations on all operands: rounded quotient; an integer quotient with the quotient's sign that leaves less than dfr; a remainder that is exactly dfl less a signed integer times dfr, at the lower exponent, below dfr with dfl's sign, or for remainder-near at most half of dfr and exactly half only from an even integer, a zero with dfl's sign; impossible exactly when dfl is at least 10^p times dfr; undefined, by zero, and the special values |
| WordAdd.WordSumIs | lib/decNumber/decBasic.c:1435-1452 | one 32-bit word of the add loop is exactly four decimal digit additions with the carries between them |
| WordAdd.FourDigits | lib/decNumber/decBasic.c:1437-1439 | a word skipped as zero changes nothing, and the others are added as by hand |
| WordAdd.AddWords | lib/decNumber/decBasic.c:1419-1453 | for any number of words the loop leaves the exact decimal sum of the two digit arrays and the carry in, and the carry out is the overflow |
| Addition.StandInHarmless | lib/decNumber/decBasic.c:1345-1366 | clamping a gap beyond p to a single sticky digit gives the same sum and conditions as the addend itself, in every mode |
| Addition.LayOut | lib/decNumber/decBasic.c:1264-1453 | complement, gap or overlap layout and word add leave the exact signed sum of the operands (or of the stand-in) in the accumulator |
| Addition.SettleDigits | lib/decNumber/decBasic.c:1468-1556 | borrow, cancellation and carry give the magnitude and the sign of the exact sum |
| Addition.SlowAdd | lib/decNumber/decBasic.c:1227-1568 | the slow path returns the correctly rounded exact sum for all finite operands |
| Addition.AddCoeffThou | lib/decNumber/decNumberLocal.h:678-735 | the base-1000 carry chain adds the two coefficients exactly |
| Addition.NoOverflow | lib/decNumber/decBasic.c:1182-1183 | leading digits that sum to at most eight mean that the sum of the coefficients has p digits |
| Addition.FastAdd | lib/decNumber/decBasic.c:1174-1183 | the fast path's units are reduced, its top one is a digit, and together they are the sum of the coefficients |
| Addition.FastIsSum | lib/decNumber/decBasic.c:1165-1224 | whenever the fast path is taken its result is the exact sum rounded once with nothing raised, as on the slow path |
| Addition.FloatAdd | lib/decNumber/decBasic.c:1102-1568 | every addition of finite numbers is the exact sum rounded once; infinities and NaNs as the standard says |
| FastPath.FastAddWords | lib/decNumber/decBasic.c:1174-1224 | the words the fast path lays out (new combination field, sign and exponent continuation taken from an operand, declets of the base-1000 units) encode the sum of the coefficients at the operands' own sign and exponent |
| FastPath.FastIsSlow | lib/decNumber/decBasic.c:1165-1224 | whenever the fast path is taken that encoding is the one the slow path lays out for the rounded sum, and nothing is raised |
| FastPath.AddEncodings | lib/decNumber/decBasic.c:1102-1568 | for any two finite bit patterns, whichever path is taken, the result's words are the canonical encoding of the exact sum rounded once |
| NextNumber.NextUpIsAdjacent | lib/decNumber/decBasic.c:2735-2766 | the result is numerically above x and no representable number lies between |
| NextNumber.NextDownIsAdjacent | lib/decNumber/decBasic.c:2692-2723 | the mirror image of that |
| NextNumber.NextOfInfinity | lib/decNumber/decBasic.c:2692-2766 | an infinity's only neighbour is the largest finite number of its sign |
| NextNumber.ZeroReached | lib/decNumber/decBasic.c:2692-2766 | a zero that is reached has the sign of the side it was reached from and the least exponent |
| NextNumber.DownMirrorsUp | lib/decNumber/decBasic.c:2692-2766 | next-down is next-up of the negated number, negated |
| NextNumber.DownUndoesUp | lib/decNumber/decBasic.c:2692-2766 | NextMinus after NextPlus comes back to the same value for every finite x, through Nmax and infinity and through the zeros |
| NextNumber.UpUndoesDown | lib/decNumber/decBasic.c:2692-2766 | and NextPlus after NextMinus |
| NextNumber.NextPlus | lib/decNumber/decBasic.c:2735-2766 | the operation computes that number and restores the context's mode and conditions, but for a signalling NaN |
| NextNumber.NextMinus | lib/decNumber/decBasic.c:2692-2723 | likewise |
| Comparison.LessIsWeakOrder | lib/decNumber/decBasic.c:3621-3773 | exact numeric comparison is a strict weak order |
| Comparison.PrecedesIsTotalOrder | lib/decNumber/decBasic.c:3621-3773 | the total order is antisymmetric and transitive, and two numbers neither of which precedes the other are identical |
| Comparison.NumericallyIs | lib/decNumber/decBasic.c:3621-3773 | the numeric order is the sign of the difference of the signed values, and infinities are beyond all finite numbers |
| Comparison.TotallyIs | lib/decNumber/decBasic.c:3766-3771 | the total order is that sign except among equal numbers, which go by sign and then by exponent, the lower one first if positive and last if negative |
| Comparison.CohortOrder | lib/decNumber/decBasic.c:3766-3771 | of two ways to write one number, zeros included, the one with the lower exponent comes first if positive and last if negative |
| Comparison.ZeroOrder | lib/decNumber/decBasic.c:3621-3653 | -0 and +0 are equal numerically, and -0 comes first in the total order at any exponents |
| Comparison.EqualIsIdentical | lib/decNumber/decBasic.c:3766-3771 | numbers that compare equal and have the same sign and exponent have the same coefficient |
| Comparison.CompareWindows | lib/decNumber/decBasic.c:3686-3697 | comparing by words and then by bytes compares the numbers the digits spell |
| Comparison.ComparePadded | lib/decNumber/decBasic.c:3698-3730 | checking the lead-in for zeros and then the padded windows gives the sign of ch * 10^shift - cl |
| Comparison.CompareMagnitudes | lib/decNumber/decBasic.c:3654-3764 | the sign of the exact difference of the magnitudes, also when exponents p or more apart decide at once |
| Comparison.NumCompare | lib/decNumber/decBasic.c:3621-3773 | with tot=0 the sign of the exact difference of any two operands that are not NaNs, with tot=1 their total order |
| Quantizer.RoundedFits | lib/decNumber/decBasic.c:3060-3071 | the all-nines carry never leaves the window of p digits |
| Quantizer.RoundWindow | lib/decNumber/decBasic.c:2959-3080 | the p digits ending at ulsd are the coefficient rounded to the new quantum, for any drop |
| Quantizer.PadWindow | lib/decNumber/decBasic.c:3092-3115 | padding by fours with the masked last check succeeds exactly when the digits pushed out are zeros |
| Quantizer.FloatQuantize | lib/decNumber/decBasic.c:2899-3145 | a number with exactly dfr's exponent equal to dfl rounded to that quantum, or invalid; special operands |
| Quantizer.QuantizeChooses | lib/decNumber/decBasic.c:3011-3056 | of all multiples of the new quantum the result is the least above, the greatest below, or the nearest with ties as the mode says, by signed value for Ceiling and Floor; 05UP truncates unless the last digit is 0 or 5; sign and exponent are as asked for |
| Quantizer.InvalidIffOutOfReach | lib/decNumber/decBasic.c:3083-3116 | invalid is reported precisely when the number exceeds every number the format holds at that exponent; equivalently, when digits need not be rounded away and none held there has its value |
| Quantizer.QuantizeIsIdempotent | lib/decNumber/decBasic.c:2940-2941 | a result has the exponent asked for, is held by the format, and quantizing it again changes nothing and raises nothing |
| Quantizer.QuantizeInexactIffChanged | lib/decNumber/decBasic.c:3011-3013 | Inexact is raised precisely when the value changed; sign and exponent are as asked for, and padding changes nothing |
| Declet.Pack | lib/decNumber/decDPD.h:37-90 | packing three digits by the equations of section 3.5.2 of IEEE 754-2008 is undone by unpacking |
| Declet.PackEquations | lib/decNumber/decDPD.h:37-90 | each of the ten bits of a declet is the Boolean function of the twelve bits of the three digits that section 3.5.2 gives |
| Declet.UnpackEquations | lib/decNumber/decDPD.h:232-312 | each of the twelve bits of the digits is the Boolean function of the declet's bits that section 3.5.2 gives, redundant declets included |
| Declet.CanonicalIff | lib/decNumber/decNumberLocal.h:421-427 | unpacking and packing is the identity on exactly the declets outside the 24 redundant ones |
| Declet.LowIsCanonical | lib/decNumber/decBasic.c:130 | every declet below 0x16e is canonical, the fact behind the code's short cut |
| Declet.CanonicalIs | lib/decNumber/decBasic.c:131-132 | the canonical form of a declet is what unpacking and packing gives, spells the same digits and is canonical itself |
| Canonicalize.ReadDeclet | lib/decNumber/decBasic.c:119-129 | a declet is read correctly at any bit offset, within a word or straddling two |
| Canonicalize.WriteDeclet | lib/decNumber/decBasic.c:133-146 | a declet is replaced in place, within a word or across two, and no other bit changes |
| Canonicalize.CanonicalDeclets | lib/decNumber/decBasic.c:114-148 | the repair loop makes every declet canonical and keeps every other bit, for any number of declets |
| Encoding.ContOfPack | lib/decNumber/decCommon.c:609-643 | decoding the declets packed from a number gives back its last 3n digits |
| Encoding.PackOfCont | lib/decNumber/decCommon.c:609-643 | packing what was decoded from declets gives their canonical forms |
| Encoding.DigitsOfCont | lib/decNumber/decCommon.c:1191-1207 | declet k from the right holds the digits 3k to 3k + 2 from the right of the coefficient, in order |
| Interchange.FieldsAre | lib/decNumber/decCommon.c:1191-1207 | sign, combination field, exponent continuation and a NaN's signalling bit are read from the bits of the top word as section 3.5.2 lays them out |
| Interchange.CanonicalSpecials | lib/decNumber/decBasic.c:75-100 | the canonical words of infinities and NaNs have nothing set but sign, combination field, signalling bit and payload |
| Widening.OneEncoded | lib/decNumber/decCommon.c:577-646 | 1 and -12 have the decDouble words 22380000 00000001 and A2380000 00000012 |
| Widening.BiasIsEtiny | lib/decNumber/decCommon.c:1714-1740 | biased exponents count from Etiny in each format, so the fields of the two formats mean the same value and exponent |
| Interchange.DecodeEncode | lib/decNumber/decCommon.c:577-646 | decoding what was encoded gives back sign, exponent and coefficient, infinity, or NaN and payload |
| Interchange.EncodeDecode | lib/decNumber/decCommon.c:1191-1207 | encoding what a finite bit pattern decodes to keeps every bit above the declets and makes the declets canonical |
| Interchange.ToBcd | lib/decNumber/decCommon.c:1191-1207 | of any encoding the sign, the exponent or the special value, for an infinity with the bit after the combination field, and the digits; zeros for an infinity and no leading digit for a NaN |
| Interchange.FromBcd | lib/decNumber/decCommon.c:577-646 | the words laid out are those of the sign, exponent or special value and digits asked for, an infinity's bit and digits included |
| Interchange.AskedCanonicalIff | lib/decNumber/decCommon.c:560-646 | what is laid out is canonical if and only if it is not an infinity asked for with bit 0x02000000 or with non-zero digits after the first |
| Interchange.FromThenTo | lib/decNumber/decCommon.c:577-646 | decFloatFromBCD and then decFloatToBCD give back the sign, the exponent or the whole special value, every digit of a finite number, all but the first digit of a NaN, and zeros for an infinity |
| Interchange.ToThenFrom | lib/decNumber/decCommon.c:1191-1207 | for any bit pattern decFloatToBCD and then decFloatFromBCD keep the decoded number, and give word for word what decCanonical does if and only if the pattern is not an infinity with bit 0x02000000 set |
| Interchange.InfinityNotCleaned | lib/decNumber/decCommon.c:1191-1207 | decDouble 7A000000 00000000 comes back as it is, where the canonical infinity is 78000000 00000000 |
| Interchange.DecCanonical | lib/decNumber/decBasic.c:75-149 | in place, any encoding becomes the canonical encoding of what it means: infinity cleaned, a NaN's spare exponent bits cleared, declets repaired |
| Interchange.CanonicalKeepsNumber | lib/decNumber/decBasic.c:75-149 | making canonical keeps the number and the top fields, and doing it again changes nothing |
| Widening.ToWider | lib/decNumber/decCommon.c:1714-1740 | sign, value, exponent, infinity or NaN with payload are kept exactly, and the result is canonical if the source is |
| Widening.FromWider | lib/decNumber/decCommon.c:1018-1040 | the wider number rounded once into the narrower format; infinities (their bit after the combination field kept) and NaNs (a payload cut to its low digits) are copied and raise nothing; the result is canonical unless an infinity was not |
| Widening.NarrowReround | lib/decNumber/decCommon.c:1018-1040 | narrowing what the wider format holds of an exact value rounded 05UP gives, in any mode, the value rounded once with its conditions, if and only if it is not an inexact subnormal of formats with one least quantum |
| Widening.QuadToDouble | lib/decNumber/decCommon.c:1018-1040 | from decQuad to decDouble this always holds |
| Widening.DoubleToQuad | lib/decNumber/decCommon.c:1714-1740 | decDouble and decQuad are a pair of sizes that the statements about a wider format apply to |
| Widening.NarrowUndoesWiden | lib/decNumber/decCommon.c:1018-1040 | on the decoded fields narrowing after widening is the identity in every mode, with nothing raised |
| Widening.WidenAndNarrow | lib/decNumber/decCommon.c:1714-1740 | widening then narrowing returns every canonical encoding word for word and leaves the status alone |
| NumericString.SpellReads | lib/decNumber/decCommon.c:796-868 | every spelling of a number, with signs, point and exponent wherever they may stand, is read as that number |
| NumericString.ReadSpells | lib/decNumber/decCommon.c:796-868 | whatever is read as a number is a spelling of that number |
| NumericString.ReadIffSpelled | lib/decNumber/decCommon.c:796-986 | a string is read as a number, an infinity or a NaN with a payload exactly when it is one of its spellings: words in any mixture of cases, a mark, digits |
| NumericString.ErrorIffNotSpelled | lib/decNumber/decCommon.c:776-995 | a syntax error is reported exactly for the strings that spell no number, no infinity, and no NaN whose payload fits |
| NumericString.SpellingIsRounded | lib/decNumber/decCommon.c:776-1001 | a spelling whose exponent has at most DECEMAXD significant digits is converted to the exact value it spells, rounded once |
| NumericString.PlainTextReads | lib/decNumber/decCommon.c:796-861 | character by character: an optional sign and digits with at most one point, on either side of which there may be none, are read as the value they write, rounded once |
| NumericString.ExponentTextReads | lib/decNumber/decCommon.c:831-868 | the same followed by E or e, an optional sign and digits, which add to the exponent or are taken off it |
| NumericString.InfinityTextReads | lib/decNumber/decCommon.c:940-986 | inf and infinity in any mixture of cases, with the sign before them |
| NumericString.NanTextReads | lib/decNumber/decCommon.c:940-986 | nan and snan likewise, with their payload, or a syntax error if it needs p digits or more |
| NumericString.Rejected | lib/decNumber/decCommon.c:776-995 | a list of strings that are nearly numbers is refused |
| StringReader.ScanExponent | lib/decNumber/decCommon.c:827-856 | the exponent part is accepted exactly when it is well formed, and its value is gathered |
| StringReader.GatherLong | lib/decNumber/decCommon.c:905-945 | a coefficient too long for the buffer rounds to the same number and conditions as the whole of it, although only p + 1 to p + 4 digits are kept, the last made sticky |
| StringReader.ShortenedRounds | lib/decNumber/decCommon.c:919-942 | more than p significant digits with the last made sticky round as the full digit string does, in every mode |
| StringReader.ReadCoefficient | lib/decNumber/decCommon.c:868-945 | a coefficient is gathered and finalized, in full or shortened, unless no digit of it is copied; that happens exactly for over-long all-zero coefficients that end in a point |
| StringReader.FromString | lib/decNumber/decCommon.c:776-1001 | for every string the result and conditions are those of what it says, rounded once: numbers, infinities, NaNs with payload, errors |
| LongExponent.ExponentsInMode | lib/decNumber/decCommon.c:851-854 | two exponents give one coefficient the same result in a given mode if and only if they are equal, or the lower one overflows already, or the higher value is below 10^Etiny on a side of its half that the mode treats like the lower one, or under 05UP it lies between one and two times 10^Etiny, or the coefficient is zero and they are clamped alike |
| LongExponent.ExponentsAgreeIff | lib/decNumber/decCommon.c:851-854 | they do in every mode if and only if they are equal, or both values are out of range, or both are below half of 10^Etiny, or the coefficient is zero and they are clamped alike |
| LongExponent.AnyExponentInMode | lib/decNumber/decCommon.c:851-854 | a numeral with an exponent of any length is converted to its exact value rounded once in a given mode if and only if the code's exponent and the true one make no difference to its digits in that mode |
| LongExponent.AnyExponentIsRounded | lib/decNumber/decCommon.c:851-854 | it is converted so in every mode if and only if the two exponents make no difference to its digits in any |
| LongExponent.ManyDigitsMisread | lib/decNumber/decCommon.c:851-854 | a concrete decDouble numeral that spells 1E+199, with eight hundred zeros and a four-digit exponent, is read as 1E-33 |
| StringWriter.ToString | lib/decNumber/decCommon.c:1500-1698 | the text written in place fits p + 9 characters with its terminator, every write of four included, and is the scientific string of the value |
| StringWriter.PrintedForm | lib/decNumber/decCommon.c:1606-1698 | character by character: the digits in full or with a point, after 0. and zeros, or with one digit before the point and a signed exponent that is the adjusted one |
| StringWriter.ExponentIffNeeded | lib/decNumber/decCommon.c:1610-1616 | the text contains an E if and only if the exponent is positive or the adjusted exponent below -6 |
| StringWriter.PrintedWords | lib/decNumber/decCommon.c:1528-1553 | infinities are spelled Infinity and NaNs NaN or sNaN, followed by the payload unless it is zero |
| StringWriter.PutCoefficient | lib/decNumber/decCommon.c:1555-1598 | left-aligning the declets writes the coefficient's digits with no leading zeros, and a single zero for zero |
| StringWriter.Thousands | lib/decNumber/decCommon.c:1654-1655 | the reciprocal multiplication gives the thousands digit of every four-digit exponent |
| StringWriter.OpenGap | lib/decNumber/decCommon.c:1667-1687 | moving the coefficient by fours, backed off and overlapping, with the last characters singly, opens the gap without touching the sign or the last place of the text |
| StringWriter.LayOut | lib/decNumber/decCommon.c:1606-1697 | each of the three layouts (plain, 0.000ddd, with exponent) spells the digits at that exponent |
| StringWriter.PrintedReadsBack | lib/decNumber/decCommon.c:1500-1698 | every value is read back from its string: sign, coefficient and exponent, infinity, or NaN with payload, with nothing raised in any mode |
| StringWriter.PrintAndRead | lib/decNumber/decCommon.c:1500-1698 | printing and then reading returns every value unchanged and leaves the status alone |

## Left out

- StringReader.FromString: for strings with an over-long all-zero coefficient ending in a point the result is arbitrary, because the code reads digits before the start of its buffer.
- Multiply.ProductUnits: holds for operands of up to four base-billion units, the lengths for which the magic constants were chosen.
- Addition.FloatAdd: the number of digits is 3n + 1, as in every interchange format; the leading digit sits above whole declets on the fast path.
- Canonicalize.CanonicalDeclets: the tests that skip an already canonical continuation, or one that is zero, are not modelled; they do not change the result.
- WordAdd.AddWords: masks and shifts of the little-endian loop are written as arithmetic on the four bytes; the big-endian loop is not modelled.
- Interchange.FromBcd, and FastPath.FastAddWords: the declets are written in a loop over word offsets, where the source spells out each format's shifts.
- Widening.FromWider: laying out the finalized number goes through FromBcd, where decFinalize has a second copy of that code for short coefficients.
- Context.PropagateNaN: arithmetic results carry no NaN payload (decNaNs' choice of operand); payloads are modelled in encodings, conversions and strings.
- The DPD tables are functions from the standard's equations; the table literals are not compared with them.
- The order of NaN payloads in decFloatCompareTotal, and the other comparisons built on decNumCompare.
- decFloatToEngString, packed BCD, conversion to and from binary integers, decToIntegral, ScaleB, LogB, Reduce, Min and Max, NextToward: thin layers over what is proved here, or easy.
- Logical and shift operations, sign operations, copies, classification and context getters: easy members.
- An invalid rounding mode in the context (DEC_Invalid_context), trapping, tracing, and the arbitrary-precision part of the library.
- Byte order, alignment, and the writes of up to three bytes beyond the digits in unpacking and dividing; those in strings are modelled.
- The rest of the repository: user interface, scripts and data files.
