# Verified model of the coracle CPU core

A Dafny model of two parts of the emulator's core crate, with proofs about them.

**The softfloat backend.** IEEE 754 addition, subtraction, multiplication, division, square root,
fused multiply-add, conversion and comparison as integer arithmetic on unpacked significands with
three guard bits and a sticky flag, all ending in one round-and-pack step. `Rounding` says what a
correctly rounded result is, as the choice between the two representable neighbours of an exact real
number, without reference to the code (sections 3.3, 4.3 and 7 of IEEE 754-2019). `Decompose` proves
that the packer makes that choice for everything that the significand and sticky bit can stand for.
The operation modules then show that each operation hands the packer a true account of its exact
result. The format is a parameter: every theorem holds for half, single and double precision and for
every rounding mode, with the qualifications listed at the end.

**The interpreter as a state machine.** `Dispatch` and `Stepping` are the machine as functions of its
whole state. They decode every instruction afresh. `Interpreter.Cpu` is the object with its registers,
memory, decode cache and trace shadow state updated in place; its `Step` and `Run` are proved equal to
the reference step and run, which makes the cache invisible even to code that rewrites itself. On
top stand the trace (`TraceSink`, `TraceWriter`: replaying the bytes of any run determines the register
file at every block) and the supervisor-call loop (`SyscallShim`: it terminates for every guest, within
its budget). The decoder is a parameter, a total function from words to instructions, and so is what a
system call does.

## Layout

| files | contents |
|---|---|
| Powers, Options | powers of two, shifts, dyadic reals; optional values |
| Formats, Rounding | format geometry and classification; the definition of correct rounding and its laws |
| Decompose, Nan | unpack, normalise, round and pack; NaN propagation |
| Arithmetic, MultiplyDivide, SquareRoot, Fused | the arithmetic operations |
| ConvertFormat, IntegerConversion, Compare | conversions, comparison, extrema |
| Specials, NonFinite | invalid operations; every result on NaNs, infinities and zeroes; flushing |
| Bits, Registers, Instructions, Flags, Operands, Memory | words, registers, decoded instructions, flags, operand fetch, guest memory |
| Dispatch, Stepping, DecodeCache, Interpreter | one instruction, steps and runs, the decode cache, the CPU object |
| TraceSink, TraceWriter, Shim | register deltas and replay, the byte stream, the resume loop |

`dafny verify dfyconfig.toml` checks everything.

## Where the code departs from its intent

The model follows the code. Each departure has a condition that holds exactly when the result is right,
and a concrete input that shows it going wrong.

- A subnormal that rounds up to a power of two comes out halved: `round_significand`
  (crates/core/src/fp/softfloat/decompose.rs:188-191) has already halved the significand and
  `pack_subnormal` (line 243) drops the exponent that would say so. The comment at lines 252-253 says
  this case encodes naturally. `CarryLost` is the condition, a property of the exact value alone, which
  `CarryLostIntervals` gives as intervals; `MultiplyCorrectIff`, `DivideCorrectIff` and
  `ConvertCorrectIff` say results are right exactly when it is false. `MultiplyLosesCarry`,
  `DivideLosesCarry` and `ConvertLosesCarry` are inputs. Addition, square root, integer conversion and
  widening never meet it. The flags are always right.
- Fused multiply-add subtracts without a borrow when alignment discarded bits
  (crates/core/src/fp/softfloat/fused.rs:152-158), where the comment at lines 164-165 speaks of a
  cancellation that borrowed. `FusedCorrectIff` says exactly when the pattern is right all the same and,
  separately, exactly when the flags are. `FusedMissesBorrow` is an input with a wrong pattern;
  `FusedOverflowsSpuriously` and `FusedMissesUnderflow` are inputs with the right pattern and wrong flags.
- `integral_magnitude` shifts a 56-bit significand left by up to 127 inside 128 bits
  (crates/core/src/fp/softfloat/convert.rs:225-232); its comment covers only shifts past 127. A finite
  double that is a non-zero multiple of 2^128, and small enough for the shift to be taken, converts to
  zero without a flag: `ToIntegerCorrectIff` has the condition, `ToIntegerWraps` an input.
- A negative value converted to an unsigned integer is always invalid
  (crates/core/src/fp/softfloat/convert.rs:263-293), also when it rounds to zero and is only inexact, though the
  comment at lines 276-277 expects an exact zero to be the only such case:
  `ToIntegerCorrectIff` has the condition, `NegativeFractionIsInvalid` an input.
- `tests/EMULATOR_INTERFACE.md` describes a block record as emitted after the block retires. The code
  emits it on entry (crates/core/src/interp/mod.rs:124-142). `RecordsOfRun` counts the records of every
  run and `OneRecordPerRetiredIff` says they match the retired instructions exactly when no instruction
  trapped while executing; `TrappedInstructionIsRecorded` is a run with a record too many.

## Model

| member | source | states |
|---|---|---|
| Formats.Geometry | crates/core/src/fp/operand.rs:59-90 | the exponent widths, biases and exponent ranges of the three formats are those of binary16, binary32 and binary64 |
| Formats.Layout | crates/core/src/fp/operand.rs:59-131 | sign, exponent and mantissa fields tile a pattern exactly |
| Formats.Classification | crates/core/src/fp/operand.rs:134-160 | NaN, infinite, finite, zero and subnormal are decided by the magnitude alone, each by an interval of magnitudes |
| Formats.SignAndMagnitude | crates/core/src/fp/operand.rs:163-186 | putting a sign on a magnitude and taking it off again are inverse |
| Formats.DecodeEncode | crates/core/src/fp/operand.rs:59-131 | a pattern rebuilt from its three fields is the pattern |
| Rounding.MagOrder | crates/core/src/fp/operand.rs:59-131 | the order of magnitude patterns is the order of the numbers they denote |
| Rounding.RoundingExists | crates/core/src/fp/operand.rs:15-31 | every exact magnitude rounds to some pattern under every rule (section 4.3 of IEEE 754-2019) |
| Rounding.RoundingUnique | crates/core/src/fp/operand.rs:15-31 | and to only one, so "correctly rounded" names a single result |
| Rounding.RoundsToUnique | crates/core/src/fp/operand.rs:15-31 | at most one whole pattern, sign included, is the correct rounding of a value |
| Rounding.RepresentableIsFixed | crates/core/src/fp/operand.rs:15-31 | a representable magnitude rounds to itself under every rule |
| Rounding.NearestIsClosest | crates/core/src/fp/operand.rs:15-31 | to nearest: no finite magnitude is closer, and between two equally close ones the tie goes to the even pattern or away |
| Rounding.TowardZeroIsLargestBelow | crates/core/src/fp/operand.rs:15-31 | toward zero: the largest finite magnitude not above the exact one |
| Rounding.AwayFromZeroIsSmallestAbove | crates/core/src/fp/operand.rs:15-31 | away from zero: the smallest pattern, infinity included, not below the exact one |
| Rounding.RoundingMonotone | crates/core/src/fp/operand.rs:15-31 | rounding preserves order |
| Rounding.AcrossDecision | crates/core/src/fp/operand.rs:15-31 | two magnitudes with one decision point between them round alike exactly when the rule does not step there |
| Rounding.OverflowsAbove | crates/core/src/fp/softfloat/decompose.rs:275-290 | each rule overflows exactly above its threshold: the start of the binade past the last, the largest finite number, or the midpoint between them |
| Rounding.AcrossFlags | crates/core/src/fp/softfloat/decompose.rs:196-219 | across a lone decision point flags change exactly at the smallest normal, where underflow ends, and at the overflow threshold |
| Decompose.UnpackExact | crates/core/src/fp/softfloat/decompose.rs:52-79 | unpacking keeps the exact value of every finite pattern, subnormals normalised, guard bits clear |
| Decompose.Normalise | crates/core/src/fp/softfloat/decompose.rs:119-134 | the two loops bring the leading bit to the implicit position, folding discarded bits into the sticky bit |
| Decompose.NormalisedMeaning | crates/core/src/fp/softfloat/decompose.rs:119-134 | normalising keeps what significand and sticky bit say about the exact magnitude, when a sticky one moves up at most two places |
| Decompose.GuardBitsDecide | crates/core/src/fp/softfloat/decompose.rs:196-219 | three guard bits and the sticky bit decide rounding, in every mode, exactly as the exact magnitude does |
| Decompose.RoundSignificandMeaning | crates/core/src/fp/softfloat/decompose.rs:169-193 | the rounded significand is one of the two neighbours, halved with its exponent raised if it reached a new leading bit, and inexact exactly when something was discarded |
| Decompose.RoundingFitsWord | crates/core/src/fp/softfloat/decompose.rs:169-193 | rounding a normalised significand up stays in its 64-bit word |
| Decompose.PackNormalMeaning | crates/core/src/fp/softfloat/decompose.rs:138-165 | in the normal range packing gives the neighbour the mode selects, carries into the next binade and into infinity included |
| Decompose.PackSubnormalMeaning | crates/core/src/fp/softfloat/decompose.rs:222-261 | below the normal range packing gives the neighbour the mode selects, or half of it exactly where the carry is lost |
| Decompose.TinyMeaning | crates/core/src/fp/softfloat/decompose.rs:265-272 | below an eighth of the smallest subnormal the result is zero or the smallest subnormal, as the mode says |
| Decompose.OverflowMeaning | crates/core/src/fp/softfloat/decompose.rs:275-290 | beyond the largest binade the result is infinity or the largest finite number, as section 7.4 of IEEE 754-2019 says, with overflow and inexact |
| Decompose.PackingRoundsCorrectly | crates/core/src/fp/softfloat/decompose.rs:96-261 | for every exact magnitude that significand and sticky bit bracket, the packer yields its correct rounding, except for a lost subnormal carry, and always the right flags |
| Decompose.PacksMeaning | crates/core/src/fp/softfloat/decompose.rs:96-261 | a packed value is correctly rounded if and only if no carry is lost; its flags are right either way |
| Decompose.CarryLostIntervals | crates/core/src/fp/softfloat/decompose.rs:222-261 | the carry is lost exactly in one interval below each subnormal power of two, given by the rule, from an eighth of the smallest subnormal up |
| Decompose.WholeQuantaKeepCarry | crates/core/src/fp/softfloat/decompose.rs:222-261 | no carry is lost for a whole number of smallest subnormals |
| Decompose.NormalsKeepCarry | crates/core/src/fp/softfloat/decompose.rs:138-165 | no carry is lost in the normal range |
| Decompose.UnpackPackRoundTrip | crates/core/src/fp/softfloat/decompose.rs:52-104 | packing an unpacked finite value gives the pattern back, in every mode, subnormals and both zeroes included |
| Nan.PropagatedIsQuietNan | crates/core/src/fp/softfloat/nan.rs:17-46 | a propagated NaN is a quiet NaN; invalid is raised exactly for a signalling operand |
| Arithmetic.AlignIsShift | crates/core/src/fp/softfloat/arithmetic.rs:189-195 | alignment, oversized shifts included, is a right shift with a sticky remainder |
| Arithmetic.CancellationIsShallow | crates/core/src/fp/softfloat/arithmetic.rs:152-180 | when alignment discarded a set bit, cancellation costs at most one place, so three guard bits suffice |
| Arithmetic.AddFiniteMeaning | crates/core/src/fp/softfloat/arithmetic.rs:113-180 | the significand and sticky bit handed to the packer bracket the exact sum, borrow included |
| Arithmetic.SumInQuanta | crates/core/src/fp/softfloat/arithmetic.rs:113-180 | a sum of finite values is a whole number of smallest subnormals |
| Arithmetic.SumFitsWord | crates/core/src/fp/softfloat/arithmetic.rs:113-180 | every significand that addition and subtraction produce fits 64 bits |
| Arithmetic.AddRoundsCorrectly | crates/core/src/fp/softfloat/arithmetic.rs:71-195 | addition and subtraction of all finite operands, in every format and mode, give the correct rounding and flags of the exact sum, subnormal results and overflow included; a zero sum has the sign section 6.3 of IEEE 754-2019 asks for |
| MultiplyDivide.ProductMeaning | crates/core/src/fp/softfloat/arithmetic.rs:198-257 | the exact product of significands brackets the product of the values |
| MultiplyDivide.ProductFitsWords | crates/core/src/fp/softfloat/arithmetic.rs:198-257 | every intermediate of a multiplication fits its 64- or 128-bit word |
| MultiplyDivide.QuotientMeaning | crates/core/src/fp/softfloat/arithmetic.rs:260-285 | the scaled quotient with its remainder as sticky bit brackets the exact quotient |
| MultiplyDivide.QuotientLeading | crates/core/src/fp/softfloat/arithmetic.rs:260-285 | a quotient of normalised significands falls at most one bit below the implicit position |
| MultiplyDivide.QuotientFitsWords | crates/core/src/fp/softfloat/arithmetic.rs:260-285 | the scaled numerator fits 128 bits and the quotient 64, so narrowing it loses nothing |
| MultiplyDivide.MultiplyRounds | crates/core/src/fp/softfloat/arithmetic.rs:198-243 | multiplication of all finite operands packs the exact product once; a zero product has the sign of the product |
| MultiplyDivide.DivideRounds | crates/core/src/fp/softfloat/arithmetic.rs:260-313 | division of all finite operands packs the exact quotient once; by zero it is a signed infinity with divide-by-zero |
| MultiplyDivide.MultiplyCorrectIff | crates/core/src/fp/softfloat/arithmetic.rs:198-225 | without flushing, a product is correctly rounded if and only if no subnormal carry is lost |
| MultiplyDivide.DivideCorrectIff | crates/core/src/fp/softfloat/arithmetic.rs:260-285 | without flushing, a quotient is correctly rounded if and only if no subnormal carry is lost |
| MultiplyDivide.MultiplyLosesCarry | crates/core/src/fp/softfloat/decompose.rs:222-261 | a half-precision product whose lost carry makes it wrong |
| MultiplyDivide.DivideLosesCarry | crates/core/src/fp/softfloat/decompose.rs:222-261 | a half-precision quotient whose lost carry makes it wrong |
| SquareRoot.IsqrtU128 | crates/core/src/fp/softfloat/arithmetic.rs:365-384 | the restoring loop returns the r with r*r <= n < (r+1)*(r+1) |
| SquareRoot.FloorSqrtUnique | crates/core/src/fp/softfloat/arithmetic.rs:365-384 | that r is unique |
| SquareRoot.ComputeIntegerSquareRoot | crates/core/src/fp/softfloat/arithmetic.rs:348-359 | the in-place rescaling computes the root of the significand at its own scale, sticky exactly when the root is inexact |
| SquareRoot.ScaledFitsWord | crates/core/src/fp/softfloat/arithmetic.rs:348-359 | the scaled significand fits 128 bits |
| SquareRoot.RootMeaning | crates/core/src/fp/softfloat/arithmetic.rs:348-359 | doubling at odd exponents keeps the scale exact: the squares of the root and of its successor enclose the operand, and the sticky flag says the first differs from it |
| SquareRoot.StandInRounds | crates/core/src/fp/softfloat/arithmetic.rs:316-359 | what the packer is given rounds as the square root does, in every mode |
| SquareRoot.RoundsRootUnique | crates/core/src/fp/softfloat/arithmetic.rs:316-345 | at most one pattern is the rounding of a square root |
| SquareRoot.RootOfSquare | crates/core/src/fp/softfloat/arithmetic.rs:316-345 | where a real number squares to the operand, rounding the root is the rounding of that number |
| SquareRoot.SquareRootRoundsCorrectly | crates/core/src/fp/softfloat/arithmetic.rs:316-359 | the square root of every positive finite value, subnormals included: the squares of two neighbouring patterns enclose the operand, the square of their midpoint decides as the mode asks, and inexact is raised exactly when no pattern squares to the operand |
| SquareRoot.SquareRootSpecials | crates/core/src/fp/softfloat/arithmetic.rs:324-331 | among finite operands, zeroes return themselves and negative values are invalid |
| Fused.ComputeRoundWide | crates/core/src/fp/softfloat/fused.rs:213-256 | the step-by-step narrowing of a wide significand equals its one-step form |
| Fused.NarrowedMeaning | crates/core/src/fp/softfloat/fused.rs:213-256 | narrowing a wide significand keeps what is known of the exact value |
| Fused.WideIsRoundedOnce | crates/core/src/fp/softfloat/fused.rs:213-256 | the wide significand is rounded exactly once |
| Fused.AlignToMeaning | crates/core/src/fp/softfloat/fused.rs:181-210 | at the common scale one significand is exact and the other, when bits were lost, is small |
| Fused.DifferenceOvershoots | crates/core/src/fp/softfloat/fused.rs:145-158 | subtracting a truncated significand without a borrow overshoots the exact difference by less than a unit |
| Fused.AccumulateRounds | crates/core/src/fp/softfloat/fused.rs:131-178 | what is rounded is the exact sum, or, when a borrow was missed, a value just past the truncated difference |
| Fused.FusedRounds | crates/core/src/fp/softfloat/fused.rs:36-178 | fused multiply-add of all finite operands rounds once; without an inexact cancellation the value rounded is the exact sum |
| Fused.WideFitsWords | crates/core/src/fp/softfloat/fused.rs:113-158 | the exact product, the raised addend and their aligned sum fit 128 bits |
| Fused.NarrowedFitsWords | crates/core/src/fp/softfloat/fused.rs:213-256 | raising a wide significand fits 128 bits and what is narrowed fits 64 |
| Fused.OvershootFlagsIff | crates/core/src/fp/softfloat/fused.rs:145-178 | the flags of the value rounded are those of the exact sum unless the truncated difference is the smallest normal or the overflow threshold |
| Fused.FusedCorrectIff | crates/core/src/fp/softfloat/fused.rs:36-178 | the pattern: correctly rounded if and only if no carry is lost and, for an inexact cancellation, the truncated difference is not a point where the rule steps (with the one family of tiny exceptions spelled out). The flags: always right without an inexact cancellation, and with one if and only if the truncated difference is neither the smallest normal nor the overflow threshold |
| Fused.AtFlagBoundary | crates/core/src/fp/softfloat/fused.rs:145-178 | at those two points exactly which flags are due and which are raised |
| Fused.FusedMissesBorrow | crates/core/src/fp/softfloat/fused.rs:145-166 | a half-precision fused operation that the missing borrow rounds to the wrong side |
| Fused.FusedOverflowsSpuriously | crates/core/src/fp/softfloat/fused.rs:145-166 | a half-precision fused operation with the right pattern and a spurious overflow |
| Fused.FusedMissesUnderflow | crates/core/src/fp/softfloat/fused.rs:145-166 | a half-precision fused operation with the right pattern and a missing underflow |
| ConvertFormat.ConvertRounds | crates/core/src/fp/softfloat/convert.rs:14-60 | conversion of a finite value packs it once and keeps the sign of a zero |
| ConvertFormat.RescaleFitsWord | crates/core/src/fp/softfloat/convert.rs:50-60 | moving a significand between formats keeps it in 64 bits |
| ConvertFormat.ConvertCorrectIff | crates/core/src/fp/softfloat/convert.rs:14-60 | without flushing a conversion is correctly rounded if and only if no carry is lost |
| ConvertFormat.ConvertLosesCarry | crates/core/src/fp/softfloat/decompose.rs:222-261 | a single-precision number whose narrowing loses its carry |
| ConvertFormat.WideningExact | crates/core/src/fp/softfloat/convert.rs:14-60 | widening keeps every finite value exactly and raises nothing, in any mode |
| ConvertFormat.WidenNarrowRoundTrip | crates/core/src/fp/softfloat/convert.rs:14-60 | narrowing after widening is the identity on finite values |
| IntegerConversion.RoundToIntegralExact | crates/core/src/fp/softfloat/convert.rs:92-193 | rounding to integral gives exactly the integer the mode selects, keeps the sign of a zero result and raises nothing |
| IntegerConversion.RoundToIntegralIdempotent | crates/core/src/fp/softfloat/convert.rs:92-193 | a rounded value is a fixed point of every mode |
| IntegerConversion.EncodeMeaning | crates/core/src/fp/softfloat/convert.rs:263-331 | saturation and two's complement encoding are clamping and reduction of the integer |
| IntegerConversion.ToIntegerCorrectIff | crates/core/src/fp/softfloat/convert.rs:196-331 | conversion to an integer is the mode-rounded integer clamped to the target with the right flags, if and only if the 128-bit magnitude does not wrap; a negative value for an unsigned target is always invalid zero, right exactly when it rounds to a non-zero integer |
| IntegerConversion.ToIntegerWraps | crates/core/src/fp/softfloat/convert.rs:224-232 | 2^128 as a double converts to zero without a flag |
| IntegerConversion.NegativeFractionIsInvalid | crates/core/src/fp/softfloat/convert.rs:263-293 | -0.25 converted to an unsigned integer is invalid where it is only inexact |
| IntegerConversion.ToIntegerAfterRounding | crates/core/src/fp/softfloat/convert.rs:92-260 | converting, and converting after rounding to integral, give the same bits |
| IntegerConversion.FromIntegerRoundsCorrectly | crates/core/src/fp/softfloat/convert.rs:334-386 | conversion from every 32- and 64-bit signed or unsigned integer is correctly rounded |
| IntegerConversion.AlignIntegerFitsWord | crates/core/src/fp/softfloat/convert.rs:341-358 | aligning a 64-bit magnitude, up or down, stays within 64 bits |
| IntegerConversion.FromToIntegerRoundTrip | crates/core/src/fp/softfloat/convert.rs:196-386 | integers that fit the significand survive the trip to floating point and back |
| Compare.OrderingIsRealOrder | crates/core/src/fp/softfloat/compare.rs:36-66 | comparison of patterns that are not NaN is the order of the extended reals, the zeroes equal (section 5.11 of IEEE 754-2019) |
| Compare.CompareMeaning | crates/core/src/fp/softfloat/compare.rs:15-33 | unordered exactly for a NaN operand; invalid for a signalling one, or for any when signalling |
| Compare.ExtremumIsExtreme | crates/core/src/fp/softfloat/compare.rs:96-127 | the extremum of two numbers is one of them and the other does not beat it |
| Compare.ExtremumCommutes | crates/core/src/fp/softfloat/compare.rs:96-127 | and does not depend on operand order, zeroes included |
| Compare.ExtremumDuality | crates/core/src/fp/softfloat/compare.rs:96-127 | the maximum of the negations is the negation of the minimum |
| Compare.ExtremumNans | crates/core/src/fp/softfloat/compare.rs:96-145 | the numeric forms ignore a lone quiet NaN; every other NaN comes out quiet |
| Specials.AddNans | crates/core/src/fp/softfloat/arithmetic.rs:71-109 | a sum is a NaN exactly for a NaN operand or cancelling infinities, and only those can be invalid; NonFinite.AddNonFinite has the other results |
| Specials.MultiplyNans | crates/core/src/fp/softfloat/arithmetic.rs:198-243 | a product is a NaN exactly for a NaN operand or zero times infinity |
| Specials.DivideNans | crates/core/src/fp/softfloat/arithmetic.rs:260-313 | a quotient is a NaN exactly for a NaN operand, zero over zero or infinity over infinity |
| Specials.FusedNans | crates/core/src/fp/softfloat/fused.rs:36-95 | a fused multiply-add is a NaN exactly for a NaN operand, zero times infinity or cancelling infinities, and only those can be invalid; NonFinite.FusedNonFinite has the other results |
| Specials.SquareRootNans | crates/core/src/fp/softfloat/arithmetic.rs:316-345 | over every pattern: a square root is a quiet NaN exactly for a NaN or a negative operand other than zero, invalid exactly for a signalling NaN or such an operand, and positive infinity returns itself |
| Specials.ConvertNans | crates/core/src/fp/softfloat/convert.rs:14-36 | over every pattern: a conversion is a NaN exactly for a NaN operand, quiet in the target format and of its sign unless default NaNs are on, invalid exactly if it was signalling; infinities stay infinities |
| Specials.ConvertedNan | crates/core/src/fp/softfloat/convert.rs:63-89 | a re-encoded NaN is quiet whatever payload was moved |
| NonFinite.NamedPatterns | crates/core/src/fp/operand.rs:163-186 | the zero, infinity and default-NaN patterns are the signed zero, the infinity and the positive quiet NaN with no payload |
| NonFinite.QuietResultMeaning | crates/core/src/fp/softfloat/nan.rs:38-46 | a NaN that comes out keeps its sign and payload and has its quiet bit set, or is the default NaN when FPCR asks |
| NonFinite.PropagatesFirst | crates/core/src/fp/softfloat/nan.rs:17-30 | the NaN that comes out is the first in operand order, and invalid is raised exactly if any operand is signalling |
| NonFinite.FlushedInput | crates/core/src/fp/softfloat/arithmetic.rs:44-63 | a non-zero operand below the smallest normal becomes the zero of its sign and raises input-denormal exactly when the control of its format says flush; no other operand changes |
| NonFinite.FlushedResult | crates/core/src/fp/softfloat/decompose.rs:293-309 | a non-zero result below the smallest normal becomes the zero of its sign, with underflow and inexact, exactly when the control of its format says flush |
| NonFinite.FinishedMeaning | crates/core/src/fp/softfloat/decompose.rs:293-309 | flushing the result and adding the flags of the operands, the step around the rounding theorems, spelled out |
| NonFinite.FlushedPair | crates/core/src/fp/softfloat/arithmetic.rs:44-63 | both operands of an operation are flushed independently and input-denormal is raised if either was |
| NonFinite.AddNonFinite | crates/core/src/fp/softfloat/arithmetic.rs:71-109 | over every pattern with a NaN or an infinity: the first NaN, quietened, a subtraction flipping the sign of the second; opposite infinities invalid; otherwise the infinity with the sign it enters with; and exactly which flags |
| NonFinite.MultiplyNonFinite | crates/core/src/fp/softfloat/arithmetic.rs:198-243 | over every pattern with a NaN or an infinity: the first NaN, quietened; zero times infinity, a flushed operand included, is invalid; otherwise the infinity with the sign of the product; and exactly which flags |
| NonFinite.DivideNonFinite | crates/core/src/fp/softfloat/arithmetic.rs:260-313 | over every pattern with a NaN, an infinity or a zero divisor: the first NaN, quietened; infinity over infinity and zero over zero are invalid; infinity over finite is a signed infinity, finite over infinity a signed zero, finite over zero a signed infinity with divide-by-zero; and exactly which flags |
| NonFinite.FusedNonFinite | crates/core/src/fp/softfloat/fused.rs:36-95 | over every pattern with a NaN or an infinity: the first NaN, quietened; zero times infinity and opposite infinities invalid; an infinite product the infinity of its sign; otherwise an infinite addend the infinity with its sign flipped by the negation, nothing raised |
| NonFinite.FusedZeroProduct | crates/core/src/fp/softfloat/fused.rs:90-110 | a zero product returns the addend, negated where asked, and two zeroes agree on a sign |
| NonFinite.RootNonFinite | crates/core/src/fp/softfloat/arithmetic.rs:316-345 | over every pattern: the square root of a NaN is that NaN quietened, of positive infinity itself, of a zero or flushed operand the zero of its sign, of any other negative value the default NaN with invalid; and exactly which flags |
| NonFinite.RoundToIntegralNonFinite | crates/core/src/fp/softfloat/convert.rs:92-132 | an infinity or a zero rounds to itself with nothing raised, and a NaN to itself quietened, invalid exactly if it was signalling |
| NonFinite.ToIntegerNonFinite | crates/core/src/fp/softfloat/convert.rs:196-220 | an infinity gives the end of the target range on its side and a NaN gives zero, both invalid; a zero gives zero with nothing raised |
| NonFinite.ConvertKeepsPayload | crates/core/src/fp/softfloat/convert.rs:63-89 | a converted NaN keeps its quietened payload left-aligned: scaled up when widening, cut off below when narrowing |
| NonFinite.ExtremumOfZeroes | crates/core/src/fp/softfloat/compare.rs:96-127 | of two zeroes the maximum is negative only if both are, the minimum if either is |
| NonFinite.ExtremumKeepsFirstNan | crates/core/src/fp/softfloat/compare.rs:96-145 | an extremum that does not ignore its NaN returns the first operand that is one, quietened |
| Bits.BitwiseBit | crates/core/src/interp/flags.rs:25-44 | each bit of a bitwise result is the operation on the operands' bits |
| Bits.BitIsQuotientParity | crates/core/src/interp/flags.rs:32-40 | a tested bit is the parity of the word shifted down to it |
| Bits.SameBits | crates/core/src/interp/flags.rs:25-44 | words with the same bits are the same word |
| Registers.TraceWordRoundTrip | crates/core/src/pstate.rs:107-116 | the normalised PSTATE word loses nothing: all fields can be read back |
| Registers.TraceWordBits | crates/core/src/pstate.rs:107-116 | every bit of the PSTATE trace word: the flags at 31 to 28, the masks at 9 to 6, the level at 2, the stack select at 0, and zero everywhere else (section 6 of TRACE_FORMAT) |
| Registers.WriteX | crates/core/src/regfile.rs:66-86 | a write is read back (except through ZR, which stays zero) and every other register keeps its value |
| Flags.AdditionFlags | crates/core/src/interp/flags.rs:25-44 | N is the sign of the result, C the unsigned overflow, and V, computed by exclusive-or, is exactly the signed sum leaving its range |
| Flags.SubtractOrdersOperands | crates/core/src/interp/flags.rs:25-76 | after a subtract at either width every condition code holds exactly when the order it names holds between the operands |
| Flags.InvertNegates | crates/core/src/decode/operand.rs:207-230 | the inverse of a condition is its negation, except for the two that are always true |
| Operands.ShiftedMeaning | crates/core/src/interp/fetch.rs:21-33 | the four shift kinds multiply and wrap, divide, divide the signed value rounding down, or move every bit around within the operand width |
| Operands.RotateBit | crates/core/src/interp/fetch.rs:116-123 | the 64-bit rotation with the pulled-down carry bits is a rotation within 32 bits |
| Operands.SignExtensionMeaning | crates/core/src/interp/fetch.rs:106-114 | shifting up and arithmetically back down gives the signed value of the low bits |
| Operands.ExtendedMeaning | crates/core/src/interp/fetch.rs:36-45 | an extended operand is the signed or unsigned low part of its register, scaled and wrapped |
| Operands.ShiftedIsUnique | crates/core/src/interp/fetch.rs:21-33 | the definition of a shifted operand leaves one word, rotations included |
| Operands.AddressMeaning | crates/core/src/interp/fetch.rs:61-95 | every addressing mode: base plus signed offset, base plus scaled extended index, the base, PC plus offset, modulo 2^64; post-indexing uses the old base; a write-back is owed exactly by the indexed modes, of the moved base |
| Memory.FromToLe | crates/core/src/interp/memory.rs:40-50 | decoding an encoded integer gives back its low bytes |
| Memory.ToLeByte | crates/core/src/interp/memory.rs:47-50 | byte k of an encoded integer is its k-th byte from the least significant |
| Memory.CompletesIffMapped | crates/core/src/interp/memory.rs:100-109 | an access completes exactly when all its bytes are mapped, and a fault names it |
| Memory.ReadAfterWrite | crates/core/src/interp/memory.rs:40-50 | a stored integer is read back at its own width and any narrower one, and the window stays |
| Memory.WriteFrame | crates/core/src/interp/memory.rs:118-122 | a store leaves every read that does not overlap it alone |
| Memory.FlatMemory.Write | crates/core/src/interp/memory.rs:118-122 | the in-place write splices exactly the addressed bytes, or faults and changes nothing |
| Memory.FlatMemory.Read | crates/core/src/interp/memory.rs:112-116 | a read returns the addressed bytes or the fault |
| Memory.FlatMemory.LoadUint | crates/core/src/interp/memory.rs:40-45 | an integer load is the little-endian value of the addressed bytes |
| Memory.FlatMemory.StoreUint | crates/core/src/interp/memory.rs:47-50 | an integer store writes the low bytes of the value |
| Dispatch.SubtractMeaning | crates/core/src/interp/dispatch.rs:44-66 | SUB and SUBS: the second source is what the shape supplies (immediate, shifted or extended register); the destination gets the wrapped difference, nothing else changes, and every condition code then orders the operands |
| Dispatch.AddMeaning | crates/core/src/interp/dispatch.rs:44-66 | ADD and ADDS, over the same sources: the destination gets the wrapped sum and the flags say whether the signed and unsigned sums fitted |
| Dispatch.LogicalMeaning | crates/core/src/interp/dispatch.rs:69-92 | the six logical opcodes work bit by bit within the width on what the shape supplies; N and Z describe the result, C and V are cleared |
| Dispatch.SuppliedIsUnique | crates/core/src/interp/fetch.rs:21-45 | an instruction supplies one second source |
| Dispatch.BranchMeaning | crates/core/src/interp/dispatch.rs:95-127 | B, BL, BR, BLR and RET: PC becomes PC plus offset or the register, read before the link is written; BL and BLR put the following address in x30; nothing else changes |
| Dispatch.TrapMeaning | crates/core/src/interp/dispatch.rs:22-38 | which instructions trap and with what: a form the opcode cannot execute is undefined with its encoding, SVC and BRK carry their low 16 immediate bits, a transfer aborts exactly on an unmapped address, nothing else traps, and NOP changes nothing |
| Dispatch.CallThenReturn | crates/core/src/interp/dispatch.rs:95-127 | BL and BLR record the following address, BLR even through the link register itself, and RET comes back to it with nothing but PC and the link changed |
| Dispatch.MoveTrapsIffUnmapped | crates/core/src/interp/dispatch.rs:133-158 | a load or store raises a data abort, naming direction and the address its mode points at, exactly when the bytes there are not all mapped |
| Dispatch.LoadMeaning | crates/core/src/interp/dispatch.rs:133-181 | a load, in every addressing mode: the little-endian integer at the address the mode points at, sign-extended from its size where asked, goes to its register, the moved base to the base, which wins if both are one register, and nothing else changes |
| Dispatch.StoreMeaning | crates/core/src/interp/dispatch.rs:133-181 | a store, in every addressing mode: the low bytes of its register, least significant first, at the address and nowhere else, then the write-back, and nothing else changes |
| Dispatch.PushThenPop | crates/core/src/interp/dispatch.rs:129-181 | a pre-indexed push followed by the matching post-indexed pop restores every register, base included |
| Dispatch.TrapsNameTheInstruction | crates/core/src/interp/dispatch.rs:22-38 | every trap carries the address of the instruction that raised it |
| Dispatch.ExecutionNeverAborts | crates/core/src/interp/dispatch.rs:22-38 | only a fetch raises an instruction abort |
| Dispatch.WindowIsFixed | crates/core/src/interp/dispatch.rs:22-38 | no instruction moves or resizes the mapped window |
| DecodeCaching.DecodeCache.constructor | crates/core/src/interp/cache.rs:46-53 | a new cache is empty and valid |
| DecodeCaching.DecodeCache.Decoded | crates/core/src/interp/cache.rs:60-72 | whatever was looked up before, the answer is the decoding of the word asked for; exactly one slot is retagged and one counter bumped |
| DecodeCaching.SlotsCollide | crates/core/src/interp/cache.rs:84-87 | two instruction addresses share a slot exactly when they are a multiple of 16 KiB apart |
| DecodeCaching.SlotHoldsLast | crates/core/src/interp/cache.rs:60-72 | a slot's tag is the word of the last lookup that mapped to it |
| DecodeCaching.HitsExactlyWhenRepeated | crates/core/src/interp/cache.rs:60-88 | a lookup hits if and only if the last one to share its slot was of the same, non-zero word |
| DecodeCaching.FittingLoopMissesOncePerSlot | crates/core/src/interp/cache.rs:60-88 | a loop that fits the cache decodes each slot it touches once, however often it goes round |
| TraceSink.DeltaBuffer.Push | crates/core/src/trace/sink.rs:87-92 | a push appends, or is dropped when 255 deltas are held |
| TraceSink.DeltaBuffer.DeltasBetween | crates/core/src/trace/sink.rs:171-201 | the loops fill the buffer with exactly the changed registers and never drop one |
| TraceSink.DeltaBuffer.PushVecDeltas | crates/core/src/trace/sink.rs:203-223 | the vector loop appends both halves of every changed vector register |
| TraceSink.Deltas | crates/core/src/trace/sink.rs:171-223 | a diff is at most 100 deltas, so the 255-slot buffer cannot overflow |
| TraceSink.ReplayIsExact | crates/core/src/trace/sink.rs:171-223 | applying a block's deltas to what a reader knew gives exactly the current visible state; with no snapshot the reader need know nothing |
| TraceSink.DeltasAreCurrent | crates/core/src/trace/sink.rs:171-223 | deltas carry current values in increasing id order, each id at most once |
| TraceSink.OnlyChangesAreEmitted | crates/core/src/trace/sink.rs:166-185 | a register is emitted only if it changed |
| TraceSink.FullSetWithoutSnapshot | crates/core/src/trace/sink.rs:166-223 | without a snapshot all 100 values are emitted |
| TraceSink.RegisterNumbers | tests/TRACE_FORMAT.md:181-190 | the wire number of every register: 0 to 30, SP 31, PC 32, PSTATE 33, FPCR 34, FPSR 35, and from 64 the low and high half of each vector; no other number is used |
| TraceSink.VisibleDetermines | crates/core/src/trace/sink.rs:171-223 | two register files with the same visible state are the same |
| Stepping.StepTrapsPrecisely | crates/core/src/interp/mod.rs:130-156 | a step that traps leaves registers, memory and the count unchanged and names the instruction at PC; one that does not retires exactly one |
| Stepping.StepMeaning | crates/core/src/interp/mod.rs:130-156 | a step that retires executes the little-endian word at PC and leaves PC four on or, after a branch, at its own target, and everything else as executing left it; it aborts exactly when that word is not mapped |
| Stepping.StepTraces | crates/core/src/interp/mod.rs:135-142 | a step adds to the trace exactly the block it enters, with the count and deltas from before executing, and nothing when it aborts or tracing is off |
| Stepping.ExceptionMeaning | crates/core/src/interp/mod.rs:164-175 | a reported exception appends one event with both addresses, cause, count and registers, drops the shadow state, and so the next block entered carries all 100 values; with tracing off nothing happens |
| Stepping.StoredCodeIsFetched | crates/core/src/interp/mod.rs:177-183 | a word the guest stores over its own code is what the next fetch there returns |
| Stepping.RunRetires | crates/core/src/interp/mod.rs:115-122 | a run retires its whole budget exactly when it reports it exhausted; otherwise PC is on the trapping instruction |
| Stepping.RunsCompose | crates/core/src/interp/mod.rs:115-122 | running for m and then n is running for m+n unless the first run trapped |
| Stepping.TrapsAreRepeatable | crates/core/src/interp/mod.rs:115-156 | stepping again where a run trapped raises the same trap |
| Stepping.TracingIsInvisible | crates/core/src/interp/mod.rs:130-156 | tracing changes neither the machine, the count nor the stop reason of any run |
| Stepping.RecordsOfRun | crates/core/src/interp/mod.rs:115-156 | a traced run emits one block record for each instruction it retires, and one more exactly if it stops on an instruction that was fetched but trapped |
| Stepping.OneRecordPerRetiredIff | crates/core/src/interp/mod.rs:115-156 | records and retired instructions correspond one to one if and only if no instruction trapped while executing |
| Stepping.TrappedInstructionIsRecorded | crates/core/src/interp/mod.rs:130-156 | a run with one record and no retired instruction |
| Stepping.ActionIsFaithful | crates/core/src/interp/mod.rs:130-175 | each step, host write or exception report keeps the trace faithful |
| Stepping.ReplayReconstructs | crates/core/src/interp/mod.rs:130-175 | over every run mixing steps, host writes and exception reports there is one record for each block entered, and replaying deltas in order gives the true state on entry to each |
| Interpreter.Cpu.Execute | crates/core/src/interp/dispatch.rs:22-38 | the in-place arms compute the specified machine; a trap leaves registers and memory untouched |
| Interpreter.Cpu.Arithmetic | crates/core/src/interp/dispatch.rs:44-66 | the in-place add and subtract arm computes its specification |
| Interpreter.Cpu.Logical | crates/core/src/interp/dispatch.rs:69-92 | the in-place logical arm computes its specification |
| Interpreter.Cpu.BranchImmediate | crates/core/src/interp/dispatch.rs:95-109 | the in-place immediate-branch arm computes its specification |
| Interpreter.Cpu.BranchRegister | crates/core/src/interp/dispatch.rs:112-127 | the in-place register-branch arm reads its target before it writes the link |
| Interpreter.Cpu.LoadStoreArm | crates/core/src/interp/dispatch.rs:133-158 | write-back is applied only after the access succeeded |
| Interpreter.Cpu.Transfer | crates/core/src/interp/dispatch.rs:161-181 | one register moves to or from memory, or the fault is returned and nothing moves |
| Interpreter.Cpu.EmitBlock | crates/core/src/interp/mod.rs:135-142 | the record describes the state entering the block, which becomes the shadow state |
| Interpreter.Cpu.Step | crates/core/src/interp/mod.rs:130-156 | a step through the cache equals the reference step that decodes afresh, self-modified code and aliased slots included, and traps precisely; one that retires leaves what executing the fetched word leaves, PC four on or at the branch target, and counts one |
| Interpreter.Cpu.Run | crates/core/src/interp/mod.rs:115-122 | the cached run equals the uncached reference run state for state, trace included |
| Interpreter.Cpu.OnException | crates/core/src/interp/mod.rs:164-175 | an exception report appends the event with the current count and registers and drops the shadow state, or does nothing with tracing off |
| SyscallShim.ResumingMovesUp | crates/core/src/shim/mod.rs:85-92 | advancing past a serviced call leaves less mapped memory above PC |
| SyscallShim.ResumptionDecreases | crates/core/src/shim/mod.rs:82-98 | after a serviced call fewer instructions remain or less mapped memory lies above PC |
| SyscallShim.ShimStopsInTime | crates/core/src/shim/mod.rs:82-98 | no more instructions retire than the deadline allows, and an exhausted budget means exactly that the deadline was reached |
| SyscallShim.ShimRunsCompose | crates/core/src/shim/mod.rs:82-98 | running to one deadline and on to a later one is running to the later one |
| SyscallShim.ServiceKeeps | crates/core/src/shim/mod.rs:105-127 | servicing a call changes neither the count, PC nor the window |
| SyscallShim.ApplyWritesMeaning | crates/core/src/shim/mod.rs:105-127 | after the writes of a reply every byte is the one the last write within the window put there, or as it was |
| SyscallShim.ServiceMeaning | crates/core/src/shim/mod.rs:105-138 | the call is made with x8 and x0 to x5 in order; on a reply x0 is the value and no other register changes, memory holds the writes, and the log grows only by a new unimplemented number; on an exit the status is passed on and registers, memory and log are as they were |
| SyscallShim.ResumeStep | crates/core/src/shim/mod.rs:82-98 | one turn of the loop: an exhausted budget or another trap ends it, an exit ends it with its status, and any other call is serviced, stepped over and the rest run to the same deadline, with less left to do |
| SyscallShim.ShimEndsAsTheGuestDid | crates/core/src/shim/mod.rs:82-98 | a trap that the loop passes on is the one the next step of the final state raises, and an exit is the reply to a call made with the final registers and memory |
| SyscallShim.Shim.ServiceCall | crates/core/src/shim/mod.rs:105-127 | the in-place service routine does what servicing means: x8 and x0 to x5 asked, the value in x0 alone, memory and log as the reply says, or the status and nothing changed |
| SyscallShim.Shim.Resume | crates/core/src/shim/mod.rs:85-92 | resuming moves PC four past the call and changes nothing else |
| SyscallShim.Shim.RecordUnhandled | crates/core/src/shim/mod.rs:129-138 | an unimplemented number is appended unless seen before or the log is full |
| SyscallShim.LogIsBoundedAndDistinct | crates/core/src/shim/mod.rs:129-138 | the log never repeats, never exceeds 32 and misses a number only when full |
| SyscallShim.Shim.Run | crates/core/src/shim/mod.rs:82-98 | the resume loop terminates for every guest, retires at most the budget, keeps the count within 64 bits and computes the reference run |
| TraceWriter.RecordShape | crates/core/src/trace/writer.rs:98-156 | every record is a header declaring its exact byte count, a multiple of eight that fits 16 bits, followed by whole words |
| TraceWriter.MarkerLayout | tests/TRACE_FORMAT.md:159-164 | every field of a marker record at its byte offset |
| TraceWriter.EndLayout | tests/TRACE_FORMAT.md:170-174 | every field of the end record at its byte offset |
| TraceWriter.BlockLayout | tests/TRACE_FORMAT.md:105-119 | every field of a block record and of each of its deltas at its byte offset |
| TraceWriter.ExceptionLayout | tests/TRACE_FORMAT.md:136-149 | every field of the 1000-byte exception record at its byte offset, the vector halves low first |
| TraceWriter.FileHeaderLayout | tests/TRACE_FORMAT.md:62-70 | every field of the 80-byte file header at its byte offset, the name cut or padded with zeroes to 32 bytes |
| TraceWriter.CdtWriter.constructor | crates/core/src/trace/writer.rs:57-96 | a stream starts with the 80-byte file header |
| TraceWriter.CdtWriter.OnMarker | crates/core/src/trace/writer.rs:116-119 | appends exactly the marker record |
| TraceWriter.CdtWriter.OnBlock | crates/core/src/trace/writer.rs:121-140 | appends exactly the block record, at most 255 deltas kept |
| TraceWriter.CdtWriter.OnException | crates/core/src/trace/writer.rs:142-150 | appends exactly the exception record |
| TraceWriter.CdtWriter.WriteFullState | crates/core/src/trace/writer.rs:163-182 | appends the dense state block in its fixed order |
| TraceWriter.CdtWriter.Finish | crates/core/src/trace/writer.rs:152-155 | appends exactly the end record |
| TraceWriter.CdtWriter.Take | crates/core/src/trace/writer.rs:71-73 | drains the buffer and leaves it empty |
| TraceWriter.StateRoundTrip | crates/core/src/trace/writer.rs:163-182 | the dense state block determines the whole register file |
| TraceWriter.EventRoundTrip | crates/core/src/trace/writer.rs:113-156 | reading a serialised event gives it back and goes on with what follows |
| TraceWriter.StreamRoundTrip | crates/core/src/trace/writer.rs:98-156 | any sequence of events written is exactly the sequence a length-driven reader recovers |
| TraceWriter.FileRoundTrip | crates/core/src/trace/writer.rs:57-156 | a whole stream, file header included, is accepted and read back: flags, name field and events |
| TraceWriter.UnknownRecordsAreSkipped | tests/TRACE_FORMAT.md:41-57 | a reader advances past a record type it does not know |
| TraceWriter.StreamIsAligned | tests/TRACE_FORMAT.md:41-57 | every record starts on an eight-byte boundary |
| TraceWriter.DrainingConcatenates | crates/core/src/trace/writer.rs:71-73 | however it is drained, the pieces in order are the undrained stream |
| TraceWriter.DrainsCutAtRecords | crates/core/src/trace/writer.rs:68-73 | every drained piece is a stream of whole records |
| TraceWriter.BytesReconstructStates | crates/core/src/interp/mod.rs:130-175 | end to end: reading the whole stream of any run, file header included, and replaying the block records determines the exact register file on entry to every block |

## Left out

- FpRounding::Odd: the packer treats it as truncation and so does the rounding rule used for it; the tiny-magnitude shortcut of the integer conversions ignores it, so RoundToIntegralExact, RoundToIntegralIdempotent, ToIntegerCorrectIff and ToIntegerAfterRounding assume that Odd does not meet that shortcut.
- Underflow is raised as the code raises it, tininess detected before rounding; no other choice is compared with it.
- Flush-to-zero: the rounding theorems wrap it around the correctly rounded result (NonFinite.FinishedMeaning says how); fused multiply-add does not flush its inputs, as in the code.
- FusedCorrectIff: does not cover flushing modes; FusedRounds covers them.
- Fixed-point conversions and the alternative half-precision format, which this backend does not read or implement.
- The native backend, whose meaning is the host's floating-point unit, and the choice between backends.
- The group decoders: the decoder is a parameter, constrained to shift amounts below the operand width, extension shifts of at most 4 and single-register transfers of 1, 2, 4 or 8 bytes, which is what the group decoders produce.
- Instructions the interpreter does not execute: all of them are one opcode that raises an undefined-instruction trap.
- The trap log, whose entries do not affect execution.
- Individual system calls and the host behind them: one parameter that replies with memory writes, a result and whether the call is implemented.
- The 64-bit wrap of the instruction and cache counters outside the shim, which takes 2^64 steps to reach; within SyscallShim.Shim.Run the count provably stays in range.
- FlatMemory.limit and the wrap of base plus size past 2^64; the bounds check itself is modelled with its overflow branch.
- The trace sink as a type parameter: the CPU object records the calls made on its sink as a sequence of events, and TraceWriter serialises them.
- The producer name is a byte string and the feature hash in the stream header is a constant; computing the hash is not modelled.
- Block records always announce one instruction, as in the code's per-instruction mode; multi-instruction blocks are not modelled.
- The wasm, device, machine and JavaScript crates, benchmarks and threading.
