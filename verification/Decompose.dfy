/**
 Unpacking a pattern into sign, exponent and significand, and rounding and packing a result
 (crates/core/src/fp/softfloat/decompose.rs).

 An intermediate result is known to the packer only as an integer significand and a sticky bit.
 `Brackets` says what that pair tells about the exact magnitude, and the main theorem,
 `PackingRoundsCorrectly`, is that the pair decides rounding exactly as the exact magnitude does,
 with one exception, `LosesCarry`, in the subnormal range.
 */
module Decompose {
  import opened Powers
  import opened Formats
  import opened Rounding

  const GUARD_BITS: nat := 3

  /** One unit of the last mantissa place, `1 << GUARD_BITS`. */
  const GUARD_UNIT: nat := 8

  datatype Unpacked = Unpacked(isNegative: bool, exponent: int, significand: nat)

  datatype RoundingContext = RoundingContext(rounding: FpRounding, isSticky: bool, control: FpControl)

  /** How far left of the units place an unpacked significand has its implicit bit. */
  function SignificandScale(f: FpFormat): nat {
    f.MantissaBits() + GUARD_BITS
  }

  lemma ScaleBounds(f: FpFormat)
    ensures 13 <= SignificandScale(f) <= 55
  {
  }

  function MinimumExponent(f: FpFormat): int {
    1 - f.ExponentBias()
  }

  function ZeroUnpacked(isNegative: bool): Unpacked {
    Unpacked(isNegative, 0, 0)
  }

  // ----- unpacking -----

  function Unpack(bits: nat, f: FpFormat): Unpacked {
    var raw, mantissa := f.ExponentField(bits), f.MantissaField(bits);
    if raw == 0 then
      if mantissa == 0 then ZeroUnpacked(f.IsNegative(bits))
      else UnpackSubnormal(f.IsNegative(bits), mantissa, f)
    else UnpackNormal(f.IsNegative(bits), raw, mantissa, f)
  }

  /** The leading bit of a subnormal moves up to where a normal value has its implicit bit. */
  function UnpackSubnormal(isNegative: bool, mantissa: nat, f: FpFormat): Unpacked
    requires 0 < mantissa < Pow2(f.MantissaBits())
  {
    var m := f.MantissaBits();
    var shift := LeadingZeros(mantissa) - (64 - (m + 1));
    LeadingZerosBelow(mantissa, m);
    Unpacked(isNegative, 1 - f.ExponentBias() - shift,
             mantissa * Pow2(shift + GUARD_BITS) % Pow2(m + 1 + GUARD_BITS))
  }

  function UnpackNormal(isNegative: bool, raw: nat, mantissa: nat, f: FpFormat): Unpacked {
    Unpacked(isNegative, raw - f.ExponentBias(), (mantissa + Pow2(f.MantissaBits())) * GUARD_UNIT)
  }

  /** `u64::leading_zeros`. */
  function LeadingZeros(n: nat): int {
    64 - BitLength(n)
  }

  lemma LeadingZerosBelow(n: nat, m: nat)
    requires n < Pow2(m)
    ensures BitLength(n) <= m && LeadingZeros(n) >= 64 - m
  {
    hide Pow2, BitLength;
    if n > 0 {
      BitLengthBounds(n);
      var k := BitLength(n);
      if k > m {
        Pow2Monotone(m, k - 1);
      }
    }
  }

  // ----- rounding and packing -----

  function RoundAndPack(value: Unpacked, f: FpFormat, context: RoundingContext): FpResult {
    if value.significand == 0 then Exactly(f.ZeroBits(value.isNegative))
    else ApplyFlushToZero(PackUnflushed(value, f, context), f, context.control)
  }

  /** The packed result before flush-to-zero is applied. */
  function PackUnflushed(value: Unpacked, f: FpFormat, context: RoundingContext): FpResult {
    var (normalised, isSticky) := Normalised(value, context.isSticky, f);
    PackNormalised(normalised, isSticky, f, context.rounding)
  }

  /** What `Normalise` computes: the leading bit brought to the implicit-bit position. */
  function Normalised(value: Unpacked, isSticky: bool, f: FpFormat): (Unpacked, bool) {
    var (lowered, sticky) := ShiftedDown(value, isSticky, Pow2(SignificandScale(f)));
    (ShiftedUp(lowered, Pow2(SignificandScale(f))), sticky)
  }

  function ShiftedDown(value: Unpacked, isSticky: bool, target: nat): (Unpacked, bool)
    requires target > 0
    decreases value.significand
  {
    if value.significand < 2 * target then (value, isSticky)
    else ShiftedDown(value.(significand := value.significand / 2, exponent := value.exponent + 1),
                     isSticky || value.significand % 2 != 0, target)
  }

  function ShiftedUp(value: Unpacked, target: nat): Unpacked
    decreases if value.significand < target then target - value.significand else 0
  {
    if value.significand >= target || value.significand == 0 then value
    else ShiftedUp(value.(significand := value.significand * 2, exponent := value.exponent - 1), target)
  }

  /** The two loops, proved to reach `Normalised`. */
  method Normalise(value: Unpacked, isSticky: bool, f: FpFormat) returns (result: Unpacked, sticky: bool)
    ensures (result, sticky) == Normalised(value, isSticky, f)
  {
    result, sticky := value, isSticky;
    var target := Pow2(SignificandScale(f));
    while result.significand >= 2 * target
      invariant ShiftedDown(result, sticky, target) == ShiftedDown(value, isSticky, target)
      decreases result.significand
    {
      sticky := sticky || result.significand % 2 != 0;
      result := result.(significand := result.significand / 2, exponent := result.exponent + 1);
    }
    while result.significand < target && result.significand != 0
      invariant ShiftedUp(result, target) == Normalised(value, isSticky, f).0
      decreases if result.significand < target then target - result.significand else 0
    {
      result := result.(significand := result.significand * 2, exponent := result.exponent - 1);
    }
  }

  function PackNormalised(value: Unpacked, isSticky: bool, f: FpFormat, rounding: FpRounding): FpResult {
    if value.exponent < MinimumExponent(f) then
      PackSubnormal(value, isSticky, f, rounding)
    else
      var (significand, exponent, raised) :=
        RoundSignificand(value.significand, value.exponent, isSticky, rounding, value.isNegative);
      if exponent > f.ExponentBias() then
        OverflowResult(value.isNegative, f, rounding)
      else
        var biased := exponent + f.ExponentBias();
        FpResult(f.Encode(value.isNegative,
                          biased * Pow2(f.MantissaBits()) + significand / GUARD_UNIT % Pow2(f.MantissaBits())),
                 raised)
  }

  /** The rounded significand, renormalised if rounding reached a new leading bit. */
  function RoundSignificand(significand: nat, exponent: int, isSticky: bool, rounding: FpRounding, isNegative: bool)
    : (result: (nat, int, FpExceptions))
    ensures result.1 >= exponent
  {
    var discarded := significand % GUARD_UNIT;
    if discarded == 0 && !isSticky then (significand, exponent, {})
    else
      var increment := ShouldRoundUp(discarded, isSticky, significand, rounding, isNegative);
      var rounded := (significand + if increment then GUARD_UNIT else 0) / GUARD_UNIT * GUARD_UNIT;
      if LeadingZeros(rounded) < LeadingZeros(significand) then (rounded / 2, exponent + 1, {Inexact})
      else (rounded, exponent, {Inexact})
  }

  predicate ShouldRoundUp(discarded: nat, isSticky: bool, significand: nat, rounding: FpRounding, isNegative: bool) {
    var half := GUARD_UNIT / 2;
    var isAboveHalf := discarded > half || (discarded == half && isSticky);
    var isExactlyHalf := discarded == half && !isSticky;
    match rounding
    case Nearest => isAboveHalf || (isExactlyHalf && significand / GUARD_UNIT % 2 != 0)
    case NearestAway => discarded >= half
    case Zero => false
    case Plus => !isNegative
    case Minus => isNegative
    case Odd => false
  }

  function PackSubnormal(value: Unpacked, isSticky: bool, f: FpFormat, rounding: FpRounding): FpResult
    requires value.exponent < MinimumExponent(f)
  {
    var shift: nat := MinimumExponent(f) - value.exponent;
    var width := f.MantissaBits() + 1 + GUARD_BITS;
    if shift >= width then
      FpResult(RoundToZeroOrMinimum(value.isNegative, f, rounding), {Underflow, Inexact})
    else
      var sticky := isSticky || LowBits(value.significand, shift) != 0;
      var (significand, _, inexact) :=
        RoundSignificand(ShiftRight(value.significand, shift), MinimumExponent(f), sticky, rounding, value.isNegative);
      FpResult(f.Encode(value.isNegative, significand / GUARD_UNIT),
               if inexact == {} then {} else inexact + {Underflow})
  }

  function RoundToZeroOrMinimum(isNegative: bool, f: FpFormat, rounding: FpRounding): nat {
    var isAway := (rounding == Plus && !isNegative) || (rounding == Minus && isNegative);
    f.Encode(isNegative, if isAway then 1 else 0)
  }

  function OverflowResult(isNegative: bool, f: FpFormat, rounding: FpRounding): FpResult {
    var goesToInfinity := match rounding
      case Nearest => true
      case NearestAway => true
      case Zero => false
      case Plus => !isNegative
      case Minus => isNegative
      case Odd => false;
    Layout(f);
    FpResult(if goesToInfinity then f.SignedInfinity(isNegative) else f.Encode(isNegative, f.Infinity() - 1),
             {Overflow, Inexact})
  }

  function ApplyFlushToZero(result: FpResult, f: FpFormat, control: FpControl): FpResult {
    if !IsFlushing(f, control) || !f.IsSubnormal(result.bits) then result
    else FpResult(f.ZeroBits(f.IsNegative(result.bits)), result.raised + {Underflow, Inexact})
  }

  // ----- what a significand and a sticky bit say about the exact magnitude -----

  /** `n` is the floor of v / 2^g, and the sticky bit is set exactly when v is above it. */
  ghost predicate Brackets(v: real, n: nat, isSticky: bool, g: int) {
    if isSticky then Scale(n, g) < v < Scale(n + 1, g) else v == Scale(n, g)
  }

  /** The next multiple of four above `n`. */
  function NextFour(n: nat): nat {
    n - n % 4 + 4
  }

  /**
   A weaker bracket: a set sticky bit puts v above n but below the next multiple of four, which
   is all that survives shifting a bracket left, and all that rounding three guard bits needs.
   */
  ghost predicate Located(v: real, n: nat, isSticky: bool, g: int) {
    if isSticky then Scale(n, g) < v < Scale(NextFour(n), g) else v == Scale(n, g)
  }

  /** A right shift that folds what it discards into the sticky bit keeps the bracket. */
  lemma BracketShift(v: real, n: nat, isSticky: bool, g: int, k: nat)
    requires Brackets(v, n, isSticky, g)
    ensures Brackets(v, ShiftRight(n, k), isSticky || LowBits(n, k) != 0, g + k)
  {
    hide Scale, Pow2, ShiftRight, LowBits;
    var p, q := Pow2(k), ShiftRight(n, k);
    ShiftSplit(n, k);
    ScaleShift(q, k, g);
    ScaleShift(q + 1, k, g);
    ScaleOrder(q * p, n, g);
    ScaleOrder(n, (q + 1) * p, g);
    ScaleOrder(n + 1, (q + 1) * p, g);
  }

  lemma LocatedShift(v: real, n: nat, isSticky: bool, g: int, k: nat)
    requires Located(v, n, isSticky, g)
    ensures Located(v, ShiftRight(n, k), isSticky || LowBits(n, k) != 0, g + k)
  {
    hide Scale, Pow2, ShiftRight, LowBits;
    var p, q := Pow2(k), ShiftRight(n, k);
    ShiftSplit(n, k);
    NextFourShift(n, p, q);
    ScaleShift(q, k, g);
    ScaleShift(NextFour(q), k, g);
    ScaleOrder(q * p, n, g);
    ScaleOrder(n, NextFour(q) * p, g);
    ScaleOrder(NextFour(n), NextFour(q) * p, g);
  }

  lemma NextFourShift(n: nat, p: nat, q: nat)
    requires p > 0 && n < (q + 1) * p
    ensures n < NextFour(q) * p
    ensures NextFour(n) <= NextFour(q) * p
  {
    MulMonotone(q + 1, NextFour(q), p);
    var c := NextFour(q) / 4;
    assert NextFour(q) == 4 * c;
    MulAssoc(4, c, p);
  }

  lemma BracketLocated(v: real, n: nat, isSticky: bool, g: int, k: nat)
    requires Brackets(v, n, isSticky, g) && (isSticky ==> k <= 2)
    ensures Located(v, n * Pow2(k), isSticky, g - k)
  {
    hide Scale, Pow2;
    ScaleShift(n, k, g - k);
    ScaleShift(n + 1, k, g - k);
    if isSticky {
      NextFourCovers(n, k);
      ScaleOrder((n + 1) * Pow2(k), NextFour(n * Pow2(k)), g - k);
    }
  }

  lemma NextFourCovers(n: nat, k: nat)
    requires k <= 2
    ensures (n + 1) * Pow2(k) <= NextFour(n * Pow2(k))
  {
    Pow2Small();
    hide Pow2;
    assert k == 0 || k == 1 || k == 2;
  }

  lemma {:induction false} ShiftedDownMeaning(v: real, value: Unpacked, isSticky: bool, target: nat, scale: int)
    requires target > 0
    requires Brackets(v, value.significand, isSticky, value.exponent - scale)
    ensures var (r, s) := ShiftedDown(value, isSticky, target);
            && Brackets(v, r.significand, s, r.exponent - scale)
            && r.significand < 2 * target && r.isNegative == value.isNegative
            && (value.significand >= target ==> r.significand >= target)
            && (value.significand < target ==> r == value && s == isSticky)
    decreases value.significand
  {
    hide Brackets;
    if value.significand >= 2 * target {
      assert Pow2(1) == 2;
      BracketShift(v, value.significand, isSticky, value.exponent - scale, 1);
      var next := value.(significand := value.significand / 2, exponent := value.exponent + 1);
      assert next.exponent - scale == value.exponent - scale + 1;
      ShiftedDownMeaning(v, next, isSticky || value.significand % 2 != 0, target, scale);
    }
  }

  lemma {:induction false} ShiftedUpMeaning(value: Unpacked, target: nat) returns (k: nat)
    requires 0 < value.significand < 2 * target
    ensures var r := ShiftedUp(value, target);
            && r.significand == value.significand * Pow2(k) && r.exponent == value.exponent - k
            && target <= r.significand < 2 * target && r.isNegative == value.isNegative
    ensures k > 0 ==> value.significand * Pow2(k - 1) < target
    decreases if value.significand < target then target - value.significand else 0
  {
    if value.significand >= target {
      k := 0;
    } else {
      var next := value.(significand := value.significand * 2, exponent := value.exponent - 1);
      var j := ShiftedUpMeaning(next, target);
      k := j + 1;
      MulAssoc(value.significand, 2, Pow2(j));
      if j > 0 {
        MulAssoc(value.significand, 2, Pow2(j - 1));
      }
    }
  }

  /**
   Normalising keeps what is known about the exact magnitude, provided a sticky significand has
   to move up at most two places.
   */
  lemma NormalisedMeaning(v: real, value: Unpacked, isSticky: bool, f: FpFormat)
    requires value.significand > 0
    requires Brackets(v, value.significand, isSticky, value.exponent - SignificandScale(f))
    requires isSticky ==> 4 * value.significand >= Pow2(SignificandScale(f))
    ensures var (r, s) := Normalised(value, isSticky, f);
            && Located(v, r.significand, s, r.exponent - SignificandScale(f))
            && Pow2(SignificandScale(f)) <= r.significand < 2 * Pow2(SignificandScale(f))
            && r.isNegative == value.isNegative
  {
    hide Brackets, Located, Pow2;
    var scale, target := SignificandScale(f), Pow2(SignificandScale(f));
    var (d, s) := ShiftedDown(value, isSticky, target);
    ShiftedDownMeaning(v, value, isSticky, target, scale);
    var k := ShiftedUpMeaning(d, target);
    if s && k > 2 {
      assert d == value;
      QuarterBound(value.significand, k);
      assert false;
    }
    BracketLocated(v, d.significand, s, d.exponent - scale, k);
    assert d.exponent - scale - k == d.exponent - k - scale;
  }

  lemma QuarterBound(n: nat, k: nat)
    requires k > 2
    ensures 4 * n <= n * Pow2(k - 1)
  {
    Pow2Monotone(2, k - 1);
    assert Pow2(2) == 4;
    MulMonotone(4, Pow2(k - 1), n);
  }

  lemma HalfUnitAbove(n: nat, g: int)
    ensures Scale(n, g) < Scale(n, g) + Scale(1, g - 1) < Scale(n + 1, g)
    ensures Brackets(Scale(n, g) + Scale(1, g - 1), n, true, g)
    ensures Scale(n, g) >= 0.0 && Scale(1, g - 1) > 0.0
  {
    hide Scale, Pow2;
    ScaleAdd(n, 1, g);
    ScaleShift(1, 1, g - 1);
    Pow2Small();
    ScalePositive(1, g - 1);
    ScaleAdd(1, 1, g - 1);
    ScaleZero(g);
    ScaleOrder(0, n, g);
  }

  // ----- the guard bits decide rounding -----

  /**
   The three guard bits and the sticky bit place the exact magnitude relative to its two
   neighbours and their midpoint, so the code's decision is the one the rule asks for.
   */
  lemma GuardBitsDecide(v: real, n: nat, isSticky: bool, g: int, rounding: FpRounding, isNegative: bool)
    requires Located(v, n, isSticky, g)
    ensures Scale(n / 8, g + 3) <= v < Scale(n / 8 + 1, g + 3)
    ensures v == Scale(n / 8, g + 3) <==> n % 8 == 0 && !isSticky
    ensures v != Scale(n / 8, g + 3) ==>
              (ShouldRoundUp(n % 8, isSticky, n, rounding, isNegative) <==>
               SelectsUpper(RuleFor(rounding, isNegative), v, Scale(n / 8, g + 3), Scale(n / 8 + 1, g + 3), n / 8 % 2 == 0))
  {
    var t, d := n / 8, n % 8;
    assert Pow2(2) == 4 && Pow2(3) == 8;
    hide Scale, Pow2;
    ScaleShift(t, 3, g);
    ScaleShift(t + 1, 3, g);
    ScaleAdd(8 * t, 8 * t + 8, g);
    ScaleAdd(8 * t + 4, 8 * t + 4, g);
    ScaleOrder(8 * t, n, g);
    ScaleOrder(n, 8 * t + 4, g);
    ScaleOrder(n, 8 * t + 8, g);
    ScaleOrder(NextFour(n), 8 * t + 4, g);
    ScaleOrder(NextFour(n), 8 * t + 8, g);
  }

  /** The effect of `RoundSignificand` on the significand with its guard bits dropped. */
  lemma RoundSignificandMeaning(n: nat, exponent: int, isSticky: bool, rounding: FpRounding, isNegative: bool)
    ensures var (r, e, raised) := RoundSignificand(n, exponent, isSticky, rounding, isNegative);
            var isInexact := n % 8 != 0 || isSticky;
            var isUp := isInexact && ShouldRoundUp(n % 8, isSticky, n, rounding, isNegative);
            && raised == (if isInexact then {Inexact} else {})
            && (!isUp ==> r / 8 == n / 8 && e == exponent)
            && (isUp && IsPowerOfTwo(n / 8 + 1) ==> r / 8 == (n / 8 + 1) / 2 && e == exponent + 1)
            && (isUp && !IsPowerOfTwo(n / 8 + 1) ==> r / 8 == n / 8 + 1 && e == exponent)
  {
    hide Pow2, ShouldRoundUp, IsPowerOfTwo, LeadingZeros;
    if (n % 8 != 0 || isSticky) && ShouldRoundUp(n % 8, isSticky, n, rounding, isNegative) {
      RoundedUp(n);
    } else {
      RoundedDown(n);
    }
  }

  lemma RoundedUp(n: nat)
    ensures var r := (n + 8) / 8 * 8;
            && r == 8 * (n / 8 + 1)
            && (LeadingZeros(r) < LeadingZeros(n) <==> IsPowerOfTwo(n / 8 + 1))
  {
    hide Pow2, IsPowerOfTwo, BitLength;
    var t, d := n / 8, n % 8;
    BitLengthOctet(t, d);
    BitLengthOctet(t + 1, 0);
    NewLeadingBit(t);
  }

  lemma RoundedDown(n: nat)
    ensures var r := (n + 0) / 8 * 8;
            r == 8 * (n / 8) && LeadingZeros(r) >= LeadingZeros(n)
  {
    hide BitLength;
    BitLengthMonotone(8 * (n / 8), n);
  }

  lemma BitLengthOctet(t: nat, d: nat)
    requires d < 8
    ensures t > 0 ==> BitLength(8 * t + d) == BitLength(t) + 3
    ensures t == 0 ==> BitLength(8 * t + d) <= 3
  {
    hide BitLength;
    BitLengthHalf(4 * t + d / 2, d % 2);
    BitLengthHalf(2 * t + d / 4, d / 2 % 2);
    BitLengthHalf(t, d / 4);
    assert d == 2 * (d / 2) + d % 2 && d / 2 == 2 * (d / 4) + d / 2 % 2;
  }

  lemma BitLengthHalf(h: nat, bit: nat)
    requires bit < 2
    ensures BitLength(2 * h + bit) <= BitLength(h) + 1
    ensures h > 0 ==> BitLength(2 * h + bit) == BitLength(h) + 1
  {
    assert (2 * h + bit) / 2 == h;
  }

  /** Rounding a normalised significand up cannot leave its 64-bit word. */
  lemma RoundingFitsWord(n: nat, exponent: int, isSticky: bool, rounding: FpRounding, isNegative: bool, f: FpFormat)
    requires n < 2 * Pow2(SignificandScale(f))
    ensures n + GUARD_UNIT < Pow2(64)
    ensures RoundSignificand(n, exponent, isSticky, rounding, isNegative).0 < Pow2(64)
  {
    hide Pow2, ShouldRoundUp, LeadingZeros;
    ScaleBounds(f);
    Pow2Double(SignificandScale(f));
    Pow2Monotone(SignificandScale(f) + 1, 62);
    Pow2Double(62);
    Pow2Double(63);
    Pow2Monotone(3, 62);
    Pow2Small();
  }

  // ----- the packer rounds correctly -----

  /**
   The case the packer gets wrong.  A subnormal that rounds up to a power of two has its
   significand halved by `RoundSignificand` as if its exponent could grow, and `PackSubnormal`
   drops the grown exponent.  The shortcut below an eighth of the quantum is not affected.
   */
  ghost predicate LosesCarry(f: FpFormat, v: real, b: nat) {
    && Scale(1, QuantumExponent(f) - 3) <= v < MinNormal(f)
    && v < Mag(f, b)
    && IsPowerOfTwo(b)
  }

  /** The pattern the packer produces where `b` is the correct one. */
  ghost function PackedPattern(f: FpFormat, v: real, b: nat): nat {
    if LosesCarry(f, v, b) then b / 2 else b
  }

  /** Everything that is known of a normalised significand about to be packed. */
  ghost predicate IsNormalisedFor(f: FpFormat, v: real, value: Unpacked, isSticky: bool) {
    && Located(v, value.significand, isSticky, value.exponent - SignificandScale(f))
    && Pow2(SignificandScale(f)) <= value.significand < 2 * Pow2(SignificandScale(f))
  }

  /** `r` is the packing of the exact magnitude `v`, whose correct rounding is `b`. */
  ghost predicate IsPackingOf(f: FpFormat, rule: Rule, isNegative: bool, v: real, b: nat, r: FpResult) {
    && RoundsMagnitude(f, rule, v, b)
    && r.bits == f.Encode(isNegative, PackedPattern(f, v, b))
    && r.raised == FlagsFor(f, rule, v)
  }

  /** A magnitude pattern by its exponent and significand. */
  lemma MagOfNormal(f: FpFormat, biased: nat, t: nat)
    requires biased > 0 && Pow2(f.MantissaBits()) <= t <= 2 * Pow2(f.MantissaBits())
    ensures Mag(f, biased * Pow2(f.MantissaBits()) + (t - Pow2(f.MantissaBits())))
         == Scale(t, QuantumExponent(f) + biased - 1)
  {
    hide Pow2, Scale;
    var p := Pow2(f.MantissaBits());
    UnitsOfNormal(p, biased, t);
    ScaleShift(t, biased - 1, QuantumExponent(f));
  }

  lemma UnitsOfNormal(p: nat, biased: nat, t: nat)
    requires p > 0 && biased > 0 && p <= t <= 2 * p
    ensures Units(p, biased * p + (t - p)) == t * Pow2(biased - 1)
  {
    if t < 2 * p {
      DivModUnique(biased * p + (t - p), p, biased, t - p);
    } else {
      DivModUnique(biased * p + (t - p), p, biased + 1, 0);
      MulAssoc(p, 2, Pow2(biased - 1));
    }
  }

  lemma MagOfSubnormal(f: FpFormat, t: nat)
    requires t <= Pow2(f.MantissaBits())
    ensures Mag(f, t) == Scale(t, QuantumExponent(f))
  {
    hide Pow2, Scale, Units;
    UnitsOfSubnormal(Pow2(f.MantissaBits()), t);
  }

  lemma UnitsOfSubnormal(p: nat, t: nat)
    requires 0 < p && t <= p
    ensures Units(p, t) == t
  {
    if t < p {
      DivModUnique(t, p, 0, t);
    } else {
      UnitsOfNormal(p, 1, t);
      assert Pow2(0) == 1;
    }
  }

  lemma InfinityValue(f: FpFormat)
    ensures Mag(f, f.Infinity()) == Pow2R(f.ExponentBias() + 1)
    ensures MinNormal(f) == Pow2R(MinimumExponent(f))
  {
    hide Pow2, Scale, Mag, Pow2R, FpFormat.MantissaBits, FpFormat.ExponentBias;
    var p := Pow2(f.MantissaBits());
    Geometry(f);
    MagOfNormal(f, f.MaxExponent(), p);
    MagOfNormal(f, 1, p);
    OneScaled(f.MantissaBits(), QuantumExponent(f) + f.MaxExponent() - 1);
    OneScaled(f.MantissaBits(), QuantumExponent(f));
  }

  lemma OneScaled(k: nat, g: int)
    ensures Scale(Pow2(k), g) == Pow2R(g + k) == Scale(1, g + k)
  {
    ScaleShift(1, k, g);
  }

  /** A normalised magnitude lies in the binade its exponent names. */
  lemma NormalisedRange(f: FpFormat, v: real, value: Unpacked, isSticky: bool)
    requires IsNormalisedFor(f, v, value, isSticky)
    ensures Pow2R(value.exponent) <= v < Pow2R(value.exponent + 1)
  {
    var n, g, target := value.significand, value.exponent - SignificandScale(f), Pow2(SignificandScale(f));
    Pow2Quarter(SignificandScale(f));
    hide Pow2, Scale, Pow2R;
    OneScaled(SignificandScale(f), g);
    OneScaled(SignificandScale(f) + 1, g);
    ScaleOrder(target, n, g);
    ScaleOrder(n, 2 * target, g);
    ScaleOrder(NextFour(n), 2 * target, g);
  }

  lemma Pow2Quarter(k: nat)
    requires k >= 2
    ensures Pow2(k) % 4 == 0 && Pow2(k + 1) == 2 * Pow2(k)
  {
    assert Pow2(k) == 2 * (2 * Pow2(k - 2));
  }

  /** Between two neighbours nothing is representable. */
  lemma BetweenNeighbours(f: FpFormat, v: real, lo: nat)
    requires IsLowerNeighbour(f, v, lo)
    ensures IsRepresentable(f, v) <==> v == Mag(f, lo)
    ensures !IsBeyondRange(f, v)
  {
    hide Mag;
    MagOrder(f, f.Infinity(), lo + 1);
    if IsRepresentable(f, v) {
      var b: nat :| b < f.Infinity() && Mag(f, b) == v;
      MagOrder(f, lo, b);
      MagOrder(f, b, lo + 1);
    }
  }

  /** The flags, read off the neighbours and the selected pattern. */
  lemma FlagsFromNeighbours(f: FpFormat, rule: Rule, v: real, lo: nat)
    requires IsLowerNeighbour(f, v, lo)
    ensures RoundsMagnitude(f, rule, v, Selected(f, rule, v, lo))
    ensures FlagsFor(f, rule, v) ==
            if v == Mag(f, lo) then {}
            else if Selected(f, rule, v, lo) == f.Infinity() then {Overflow, Inexact}
            else if v < MinNormal(f) then {Underflow, Inexact}
            else {Inexact}
  {
    hide Mag, MinNormal;
    BetweenNeighbours(f, v, lo);
    if RoundsMagnitude(f, rule, v, f.Infinity()) {
      RoundingUnique(f, rule, v, f.Infinity(), Selected(f, rule, v, lo));
    }
  }

  /** Below an eighth of the quantum. */
  lemma TinyMeaning(f: FpFormat, rule: Rule, v: real)
    requires 0.0 < v < Pow2R(QuantumExponent(f) - 3)
    ensures var b := if rule == AwayFromZero then 1 else 0;
            && RoundsMagnitude(f, rule, v, b) && !LosesCarry(f, v, b)
            && FlagsFor(f, rule, v) == {Underflow, Inexact}
  {
    hide Mag, Pow2R, Pow2, Scale, MinNormal, FpFormat.Infinity, FpFormat.MantissaBits, FpFormat.ExponentBias;
    var q := QuantumExponent(f);
    InfinityValue(f);
    Pow2RMonotone(q, MinimumExponent(f));
    MagZero(f);
    MagOfSubnormal(f, 1);
    Pow2RNat(q - 3, 3);
    Pow2Small();
    InfinityIsLarge(f);
    ScaleOne(q);
    ScaleOne(q - 3);
    QuantumBelowNormal(f);
    FlagsFromNeighbours(f, rule, v, 0);
  }

  lemma QuantumBelowNormal(f: FpFormat)
    ensures QuantumExponent(f) <= MinimumExponent(f)
  {
  }

  lemma InfinityIsLarge(f: FpFormat)
    ensures Pow2(f.MantissaBits()) < f.Infinity()
  {
    Geometry(f);
    hide Pow2;
    MulMonotone(2, f.MaxExponent(), Pow2(f.MantissaBits()));
  }

  lemma SubnormalWidth(n: nat, shift: nat, m: nat)
    requires shift >= 1 && n < 2 * Pow2(m + 3)
    ensures ShiftRight(n, shift) / 8 < Pow2(m)
  {
    ShiftSplit(n, shift);
    Pow2Monotone(1, shift);
    Pow2Add(m, 3);
    assert Pow2(1) == 2 && Pow2(3) == 8;
    hide Pow2, ShiftRight;
    MulMonotone(2, Pow2(shift), ShiftRight(n, shift));
  }

  /** A subnormal significand at the packer's fixed scale. */
  lemma ShiftedSubnormalMeaning(v: real, n: nat, isSticky: bool, f: FpFormat, rounding: FpRounding, isNegative: bool)
    returns (b: nat)
    requires Located(v, n, isSticky, QuantumExponent(f) - 3) && n / 8 < Pow2(f.MantissaBits())
    requires Scale(1, QuantumExponent(f) - 3) <= v < MinNormal(f)
    ensures var (r, _, raised) := RoundSignificand(n, MinimumExponent(f), isSticky, rounding, isNegative);
            var rule := RuleFor(rounding, isNegative);
            && RoundsMagnitude(f, rule, v, b)
            && r / 8 == PackedPattern(f, v, b)
            && FlagsFor(f, rule, v) == if raised == {} then {} else raised + {Underflow}
  {
    hide Mag, Pow2, Scale, MinNormal, Located, ShouldRoundUp, FpFormat.Infinity, FpFormat.MantissaBits,
         RoundSignificand, FlagsFor, IsPowerOfTwo;
    var q, t, rule := QuantumExponent(f), n / 8, RuleFor(rounding, isNegative);
    GuardBitsDecide(v, n, isSticky, q - 3, rounding, isNegative);
    MagOfSubnormal(f, t);
    MagOfSubnormal(f, t + 1);
    InfinityIsLarge(f);
    MagOrder(f, t, t + 1);
    RoundSignificandMeaning(n, MinimumExponent(f), isSticky, rounding, isNegative);
    FlagsFromNeighbours(f, rule, v, t);
    b := Selected(f, rule, v, t);
  }

  lemma PackSubnormalMeaning(v: real, value: Unpacked, isSticky: bool, f: FpFormat, rounding: FpRounding) returns (b: nat)
    requires IsNormalisedFor(f, v, value, isSticky) && value.exponent < MinimumExponent(f)
    ensures IsPackingOf(f, RuleFor(rounding, value.isNegative), value.isNegative, v, b,
                        PackSubnormal(value, isSticky, f, rounding))
  {
    var rule := RuleFor(rounding, value.isNegative);
    hide Mag, Pow2, Scale, Pow2R, MinNormal, FlagsFor, RoundsMagnitude, RoundSignificand, Located, LosesCarry,
         ShiftRight, LowBits, FpFormat.Infinity, FpFormat.ExponentBias, FpFormat.MantissaBits;
    var shift, q := MinimumExponent(f) - value.exponent, QuantumExponent(f);
    NormalisedRange(f, v, value, isSticky);
    InfinityValue(f);
    Pow2RMonotone(value.exponent + 1, MinimumExponent(f));
    ScaleOne(q - 3);
    if shift >= f.MantissaBits() + 1 + GUARD_BITS {
      Pow2RMonotone(value.exponent + 1, q - 3);
      TinyMeaning(f, rule, v);
      b := if rule == AwayFromZero then 1 else 0;
    } else {
      var st := isSticky || LowBits(value.significand, shift) != 0;
      var n := ShiftRight(value.significand, shift);
      LocatedShift(v, value.significand, isSticky, value.exponent - SignificandScale(f), shift);
      SubnormalWidth(value.significand, shift, f.MantissaBits());
      Pow2RMonotone(q - 3, value.exponent);
      b := ShiftedSubnormalMeaning(v, n, st, f, rounding, value.isNegative);
    }
  }

  /** Just above the start of a binade, the only power of two is the start of the next one. */
  lemma PowerInBinade(m: nat, t: nat)
    requires Pow2(m) < t <= 2 * Pow2(m)
    ensures IsPowerOfTwo(t) <==> t == 2 * Pow2(m)
  {
    if t == 2 * Pow2(m) {
      assert t == Pow2(m + 1);
    }
    if IsPowerOfTwo(t) {
      var j: nat :| t == Pow2(j);
      if j <= m {
        Pow2Monotone(j, m);
      } else {
        Pow2Monotone(m + 1, j);
      }
    }
  }

  /** Beyond the largest binade the packer overflows to the value section 7.4 asks for. */
  lemma OverflowMeaning(f: FpFormat, v: real, rounding: FpRounding, isNegative: bool)
    requires IsBeyondRange(f, v)
    ensures var rule := RuleFor(rounding, isNegative);
            var b := if rule == TowardZero then f.Infinity() - 1 else f.Infinity();
            b >= 0 && IsPackingOf(f, rule, isNegative, v, b, OverflowResult(isNegative, f, rounding))
  {
    hide Mag, Pow2, Pow2R, FpFormat.Infinity, FpFormat.MantissaBits;
    Layout(f);
    InfinityIsLarge(f);
    MagOrder(f, Pow2(f.MantissaBits()), f.Infinity());
    if IsRepresentable(f, v) {
      var b: nat :| b < f.Infinity() && Mag(f, b) == v;
      MagOrder(f, b, f.Infinity());
    }
  }

  /** The neighbours of a magnitude in the binade of exponent `e`. */
  lemma NormalNeighbours(f: FpFormat, v: real, e: int, t: nat) returns (lo: nat)
    requires MinimumExponent(f) <= e <= f.ExponentBias()
    requires Pow2(f.MantissaBits()) <= t < 2 * Pow2(f.MantissaBits())
    requires Scale(t, e - f.MantissaBits()) <= v < Scale(t + 1, e - f.MantissaBits())
    ensures lo == (e + f.ExponentBias()) * Pow2(f.MantissaBits()) + (t - Pow2(f.MantissaBits()))
    ensures IsLowerNeighbour(f, v, lo)
    ensures Mag(f, lo) == Scale(t, e - f.MantissaBits()) && Mag(f, lo + 1) == Scale(t + 1, e - f.MantissaBits())
    ensures lo % 2 == t % 2
    ensures lo + 1 == f.Infinity() <==> e == f.ExponentBias() && t + 1 == 2 * Pow2(f.MantissaBits())
  {
    hide Mag, Scale, Pow2, FpFormat.MantissaBits, FpFormat.ExponentBias, FpFormat.Infinity;
    var p, biased := Pow2(f.MantissaBits()), e + f.ExponentBias();
    lo := biased * p + (t - p);
    MagOfNormal(f, biased, t);
    MagOfNormal(f, biased, t + 1);
    assert QuantumExponent(f) + biased - 1 == e - f.MantissaBits();
    PatternParity(f, biased, t);
    PatternBelowInfinity(f, biased, t);
  }

  lemma PatternBelowInfinity(f: FpFormat, biased: nat, t: nat)
    requires biased <= 2 * f.ExponentBias() && Pow2(f.MantissaBits()) <= t < 2 * Pow2(f.MantissaBits())
    ensures var lo := biased * Pow2(f.MantissaBits()) + (t - Pow2(f.MantissaBits()));
            && lo < f.Infinity()
            && (lo + 1 == f.Infinity() <==> biased == 2 * f.ExponentBias() && t + 1 == 2 * Pow2(f.MantissaBits()))
  {
    hide Pow2, FpFormat.MantissaBits, FpFormat.ExponentBias, FpFormat.MaxExponent;
    Geometry(f);
    TiledBelow(biased, t - Pow2(f.MantissaBits()), Pow2(f.MantissaBits()), f.MaxExponent());
  }

  lemma PatternParity(f: FpFormat, biased: nat, t: nat)
    requires Pow2(f.MantissaBits()) <= t
    ensures (biased * Pow2(f.MantissaBits()) + (t - Pow2(f.MantissaBits()))) % 2 == t % 2
  {
    hide Pow2, FpFormat.MantissaBits;
    EvenPower(f);
    ProductParity(biased, Pow2(f.MantissaBits()));
  }

  lemma EvenPower(f: FpFormat)
    ensures Pow2(f.MantissaBits()) % 2 == 0
  {
    hide Pow2;
    Pow2Quarter(f.MantissaBits());
  }

  lemma ProductParity(a: nat, p: nat)
    requires p % 2 == 0
    ensures a * p % 2 == 0
  {
    MulAssoc(a, p / 2, 2);
  }

  lemma TiledBelow(biased: nat, low: nat, p: nat, top: nat)
    requires low < p && biased < top
    ensures biased * p + low < top * p
    ensures biased * p + low + 1 == top * p <==> biased + 1 == top && low + 1 == p
  {
    MulMonotone(biased + 1, top, p);
    Distribute(biased, p);
    if biased + 1 < top {
      MulMonotone(biased + 2, top, p);
      Distribute(biased + 1, p);
    }
  }

  /** The pattern with exponent field `biased` and significand `t`, where the mantissa field takes `p` values. */
  function PatternAt(biased: nat, p: nat, t: nat): nat
    requires p <= t
  {
    biased * p + (t - p)
  }

  /** What the packer assembles in the normal range, as one step up or none from the lower neighbour. */
  lemma NormalPacked(value: Unpacked, isSticky: bool, f: FpFormat, rounding: FpRounding)
    requires MinimumExponent(f) <= value.exponent <= f.ExponentBias()
    requires Pow2(f.MantissaBits()) <= value.significand / 8 < 2 * Pow2(f.MantissaBits())
    ensures var n, e, p := value.significand, value.exponent, Pow2(f.MantissaBits());
            var isInexact := n % 8 != 0 || isSticky;
            var isUp := isInexact && ShouldRoundUp(n % 8, isSticky, n, rounding, value.isNegative);
            var lo := PatternAt(e + f.ExponentBias(), p, n / 8);
            && PackNormalised(value, isSticky, f, rounding)
               == if isUp && n / 8 + 1 == 2 * p && e == f.ExponentBias() then OverflowResult(value.isNegative, f, rounding)
                  else FpResult(f.Encode(value.isNegative, if isUp then lo + 1 else lo), if isInexact then {Inexact} else {})
  {
    hide Pow2, RoundSignificand, IsPowerOfTwo, ShouldRoundUp, FpFormat.ExponentBias, FpFormat.MantissaBits, FpFormat.Encode, OverflowResult;
    var n, e, p := value.significand, value.exponent, Pow2(f.MantissaBits());
    RoundSignificandMeaning(n, e, isSticky, rounding, value.isNegative);
    PowerInBinade(f.MantissaBits(), n / 8 + 1);
    NormalPattern(p, e + f.ExponentBias(), n / 8);
  }

  lemma PackNormalMeaning(v: real, value: Unpacked, isSticky: bool, f: FpFormat, rounding: FpRounding) returns (b: nat)
    requires IsNormalisedFor(f, v, value, isSticky) && MinimumExponent(f) <= value.exponent <= f.ExponentBias()
    ensures IsPackingOf(f, RuleFor(rounding, value.isNegative), value.isNegative, v, b,
                        PackNormalised(value, isSticky, f, rounding))
  {
    hide Mag, Pow2, Scale, Pow2R, MinNormal, FlagsFor, RoundsMagnitude, Located, PackNormalised, PackedPattern,
         ShouldRoundUp, FpFormat.Infinity, FpFormat.ExponentBias, FpFormat.MantissaBits, FpFormat.Encode;
    var rule := RuleFor(rounding, value.isNegative);
    var n, e := value.significand, value.exponent;
    EighthOfScale(f);
    NormalPacked(value, isSticky, f, rounding);
    GuardBitsDecide(v, n, isSticky, e - SignificandScale(f), rounding, value.isNegative);
    assert e - SignificandScale(f) + 3 == e - f.MantissaBits();
    var lo := NormalNeighbours(f, v, e, n / 8);
    FlagsFromNeighbours(f, rule, v, lo);
    NormalisedRange(f, v, value, isSticky);
    InfinityValue(f);
    Pow2RMonotone(MinimumExponent(f), e);
    b := Selected(f, rule, v, lo);
    NormalPatternIsKept(f, v, b);
    UpMeansAway(n % 8, isSticky, n, rounding, value.isNegative);
  }

  lemma NormalPatternIsKept(f: FpFormat, v: real, b: nat)
    requires v >= MinNormal(f)
    ensures PackedPattern(f, v, b) == b
  {
  }

  lemma EighthOfScale(f: FpFormat)
    ensures Pow2(SignificandScale(f)) == 8 * Pow2(f.MantissaBits())
  {
    Pow2Small();
    hide Pow2;
    Pow2Add(f.MantissaBits(), 3);
  }

  /** The three patterns the packer can assemble from a significand in [p, 2p). */
  lemma NormalPattern(p: nat, biased: nat, t: nat)
    requires 0 < p <= t < 2 * p
    ensures biased * p + t % p == biased * p + (t - p)
    ensures t + 1 == 2 * p ==> (biased + 1) * p + p % p == biased * p + (t - p) + 1
    ensures t + 1 < 2 * p ==> biased * p + (t + 1) % p == biased * p + (t - p) + 1
  {
    DivModUnique(t, p, 1, t - p);
    DivModUnique(p, p, 1, 0);
    Distribute(biased, p);
    if t + 1 < 2 * p {
      DivModUnique(t + 1, p, 1, t + 1 - p);
    }
  }

  lemma UpMeansAway(discarded: nat, isSticky: bool, n: nat, rounding: FpRounding, isNegative: bool)
    ensures ShouldRoundUp(discarded, isSticky, n, rounding, isNegative) ==> RuleFor(rounding, isNegative) != TowardZero
  {
  }

  /**
   The packing theorem.  For every exact magnitude v that the significand and the sticky bit
   bracket, where a sticky significand is at most two places short of the implicit bit, the
   packer yields the correct rounding of v with the flags section 7 asks for, or half of it
   where the carry is lost.
   */
  lemma PackingRoundsCorrectly(v: real, value: Unpacked, f: FpFormat, context: RoundingContext) returns (b: nat)
    requires value.significand > 0
    requires Brackets(v, value.significand, context.isSticky, value.exponent - SignificandScale(f))
    requires context.isSticky ==> 4 * value.significand >= Pow2(SignificandScale(f))
    ensures IsPackingOf(f, RuleFor(context.rounding, value.isNegative), value.isNegative, v, b,
                        PackUnflushed(value, f, context))
  {
    hide Mag, Pow2, Scale, Pow2R, FlagsFor, RoundsMagnitude, RoundSignificand, Located, Brackets, IsPackingOf,
         Normalised, PackSubnormal, FpFormat.Infinity, FpFormat.ExponentBias, FpFormat.MantissaBits, OverflowResult;
    NormalisedMeaning(v, value, context.isSticky, f);
    var (n, s) := Normalised(value, context.isSticky, f);
    if n.exponent < MinimumExponent(f) {
      b := PackSubnormalMeaning(v, n, s, f, context.rounding);
    } else if n.exponent <= f.ExponentBias() {
      b := PackNormalMeaning(v, n, s, f, context.rounding);
    } else {
      NormalisedRange(f, v, n, s);
      InfinityValue(f);
      Pow2RMonotone(f.ExponentBias() + 1, n.exponent);
      OverflowMeaning(f, v, context.rounding, n.isNegative);
      b := if RuleFor(context.rounding, n.isNegative) == TowardZero then f.Infinity() - 1 else f.Infinity();
    }
  }

  // ----- consequences for signed exact values -----

  /** Whether the packer loses the carry of the exact value `x`: a property of `x` alone. */
  ghost predicate CarryLost(f: FpFormat, mode: FpRounding, x: real) {
    exists b: nat :: RoundsMagnitude(f, RuleFor(mode, x < 0.0), Abs(x), b) && LosesCarry(f, Abs(x), b)
  }

  lemma CarryLostAt(f: FpFormat, mode: FpRounding, y: real, b: nat)
    requires RoundsMagnitude(f, RuleFor(mode, y < 0.0), Abs(y), b)
    ensures CarryLost(f, mode, y) <==> LosesCarry(f, Abs(y), b)
  {
    hide RoundsMagnitude, LosesCarry;
    if CarryLost(f, mode, y) {
      var c: nat :| RoundsMagnitude(f, RuleFor(mode, y < 0.0), Abs(y), c) && LosesCarry(f, Abs(y), c);
      RoundingUnique(f, RuleFor(mode, y < 0.0), Abs(y), b, c);
    }
  }

  /**
   The magnitudes whose carry into 2^j quanta is lost: the part of the last quantum below it that
   the rule rounds up, as far down as the shortcut leaves it to the packer.
   */
  ghost predicate IsLostBelow(f: FpFormat, rule: Rule, v: real, j: nat) {
    var q, n := QuantumExponent(f), Pow2(j);
    && Scale(1, q - 3) <= v < Scale(n, q)
    && match rule
       case TowardZero => false
       case AwayFromZero => v > Scale(n - 1, q)
       case TiesToAway => 2.0 * v >= Scale(2 * n - 1, q)
       case TiesToEven => 2.0 * v > Scale(2 * n - 1, q) || (2.0 * v == Scale(2 * n - 1, q) && j > 0)
  }

  ghost predicate IsLostSomewhere(f: FpFormat, rule: Rule, v: real) {
    exists j: nat :: j <= f.MantissaBits() && IsLostBelow(f, rule, v, j)
  }

  /** Where carries are lost, without rounding anything: in one interval below each subnormal power of two. */
  lemma CarryLostIntervals(f: FpFormat, mode: FpRounding, x: real)
    requires x != 0.0
    ensures CarryLost(f, mode, x) <==> IsLostSomewhere(f, RuleFor(mode, x < 0.0), Abs(x))
  {
    hide Mag, Pow2, Scale, RoundsMagnitude, LosesCarry, IsLostBelow, IsPowerOfTwo, FpFormat.MantissaBits;
    var rule, v := RuleFor(mode, x < 0.0), Abs(x);
    if CarryLost(f, mode, x) {
      var b: nat :| RoundsMagnitude(f, rule, v, b) && LosesCarry(f, v, b);
      var j := LostCarryInInterval(f, rule, v, b);
    }
    if IsLostSomewhere(f, rule, v) {
      var j: nat :| j <= f.MantissaBits() && IsLostBelow(f, rule, v, j);
      IntervalLosesCarry(f, rule, v, j);
    }
  }

  lemma LostCarryInInterval(f: FpFormat, rule: Rule, v: real, b: nat) returns (j: nat)
    requires v > 0.0 && RoundsMagnitude(f, rule, v, b) && LosesCarry(f, v, b)
    ensures j <= f.MantissaBits() && IsLostBelow(f, rule, v, j)
  {
    hide Mag, Pow2, Scale, FpFormat.Infinity, FpFormat.MantissaBits;
    var q, p := QuantumExponent(f), Pow2(f.MantissaBits());
    InfinityIsLarge(f);
    MagOrder(f, p, f.Infinity());
    var lo: nat :| IsLowerNeighbour(f, v, lo) && b == Selected(f, rule, v, lo);
    MagOrder(f, lo, p);
    MagOfSubnormal(f, lo);
    MagOfSubnormal(f, lo + 1);
    ScaleAdd(lo, lo + 1, q);
    j :| b == Pow2(j);
    if j > f.MantissaBits() {
      Pow2Monotone(f.MantissaBits() + 1, j);
      Pow2Double(f.MantissaBits());
    }
    if j > 0 {
      Pow2Double(j - 1);
    } else {
      Pow2Small();
    }
  }

  lemma IntervalLosesCarry(f: FpFormat, rule: Rule, v: real, j: nat)
    requires j <= f.MantissaBits() && IsLostBelow(f, rule, v, j)
    ensures RoundsMagnitude(f, rule, v, Pow2(j)) && LosesCarry(f, v, Pow2(j))
  {
    hide Mag, Pow2, Scale, FpFormat.Infinity, FpFormat.MantissaBits;
    var q, n, p := QuantumExponent(f), Pow2(j), Pow2(f.MantissaBits());
    Pow2Monotone(j, f.MantissaBits());
    InfinityIsLarge(f);
    MagOfSubnormal(f, n - 1);
    MagOfSubnormal(f, n);
    MagOfSubnormal(f, p);
    ScaleOrder(n, p, q);
    ScaleAdd(n - 1, n, q);
    ScaleAdd(n - 1, n - 1, q);
    ScaleOrder(2 * n - 2, 2 * n - 1, q);
    MagOrder(f, n, f.Infinity());
    if j > 0 {
      Pow2Double(j - 1);
    } else {
      Pow2Small();
    }
    assert IsLowerNeighbour(f, v, n - 1);
    NeighbourInRange(f, v, n - 1);
    assert Selected(f, rule, v, n - 1) == n;
  }

  /** The flags a correctly rounded `x` raises. */
  ghost function FlagsOf(f: FpFormat, mode: FpRounding, x: real): FpExceptions {
    FlagsFor(f, RuleFor(mode, x < 0.0), Abs(x))
  }

  lemma PackingOfSigned(f: FpFormat, mode: FpRounding, x: real, b: nat, r: FpResult)
    requires x != 0.0
    requires IsPackingOf(f, RuleFor(mode, x < 0.0), x < 0.0, Abs(x), b, r)
    ensures RoundsTo(f, mode, x, r.bits) <==> !CarryLost(f, mode, x)
    ensures r.raised == FlagsOf(f, mode, x)
    ensures f.Fits(r.bits) && f.Magnitude(r.bits) <= f.Infinity() && f.IsNegative(r.bits) == (x < 0.0)
  {
    hide Mag, Pow2, FlagsFor, RoundsMagnitude, FpFormat.Infinity, LosesCarry;
    var rule, v := RuleFor(mode, x < 0.0), Abs(x);
    var packed := PackedPattern(f, v, b);
    RoundingInRange(f, rule, v, b);
    SignAndMagnitude(f, x < 0.0, packed);
    LostCarryIsPositive(f, v, b);
    if CarryLost(f, mode, x) {
      var c: nat :| RoundsMagnitude(f, rule, v, c) && LosesCarry(f, v, c);
      RoundingUnique(f, rule, v, b, c);
      if RoundsTo(f, mode, x, r.bits) {
        RoundingUnique(f, rule, v, b, packed);
      }
    }
  }

  lemma LostCarryIsPositive(f: FpFormat, v: real, b: nat)
    ensures LosesCarry(f, v, b) ==> b > 0
  {
  }

  // ----- unpacking is exact -----

  /** An unpacked pattern keeps the exact magnitude, in normalised form with clear guard bits. */
  ghost predicate IsUnpackingOf(f: FpFormat, bits: nat, u: Unpacked) {
    && u.isNegative == f.IsNegative(bits)
    && KeepsMagnitude(f, f.Magnitude(bits), u)
  }

  lemma UnpackExact(f: FpFormat, bits: nat)
    requires IsFinite(f, bits) && f.Magnitude(bits) != 0
    ensures IsUnpackingOf(f, bits, Unpack(bits, f))
  {
    hide Mag, Pow2, Scale, FpFormat.Infinity, FpFormat.MantissaBits, FpFormat.ExponentBias, FpFormat.Fits, UnpackSubnormal, UnpackNormal,
         FpFormat.IsNegative, FpFormat.Magnitude, FpFormat.ExponentField, FpFormat.MantissaField, FpFormat.MaxExponent;
    FiniteFields(f, bits);
    FieldsOfMagnitude(f, bits);
    var e, t := f.ExponentField(bits), f.MantissaField(bits);
    if e == 0 {
      SubnormalMagnitude(f, bits);
      SubnormalUnpacked(f, f.IsNegative(bits), t);
    } else {
      NormalUnpacked(f, f.IsNegative(bits), e, t);
    }
  }

  lemma SubnormalMagnitude(f: FpFormat, bits: nat)
    requires f.ExponentField(bits) == 0
    ensures f.Magnitude(bits) == f.MantissaField(bits) < Pow2(f.MantissaBits())
  {
    hide Pow2;
    FieldsOfMagnitude(f, bits);
  }

  /** `u` keeps the magnitude of the pattern `b`, normalised and with clear guard bits. */
  ghost predicate KeepsMagnitude(f: FpFormat, b: nat, u: Unpacked) {
    && Mag(f, b) == Scale(u.significand, u.exponent - SignificandScale(f))
    && Pow2(SignificandScale(f)) <= u.significand < 2 * Pow2(SignificandScale(f))
    && u.significand % 8 == 0
    && QuantumExponent(f) <= u.exponent <= f.ExponentBias()
  }

  lemma NormalUnpacked(f: FpFormat, isNegative: bool, e: nat, t: nat)
    requires 0 < e < f.MaxExponent() && t < Pow2(f.MantissaBits())
    ensures KeepsMagnitude(f, e * Pow2(f.MantissaBits()) + t, UnpackNormal(isNegative, e, t, f))
    ensures UnpackNormal(isNegative, e, t, f).isNegative == isNegative
  {
    hide Mag, Pow2, Scale, FpFormat.MantissaBits, FpFormat.ExponentBias;
    Geometry(f);
    EighthOfScale(f);
    var p := Pow2(f.MantissaBits());
    MagOfNormal(f, e, p + t);
    ScaleShift(p + t, 3, e - f.ExponentBias() - SignificandScale(f));
    Pow2Small();
  }

  lemma FiniteFields(f: FpFormat, bits: nat)
    requires IsFinite(f, bits)
    ensures f.ExponentField(bits) < f.MaxExponent()
  {
    FieldsOfMagnitude(f, bits);
    hide Pow2;
    TiledOrder(f.ExponentField(bits), f.MantissaField(bits), Pow2(f.MantissaBits()), f.MaxExponent());
  }

  lemma SubnormalUnpacked(f: FpFormat, isNegative: bool, t: nat)
    requires 0 < t < Pow2(f.MantissaBits())
    ensures KeepsMagnitude(f, t, UnpackSubnormal(isNegative, t, f))
    ensures UnpackSubnormal(isNegative, t, f).isNegative == isNegative
  {
    hide Mag, Pow2, Scale, BitLength, FpFormat.MantissaBits, FpFormat.ExponentBias;
    var m := f.MantissaBits();
    LeadingZerosBelow(t, m);
    var k := m + 1 - BitLength(t) + GUARD_BITS;
    TopAligned(t, k, m + 4);
    MagOfSubnormal(f, t);
    ScaleShift(t, k, 1 - f.ExponentBias() - (k - 3) - SignificandScale(f));
    assert 1 - f.ExponentBias() - (k - 3) - SignificandScale(f) + k == QuantumExponent(f);
    Pow2Double(m + 3);
    Geometry(f);
  }

  /** Shifting the leading bit up to position `width - 1` loses nothing and clears the bits below. */
  lemma TopAligned(t: nat, k: nat, width: nat)
    requires t > 0 && BitLength(t) + k == width && k >= 3
    ensures t * Pow2(k) % Pow2(width) == t * Pow2(k)
    ensures Pow2(width - 1) <= t * Pow2(k) < Pow2(width)
    ensures t * Pow2(k) % 8 == 0
  {
    hide Pow2, BitLength;
    var l := BitLength(t);
    BitLengthBounds(t);
    Pow2Add(l, k);
    Pow2Add(l - 1, k);
    MulMonotone(Pow2(l - 1), t, Pow2(k));
    ProductBelow(t, Pow2(l), Pow2(k));
    DivModUnique(t * Pow2(k), Pow2(width), 0, t * Pow2(k));
    ProductOfEights(t, k);
  }

  lemma ProductBelow(a: nat, b: nat, c: nat)
    requires a < b && c > 0
    ensures a * c < b * c
  {
  }

  lemma ProductOfEights(t: nat, k: nat)
    requires k >= 3
    ensures t * Pow2(k) % 8 == 0
  {
    hide Pow2;
    Pow2Small();
    Pow2Add(k - 3, 3);
    MulAssoc(t, Pow2(k - 3), 8);
    DivModUnique(t * Pow2(k), 8, t * Pow2(k - 3), 0);
  }

  /** Packing an unpacked finite value, in any mode, gives the value back. */
  lemma UnpackPackRoundTrip(f: FpFormat, bits: nat, rounding: FpRounding, control: FpControl)
    requires IsFinite(f, bits) && !IsFlushing(f, control)
    ensures RoundAndPack(Unpack(bits, f), f, RoundingContext(rounding, false, control)) == Exactly(bits)
  {
    hide Mag, Pow2, Scale, FpFormat.Infinity, RoundsMagnitude, Normalised, PackNormalised, LosesCarry;
    var context := RoundingContext(rounding, false, control);
    DecodeEncode(f, bits);
    var v, rule := Mag(f, f.Magnitude(bits)), RuleFor(rounding, f.IsNegative(bits));
    if f.Magnitude(bits) == 0 {
      ZeroFields(f, bits);
    } else {
      UnpackExact(f, bits);
      var b := PackingRoundsCorrectly(v, Unpack(bits, f), f, context);
      RepresentableIsFixed(f, rule, f.Magnitude(bits));
      RoundingUnique(f, rule, v, b, f.Magnitude(bits));
      ExactNeverLosesCarry(f, v, b);
    }
  }

  lemma ExactNeverLosesCarry(f: FpFormat, v: real, b: nat)
    requires v == Mag(f, b)
    ensures !LosesCarry(f, v, b)
  {
  }

  lemma ZeroFields(f: FpFormat, bits: nat)
    requires f.Magnitude(bits) == 0
    ensures Unpack(bits, f) == ZeroUnpacked(f.IsNegative(bits))
  {
    hide Pow2;
    FieldsOfMagnitude(f, bits);
    TiledOrder(f.ExponentField(bits), f.MantissaField(bits), Pow2(f.MantissaBits()), f.MaxExponent());
  }

  /** `r` is what packing makes of the non-zero exact value `x`, before any flush to zero. */
  ghost predicate Packs(f: FpFormat, mode: FpRounding, x: real, r: FpResult) {
    PacksMagnitude(f, RuleFor(mode, x < 0.0), x < 0.0, Abs(x), r)
  }

  ghost predicate PacksMagnitude(f: FpFormat, rule: Rule, isNegative: bool, v: real, r: FpResult) {
    exists b: nat :: IsPackingOf(f, rule, isNegative, v, b, r)
  }

  /** Packing is correct rounding exactly when no carry is lost, and its flags are always right. */
  lemma PacksMeaning(f: FpFormat, mode: FpRounding, x: real, r: FpResult)
    requires x != 0.0 && Packs(f, mode, x, r)
    ensures RoundsTo(f, mode, x, r.bits) <==> !CarryLost(f, mode, x)
    ensures r.raised == FlagsOf(f, mode, x)
    ensures f.Fits(r.bits) && f.Magnitude(r.bits) <= f.Infinity() && f.IsNegative(r.bits) == (x < 0.0)
  {
    hide IsPackingOf, RoundsTo, CarryLost, FlagsOf;
    var b: nat :| IsPackingOf(f, RuleFor(mode, x < 0.0), x < 0.0, Abs(x), b, r);
    PackingOfSigned(f, mode, x, b, r);
  }

  lemma PackingOfBracketed(x: real, value: Unpacked, f: FpFormat, context: RoundingContext)
    requires x != 0.0 && value.isNegative == (x < 0.0) && value.significand > 0
    requires Brackets(Abs(x), value.significand, context.isSticky, value.exponent - SignificandScale(f))
    requires context.isSticky ==> 4 * value.significand >= Pow2(SignificandScale(f))
    ensures Packs(f, context.rounding, x, PackUnflushed(value, f, context))
  {
    hide IsPackingOf, Brackets, Pow2;
    var b := PackingRoundsCorrectly(Abs(x), value, f, context);
  }

  /** A whole number of quanta is exact in the subnormal range, so no carry is lost. */
  lemma WholeQuantaKeepCarry(f: FpFormat, mode: FpRounding, x: real, k: nat)
    requires Abs(x) == Scale(k, QuantumExponent(f))
    ensures !CarryLost(f, mode, x)
  {
    hide Mag, Scale, Pow2, RoundsMagnitude, FpFormat.Infinity, IsPowerOfTwo;
    var v, rule, p := Abs(x), RuleFor(mode, x < 0.0), Pow2(f.MantissaBits());
    if CarryLost(f, mode, x) {
      var b: nat :| RoundsMagnitude(f, rule, v, b) && LosesCarry(f, v, b);
      MagOfSubnormal(f, p);
      ScaleOrder(k, p, QuantumExponent(f));
      MagOfSubnormal(f, k);
      InfinityIsLarge(f);
      RepresentableIsFixed(f, rule, k);
      RoundingUnique(f, rule, v, b, k);
    }
  }

  /** In the normal range no carry is lost. */
  lemma NormalsKeepCarry(f: FpFormat, mode: FpRounding, x: real)
    requires Abs(x) >= MinNormal(f)
    ensures !CarryLost(f, mode, x)
  {
  }
}
