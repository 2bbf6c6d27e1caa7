/**
 Addition, subtraction, multiplication, division and square root over unpacked significands
 (crates/core/src/fp/softfloat/arithmetic.rs).
 */
module Arithmetic {
  import opened Options
  import opened Powers
  import opened Formats
  import opened Rounding
  import opened Decompose
  import Nan

  datatype Context = Context(format: FpFormat, rounding: FpRounding, control: FpControl)

  function Pack(value: Unpacked, isSticky: bool, context: Context): FpResult {
    RoundAndPack(value, context.format, RoundingContext(context.rounding, isSticky, context.control))
  }

  /** A subnormal input becomes a zero of its sign when FPCR.FZ asks for it. */
  function FlushInput(bits: nat, context: Context): (nat, FpExceptions) {
    if !IsFlushing(context.format, context.control) || !context.format.IsSubnormal(bits) then (bits, {})
    else (context.format.ZeroBits(context.format.IsNegative(bits)), {InputDenormal})
  }

  function FlushPair(lhs: nat, rhs: nat, context: Context): (nat, nat, FpExceptions) {
    var (l, fromLhs) := FlushInput(lhs, context);
    var (r, fromRhs) := FlushInput(rhs, context);
    (l, r, fromLhs + fromRhs)
  }

  function WithFlags(result: FpResult, raised: FpExceptions): FpResult {
    FpResult(result.bits, result.raised + raised)
  }

  // ----- addition -----

  /** The sum of two patterns, or their difference when `isSubtracting`. */
  function Add(lhs: nat, rhs: nat, isSubtracting: bool, context: Context): FpResult
    requires context.format.Fits(lhs) && context.format.Fits(rhs)
  {
    var f := context.format;
    var (l, r0, denormal) := FlushPair(lhs, rhs, context);
    FlushPairFits(lhs, rhs, context);
    var r := if isSubtracting then f.FlipSign(r0) else r0;
    FlipSignMeaning(f, r0);
    match Nan.Propagate([l, r], f, context.control)
    case Some(result) => WithFlags(result, denormal)
    case None =>
      match AddInfinities(l, r, context)
      case Some(result) => WithFlags(result, denormal)
      case None =>
        NoNanNoInfinity(f, l, r, context.control);
        var (value, isSticky) := AddFinite(Unpack(l, f), Unpack(r, f), context);
        WithFlags(Pack(value, isSticky, context), denormal)
  }

  function AddInfinities(lhs: nat, rhs: nat, context: Context): (r: Option<FpResult>)
    ensures r.None? <==> !context.format.IsInfinite(lhs) && !context.format.IsInfinite(rhs)
  {
    var f := context.format;
    if !f.IsInfinite(lhs) && !f.IsInfinite(rhs) then None
    else if f.IsInfinite(lhs) && f.IsInfinite(rhs) then
      if f.IsNegative(lhs) != f.IsNegative(rhs) then Some(Nan.InvalidOperation(f)) else Some(Exactly(lhs))
    else Some(Exactly(if f.IsInfinite(lhs) then lhs else rhs))
  }

  /** What `Unpack` establishes of a finite operand. */
  predicate IsNormalised(u: Unpacked, f: FpFormat) {
    u.significand == 0 || Pow2(SignificandScale(f)) <= u.significand < 2 * Pow2(SignificandScale(f))
  }

  function AddFinite(lhs: Unpacked, rhs: Unpacked, context: Context): (Unpacked, bool)
    requires IsNormalised(lhs, context.format) && IsNormalised(rhs, context.format)
  {
    if lhs.significand == 0 && rhs.significand == 0 then
      (ZeroUnpacked(if lhs.isNegative == rhs.isNegative then lhs.isNegative else context.rounding == Minus), false)
    else if lhs.significand == 0 then (rhs, false)
    else if rhs.significand == 0 then (lhs, false)
    else
      var (larger, smaller) := if IsLarger(lhs, rhs) then (lhs, rhs) else (rhs, lhs);
      var (aligned, isSticky) := Align(smaller.significand, larger.exponent - smaller.exponent);
      if larger.isNegative == smaller.isNegative then
        (larger.(significand := larger.significand + aligned), isSticky)
      else
        AlignedFits(larger, smaller, context.format);
        SubtractAligned(larger, aligned, isSticky, context)
  }

  function SubtractAligned(larger: Unpacked, aligned: nat, isSticky: bool, context: Context): (Unpacked, bool)
    requires aligned + (if isSticky then 1 else 0) <= larger.significand
  {
    var significand := if isSticky then larger.significand - aligned - 1 else larger.significand - aligned;
    if significand == 0 && !isSticky then (ZeroUnpacked(context.rounding == Minus), false)
    else (larger.(significand := significand), isSticky)
  }

  predicate IsLarger(lhs: Unpacked, rhs: Unpacked) {
    lhs.exponent > rhs.exponent || (lhs.exponent == rhs.exponent && lhs.significand >= rhs.significand)
  }

  /** A 64-bit right shift with what it drops summarised in a sticky flag. */
  function Align(significand: nat, shift: nat): (nat, bool) {
    if shift >= 64 then (0, significand != 0)
    else (ShiftRight(significand, shift), LowBits(significand, shift) != 0)
  }

  // ----- supporting lemmas for well-formedness -----

  lemma FlushInputFits(bits: nat, context: Context)
    requires context.format.Fits(bits)
    ensures var b := FlushInput(bits, context).0;
            && context.format.Fits(b)
            && context.format.IsNegative(b) == context.format.IsNegative(bits)
            && (context.format.Magnitude(b) == context.format.Magnitude(bits) || context.format.Magnitude(b) == 0)
  {
    hide Pow2;
    SignAndMagnitude(context.format, context.format.IsNegative(bits), 0);
  }

  lemma FlushPairFits(lhs: nat, rhs: nat, context: Context)
    requires context.format.Fits(lhs) && context.format.Fits(rhs)
    ensures var (l, r, _) := FlushPair(lhs, rhs, context); context.format.Fits(l) && context.format.Fits(r)
  {
    hide Pow2;
    FlushInputFits(lhs, context);
    FlushInputFits(rhs, context);
  }

  lemma NotSpecialIsFinite(f: FpFormat, bits: nat)
    requires f.Fits(bits)
    ensures IsFinite(f, bits) <==> !f.IsNan(bits) && !f.IsInfinite(bits)
  {
    hide Pow2;
    Classification(f, bits);
  }

  lemma UnpackNormalised(f: FpFormat, bits: nat)
    requires IsFinite(f, bits)
    ensures IsNormalised(Unpack(bits, f), f)
    ensures Unpack(bits, f).significand == 0 <==> f.Magnitude(bits) == 0
    ensures Unpack(bits, f).isNegative == f.IsNegative(bits)
  {
    hide Pow2, Unpack, Mag;
    if f.Magnitude(bits) == 0 {
      ZeroFields(f, bits);
    } else {
      UnpackExact(f, bits);
    }
  }

  lemma NoNanNoInfinity(f: FpFormat, l: nat, r: nat, control: FpControl)
    requires f.Fits(l) && f.Fits(r)
    requires Nan.Propagate([l, r], f, control).None? && !f.IsInfinite(l) && !f.IsInfinite(r)
    ensures IsFinite(f, l) && IsFinite(f, r)
    ensures IsNormalised(Unpack(l, f), f) && IsNormalised(Unpack(r, f), f)
  {
    hide Pow2, Unpack, FpFormat.IsNan, FpFormat.IsInfinite, FpFormat.Magnitude, Nan.Propagate;
    assert l in [l, r] && r in [l, r];
    NotSpecialIsFinite(f, l);
    NotSpecialIsFinite(f, r);
    UnpackNormalised(f, l);
    UnpackNormalised(f, r);
  }

  /** The branch for oversized shifts agrees with shifting. */
  lemma AlignIsShift(significand: nat, shift: nat)
    requires significand < Pow2(64)
    ensures Align(significand, shift) == (ShiftRight(significand, shift), LowBits(significand, shift) != 0)
  {
    hide Pow2;
    if shift >= 64 {
      Pow2Monotone(64, shift);
      DivModUnique(significand, Pow2(shift), 0, significand);
    }
  }

  lemma SignificandFitsWord(u: Unpacked, f: FpFormat)
    requires IsNormalised(u, f)
    ensures u.significand < Pow2(57)
  {
    hide Pow2;
    Pow2Quarter(SignificandScale(f));
    Pow2Monotone(SignificandScale(f) + 1, 56);
    Pow2Monotone(56, 57);
    Pow2Monotone(0, 57);
    Pow2Small();
  }

  /** Every significand addition and subtraction produce fits a 64-bit word. */
  lemma SumFitsWord(lhs: Unpacked, rhs: Unpacked, context: Context)
    requires IsNormalised(lhs, context.format) && IsNormalised(rhs, context.format)
    ensures AddFinite(lhs, rhs, context).0.significand < Pow2(64)
  {
    hide Pow2, ShiftRight, LowBits, Align;
    SignificandFitsWord(lhs, context.format);
    SignificandFitsWord(rhs, context.format);
    Pow2Double(57);
    Pow2Monotone(58, 64);
    if lhs.significand > 0 && rhs.significand > 0 {
      var (larger, smaller) := if IsLarger(lhs, rhs) then (lhs, rhs) else (rhs, lhs);
      AlignedFits(larger, smaller, context.format);
      var (aligned, isSticky) := Align(smaller.significand, larger.exponent - smaller.exponent);
      assert aligned <= larger.significand;
      SubtractedBelow(larger, aligned, isSticky, context);
    }
  }

  lemma SubtractedBelow(larger: Unpacked, aligned: nat, isSticky: bool, context: Context)
    requires aligned + (if isSticky then 1 else 0) <= larger.significand
    ensures SubtractAligned(larger, aligned, isSticky, context).0.significand <= larger.significand
  {
  }

  lemma AlignedFits(larger: Unpacked, smaller: Unpacked, f: FpFormat)
    requires IsNormalised(larger, f) && IsNormalised(smaller, f) && larger.significand > 0 && smaller.significand > 0
    requires IsLarger(larger, smaller)
    ensures var (aligned, isSticky) := Align(smaller.significand, larger.exponent - smaller.exponent);
            aligned + (if isSticky then 1 else 0) <= larger.significand
  {
    hide Pow2, ShiftRight, LowBits, Align;
    var shift := larger.exponent - smaller.exponent;
    SignificandFitsWord(smaller, f);
    Pow2Monotone(57, 64);
    AlignIsShift(smaller.significand, shift);
    if shift == 0 {
      ShiftByZero(smaller.significand);
    } else {
      ShiftHalves(smaller.significand, shift);
    }
  }

  lemma ShiftByZero(n: nat)
    ensures ShiftRight(n, 0) == n && LowBits(n, 0) == 0
  {
    Pow2Small();
  }

  lemma ShiftHalves(n: nat, shift: nat)
    requires shift > 0
    ensures 2 * ShiftRight(n, shift) <= n
  {
    hide Pow2, ShiftRight, LowBits;
    ShiftSplit(n, shift);
    Pow2Small();
    Pow2Monotone(1, shift);
    MulMonotone(2, Pow2(shift), ShiftRight(n, shift));
  }

  // ----- addition is correctly rounded -----

  /** The real number an unpacked operand denotes. */
  ghost function Signed(u: Unpacked, f: FpFormat): real {
    var v := Scale(u.significand, u.exponent - SignificandScale(f));
    if u.isNegative then -v else v
  }

  /** Adding and subtracting a bracketed magnitude from an exact one. */
  lemma SumBracket(n: nat, w: real, a: nat, isSticky: bool, g: int)
    requires Brackets(w, a, isSticky, g)
    ensures Brackets(Scale(n, g) + w, n + a, isSticky, g)
    ensures a + (if isSticky then 1 else 0) <= n ==>
              Brackets(Scale(n, g) - w, n - a - (if isSticky then 1 else 0), isSticky, g)
  {
    hide Scale;
    ScaleAdd(n, a, g);
    ScaleAdd(n, a + 1, g);
  }

  /** The smaller operand, brought to the larger one's scale. */
  lemma AlignedBracket(larger: Unpacked, smaller: Unpacked, f: FpFormat)
    requires IsNormalised(smaller, f) && larger.exponent >= smaller.exponent
    ensures var (aligned, isSticky) := Align(smaller.significand, larger.exponent - smaller.exponent);
            Brackets(Scale(smaller.significand, smaller.exponent - SignificandScale(f)), aligned, isSticky,
                     larger.exponent - SignificandScale(f))
  {
    hide Scale, Pow2, Align, ShiftRight, LowBits;
    var shift := larger.exponent - smaller.exponent;
    SignificandFitsWord(smaller, f);
    Pow2Monotone(57, 64);
    AlignIsShift(smaller.significand, shift);
    var g := smaller.exponent - SignificandScale(f);
    BracketShift(Scale(smaller.significand, g), smaller.significand, false, g, shift);
    assert g + shift == larger.exponent - SignificandScale(f);
  }

  /** When alignment discards a set bit, cancellation costs at most one place. */
  lemma CancellationIsShallow(larger: Unpacked, smaller: Unpacked, f: FpFormat)
    requires IsNormalised(larger, f) && IsNormalised(smaller, f)
    requires larger.significand > 0 && smaller.significand > 0 && smaller.significand % 8 == 0
    requires larger.exponent >= smaller.exponent
    ensures var (aligned, isSticky) := Align(smaller.significand, larger.exponent - smaller.exponent);
            isSticky ==> 2 * (larger.significand - aligned - 1) >= Pow2(SignificandScale(f))
  {
    hide Pow2, Align, ShiftRight, LowBits;
    var shift, n := larger.exponent - smaller.exponent, smaller.significand;
    SignificandFitsWord(smaller, f);
    Pow2Monotone(57, 64);
    AlignIsShift(n, shift);
    if LowBits(n, shift) != 0 {
      LowBitsOfOctet(n, shift);
      SixteenthAtMost(n, shift);
      Pow2Sixteen();
      Pow2Monotone(4, SignificandScale(f));
    }
  }

  lemma Pow2Sixteen()
    ensures Pow2(4) == 16
  {
    Pow2Small();
    Pow2Add(1, 3);
  }

  lemma SixteenthAtMost(n: nat, shift: nat)
    requires shift >= 4
    ensures 16 * ShiftRight(n, shift) <= n
  {
    Pow2Sixteen();
    hide Pow2, ShiftRight, LowBits;
    ShiftSplit(n, shift);
    Pow2Monotone(4, shift);
    MulMonotone(16, Pow2(shift), ShiftRight(n, shift));
  }

  lemma LowBitsOfOctet(n: nat, k: nat)
    requires n % 8 == 0 && LowBits(n, k) != 0
    ensures k >= 4
  {
    Pow2Small();
    assert k == 0 || k == 1 || k == 2 || k == 3 || k >= 4;
  }

  /** The exact sum, as `AddFinite` hands it to the packer. */
  lemma AddFiniteMeaning(l: Unpacked, r: Unpacked, context: Context)
    requires IsNormalised(l, context.format) && IsNormalised(r, context.format)
    requires l.significand > 0 && r.significand > 0 && l.significand % 8 == 0 && r.significand % 8 == 0
    ensures var (value, isSticky) := AddFinite(l, r, context);
            var f := context.format;
            var x := Signed(l, f) + Signed(r, f);
            && (x == 0.0 ==> value == ZeroUnpacked(context.rounding == Minus) && !isSticky)
            && (x != 0.0 ==>
                  && value.isNegative == (x < 0.0) && value.significand > 0
                  && Brackets(Abs(x), value.significand, isSticky, value.exponent - SignificandScale(f))
                  && (isSticky ==> 4 * value.significand >= Pow2(SignificandScale(f))))
  {
    var f := context.format;
    var (larger, smaller) := if IsLarger(l, r) then (l, r) else (r, l);
    LargerFirst(larger, smaller, context);
    assert AddFinite(l, r, context) == AddFinite(larger, smaller, context) by {
      hide Align, Pow2, SubtractAligned;
    }
  }

  lemma LargerFirst(larger: Unpacked, smaller: Unpacked, context: Context)
    requires IsNormalised(larger, context.format) && IsNormalised(smaller, context.format)
    requires larger.significand > 0 && smaller.significand > 0 && larger.significand % 8 == 0 && smaller.significand % 8 == 0
    requires IsLarger(larger, smaller)
    ensures var (value, isSticky) := AddFinite(larger, smaller, context);
            var f := context.format;
            var x := Signed(larger, f) + Signed(smaller, f);
            && (x == 0.0 ==> value == ZeroUnpacked(context.rounding == Minus) && !isSticky)
            && (x != 0.0 ==>
                  && value.isNegative == (x < 0.0) && value.significand > 0
                  && Brackets(Abs(x), value.significand, isSticky, value.exponent - SignificandScale(f))
                  && (isSticky ==> 4 * value.significand >= Pow2(SignificandScale(f))))
  {
    hide Scale, Pow2, Align;
    var f := context.format;
    var g := larger.exponent - SignificandScale(f);
    var (aligned, isSticky) := Align(smaller.significand, larger.exponent - smaller.exponent);
    var w := Scale(smaller.significand, smaller.exponent - SignificandScale(f));
    AlignedBracket(larger, smaller, f);
    AlignedFits(larger, smaller, f);
    CancellationIsShallow(larger, smaller, f);
    SumBracket(larger.significand, w, aligned, isSticky, g);
    ScaleZero(g);
    ScaleOrder(0, larger.significand, g);
    ScaleZero(smaller.exponent - SignificandScale(f));
    ScaleOrder(0, smaller.significand, smaller.exponent - SignificandScale(f));
    if larger.isNegative != smaller.isNegative {
      var n := larger.significand - aligned - (if isSticky then 1 else 0);
      ScaleOrder(0, n, g);
    }
  }

  lemma UnpackedValue(f: FpFormat, bits: nat)
    requires IsFinite(f, bits)
    ensures Value(f, bits) == Signed(Unpack(bits, f), f)
    ensures IsNormalised(Unpack(bits, f), f)
    ensures Unpack(bits, f).isNegative == f.IsNegative(bits)
    ensures Unpack(bits, f).significand % 8 == 0
    ensures Unpack(bits, f).significand == 0 <==> f.Magnitude(bits) == 0
    ensures Unpack(bits, f).significand == 0 <==> Value(f, bits) == 0.0
  {
    hide Mag, Scale, Pow2, Unpack, FpFormat.Magnitude, FpFormat.IsNegative, FpFormat.Infinity;
    MagNonNegative(f, f.Magnitude(bits));
    if f.Magnitude(bits) == 0 {
      ZeroFields(f, bits);
      ScaleZero(0 - SignificandScale(f));
    } else {
      UnpackExact(f, bits);
    }
  }

  /** Sums and differences of finite values are whole numbers of quanta. */
  lemma SumInQuanta(f: FpFormat, l: nat, r: nat, isSubtracting: bool) returns (k: nat)
    ensures var x := if isSubtracting then Value(f, l) - Value(f, r) else Value(f, l) + Value(f, r);
            Abs(x) == Scale(k, QuantumExponent(f))
  {
    hide Scale, Pow2, Units, FpFormat.Magnitude, FpFormat.IsNegative;
    var q, p := QuantumExponent(f), Pow2(f.MantissaBits());
    var a: int, b: int := Units(p, f.Magnitude(l)), Units(p, f.Magnitude(r));
    var sa: int := if f.IsNegative(l) then -a else a;
    var sb: int := if f.IsNegative(r) != isSubtracting then -b else b;
    ScaleZero(q);
    ScaleAdd(0, a, q);
    ScaleAdd(0, b, q);
    ScaleAdd(sa, sb, q);
    ScaleAdd(0, sa + sb, q);
    ScaleOrder(0, sa + sb, q);
    k := if sa + sb < 0 then -(sa + sb) else sa + sb;
  }

  /** The result of an operation from its unflushed packing and the input flags. */
  function Finished(r: FpResult, denormal: FpExceptions, context: Context): FpResult {
    WithFlags(ApplyFlushToZero(r, context.format, context.control), denormal)
  }

  /**
   Addition and subtraction of finite values (section 5.4.1): the correctly rounded sum in every
   format and mode, subnormal results included, or, for a zero sum, the zero section 6.3 asks for.
   Flushing, when enabled, replaces the operands first and the rounded result last.
   */
  lemma AddRoundsCorrectly(lhs: nat, rhs: nat, isSubtracting: bool, context: Context) returns (rounded: FpResult)
    requires IsFinite(context.format, lhs) && IsFinite(context.format, rhs)
    ensures var f := context.format;
            var (l, r, denormal) := FlushPair(lhs, rhs, context);
            var x := if isSubtracting then Value(f, l) - Value(f, r) else Value(f, l) + Value(f, r);
            var isRightNegative := f.IsNegative(r) != isSubtracting;
            && (x != 0.0 ==>
                  && RoundsTo(f, context.rounding, x, rounded.bits)
                  && rounded.raised == FlagsOf(f, context.rounding, x)
                  && Add(lhs, rhs, isSubtracting, context) == Finished(rounded, denormal, context))
            && (x == 0.0 ==>
                  Add(lhs, rhs, isSubtracting, context)
                  == FpResult(f.ZeroBits(if f.IsNegative(l) == isRightNegative then isRightNegative else context.rounding == Minus),
                              denormal))
  {
    hide Pow2, Mag, Value, Unpack, PackUnflushed, Brackets, RoundsTo, FlagsOf, ApplyFlushToZero, FlushInput, FpFormat.Infinity,
         FpFormat.IsNegative, FpFormat.IsNan, FpFormat.IsInfinite, FpFormat.FlipSign, FpFormat.Magnitude, FpFormat.Fits,
         AddFinite, Packs, Nan.Propagate, CarryLost, Signed;
    var f := context.format;
    var (l, r0, denormal) := FlushPair(lhs, rhs, context);
    FlushInputFinite(lhs, context);
    FlushInputFinite(rhs, context);
    var r := if isSubtracting then f.FlipSign(r0) else r0;
    FlippedOperand(f, r0);
    FinitePairHasNoSpecials(f, l, r, context);
    UnpackNormalised(f, l);
    UnpackNormalised(f, r);
    var x := if isSubtracting then Value(f, l) - Value(f, r0) else Value(f, l) + Value(f, r0);
    var (value, isSticky) := AddFinite(Unpack(l, f), Unpack(r, f), context);
    FiniteSum(l, r, context);
    if x != 0.0 {
      var k := SumInQuanta(f, l, r0, isSubtracting);
      WholeQuantaKeepCarry(f, context.rounding, x, k);
      var rc := RoundingContext(context.rounding, isSticky, context.control);
      PackingOfBracketed(x, value, f, rc);
      rounded := PackUnflushed(value, f, rc);
      PacksMeaning(f, context.rounding, x, rounded);
    } else {
      rounded := Exactly(0);
    }
  }

  lemma FlushInputFinite(bits: nat, context: Context)
    requires IsFinite(context.format, bits)
    ensures IsFinite(context.format, FlushInput(bits, context).0)
  {
    hide Pow2;
    FlushInputFits(bits, context);
    Layout(context.format);
  }

  lemma FlippedOperand(f: FpFormat, bits: nat)
    requires IsFinite(f, bits)
    ensures IsFinite(f, f.FlipSign(bits)) && Value(f, f.FlipSign(bits)) == -Value(f, bits)
    ensures f.IsNegative(f.FlipSign(bits)) == !f.IsNegative(bits)
  {
    hide Pow2, Mag;
    FlipSignMeaning(f, bits);
  }

  lemma FinitePairHasNoSpecials(f: FpFormat, l: nat, r: nat, context: Context)
    requires f == context.format && IsFinite(f, l) && IsFinite(f, r)
    ensures Nan.Propagate([l, r], f, context.control).None?
    ensures AddInfinities(l, r, context).None?
  {
    hide Pow2, FpFormat.IsNan, FpFormat.IsInfinite, FpFormat.Magnitude, FpFormat.Fits;
    NotSpecialIsFinite(f, l);
    NotSpecialIsFinite(f, r);
  }

  /** `AddFinite` over two finite patterns, zeroes included. */
  lemma FiniteSum(l: nat, r: nat, context: Context)
    requires IsFinite(context.format, l) && IsFinite(context.format, r)
    requires IsNormalised(Unpack(l, context.format), context.format) && IsNormalised(Unpack(r, context.format), context.format)
    ensures var f := context.format;
            var (value, isSticky) := AddFinite(Unpack(l, f), Unpack(r, f), context);
            var x := Value(f, l) + Value(f, r);
            && (x == 0.0 ==>
                  && !isSticky
                  && value == ZeroUnpacked(if f.IsNegative(l) == f.IsNegative(r) then f.IsNegative(r) else context.rounding == Minus))
            && (x != 0.0 ==>
                  && value.isNegative == (x < 0.0) && value.significand > 0
                  && Brackets(Abs(x), value.significand, isSticky, value.exponent - SignificandScale(f))
                  && (isSticky ==> 4 * value.significand >= Pow2(SignificandScale(f))))
  {
    hide Pow2, Mag, Value, Unpack, Align, Scale, SubtractAligned, FpFormat.Infinity, FpFormat.IsNegative;
    var f := context.format;
    UnpackedValue(f, l);
    UnpackedValue(f, r);
    var a, b := Unpack(l, f), Unpack(r, f);
    if a.significand > 0 {
      ScalePositive(a.significand, a.exponent - SignificandScale(f));
    }
    if b.significand > 0 {
      ScalePositive(b.significand, b.exponent - SignificandScale(f));
    }
    if a.significand > 0 && b.significand > 0 {
      AddFiniteMeaning(a, b, context);
      if a.isNegative == b.isNegative {
        assert Value(f, l) + Value(f, r) != 0.0;
      }
    }
  }
}
