/**
 Which operations yield a NaN, and when invalid is raised: sections 6.1, 6.2 and 7.2 of
 IEEE 754-2019, over all operands.
 */
module Specials {
  import opened Powers
  import opened Formats
  import opened Rounding
  import opened Decompose
  import opened Arithmetic
  import opened ConvertFormat
  import opened Fused
  import opened MultiplyDivide
  import opened SquareRoot
  import Nan

  /** `r` is a number, and not an invalid operation. */
  predicate IsValidNumber(f: FpFormat, r: FpResult) {
    !f.IsNan(r.bits) && Invalid !in r.raised
  }

  predicate IsInvalidNan(f: FpFormat, r: FpResult) {
    f.IsNan(r.bits) && Invalid in r.raised
  }

  lemma PackedIsNumber(f: FpFormat, mode: FpRounding, x: real, r: FpResult, denormal: FpExceptions, context: Context)
    requires f == context.format && f.Fits(r.bits) && f.Magnitude(r.bits) <= f.Infinity() && r.raised == FlagsOf(f, mode, x)
    requires Invalid !in denormal
    ensures IsValidNumber(f, Finished(r, denormal, context))
  {
    hide Pow2, Mag, FpFormat.IsNan, FpFormat.Infinity, FpFormat.Magnitude, FpFormat.IsSubnormal, IsRepresentable, RoundsMagnitude;
    Classification(f, r.bits);
    ZeroIsNumber(f, true);
    ZeroIsNumber(f, false);
  }

  lemma ZeroIsNumber(f: FpFormat, isNegative: bool)
    ensures !f.IsNan(f.ZeroBits(isNegative)) && !f.IsInfinite(f.ZeroBits(isNegative))
  {
    hide Pow2, FpFormat.IsNan, FpFormat.IsInfinite, FpFormat.Magnitude;
    Layout(f);
    SignAndMagnitude(f, isNegative, 0);
    Classification(f, f.ZeroBits(isNegative));
  }

  lemma InfinityIsNumber(f: FpFormat, isNegative: bool)
    ensures !f.IsNan(f.SignedInfinity(isNegative)) && f.IsInfinite(f.SignedInfinity(isNegative))
  {
    hide Pow2, FpFormat.IsNan, FpFormat.IsInfinite, FpFormat.Magnitude;
    Layout(f);
    SignAndMagnitude(f, isNegative, f.Infinity());
    Classification(f, f.SignedInfinity(isNegative));
  }

  lemma InvalidOperationIsNan(f: FpFormat)
    ensures IsInvalidNan(f, Nan.InvalidOperation(f))
  {
    hide Pow2, FpFormat.IsNan, FpFormat.Infinity, FpFormat.QuietBit;
    Nan.QuietBitPositive(f);
    Pow2Double(f.MantissaBits() - 1);
    QuietBitBelow(f);
    Nan.NanOfMagnitude(f, false, f.QuietBit());
  }

  lemma QuietBitBelow(f: FpFormat)
    ensures f.QuietBit() < Pow2(f.MantissaBits())
  {
    Pow2Double(f.MantissaBits() - 1);
  }

  lemma FlushInputClass(bits: nat, context: Context)
    requires context.format.Fits(bits)
    ensures var f := context.format;
            var (b, denormal) := FlushInput(bits, context);
            && f.Fits(b) && Invalid !in denormal
            && (f.IsNan(b) <==> f.IsNan(bits)) && (f.IsInfinite(b) <==> f.IsInfinite(bits))
            && (f.IsSignallingNan(b) <==> f.IsSignallingNan(bits))
            && f.IsNegative(b) == f.IsNegative(bits)
  {
    hide Pow2, FpFormat.IsNan, FpFormat.IsInfinite, FpFormat.Magnitude, FpFormat.IsNegative, FpFormat.IsSubnormal, FpFormat.Infinity;
    var f := context.format;
    FlushInputFits(bits, context);
    Classification(f, bits);
    ZeroIsNumber(f, f.IsNegative(bits));
    InfinityIsLarge(f);
  }

  lemma NumberOrFinite(f: FpFormat, bits: nat)
    requires f.Fits(bits)
    ensures IsFinite(f, bits) <==> !f.IsNan(bits) && !f.IsInfinite(bits)
    ensures f.IsInfinite(bits) ==> !f.IsNan(bits) && !f.IsZero(bits)
  {
    hide Pow2, FpFormat.IsNan, FpFormat.IsInfinite, FpFormat.Magnitude, FpFormat.Infinity;
    Classification(f, bits);
    Layout(f);
  }

  /** What both operands of a two-operand operation are, after input flushing. */
  lemma OperandClasses(lhs: nat, rhs: nat, context: Context)
    requires context.format.Fits(lhs) && context.format.Fits(rhs)
    ensures var f := context.format;
            var (l, r, denormal) := FlushPair(lhs, rhs, context);
            && f.Fits(l) && f.Fits(r) && Invalid !in denormal
            && (f.IsNan(l) <==> f.IsNan(lhs)) && (f.IsNan(r) <==> f.IsNan(rhs))
            && (f.IsInfinite(l) <==> f.IsInfinite(lhs)) && (f.IsInfinite(r) <==> f.IsInfinite(rhs))
            && (f.IsSignallingNan(l) <==> f.IsSignallingNan(lhs)) && (f.IsSignallingNan(r) <==> f.IsSignallingNan(rhs))
            && f.IsNegative(l) == f.IsNegative(lhs) && f.IsNegative(r) == f.IsNegative(rhs)
            && (!f.IsNan(lhs) && !f.IsInfinite(lhs) ==> IsFinite(f, lhs) && IsFinite(f, l))
            && (!f.IsNan(rhs) && !f.IsInfinite(rhs) ==> IsFinite(f, rhs) && IsFinite(f, r))
            && (f.IsInfinite(l) ==> !f.IsZero(l) && !f.IsNan(l)) && (f.IsInfinite(r) ==> !f.IsZero(r) && !f.IsNan(r))
  {
    hide Pow2, FpFormat.IsNan, FpFormat.IsInfinite, FpFormat.IsSignallingNan, FpFormat.Magnitude, FpFormat.IsNegative, FlushInput,
         FpFormat.Fits, IsFinite;
    var f := context.format;
    var (l, r, denormal) := FlushPair(lhs, rhs, context);
    FlushInputClass(lhs, context);
    FlushInputClass(rhs, context);
    NumberOrFinite(f, lhs);
    NumberOrFinite(f, rhs);
    NumberOrFinite(f, l);
    NumberOrFinite(f, r);
  }

  /** A sum is a NaN exactly for a NaN operand or infinities that cancel, and only those can be invalid. */
  lemma AddNans(lhs: nat, rhs: nat, isSubtracting: bool, context: Context)
    requires context.format.Fits(lhs) && context.format.Fits(rhs)
    ensures var f := context.format;
            var result := Add(lhs, rhs, isSubtracting, context);
            var hasNan := f.IsNan(lhs) || f.IsNan(rhs);
            var cancels := f.IsInfinite(lhs) && f.IsInfinite(rhs) && f.IsNegative(lhs) == (f.IsNegative(rhs) == isSubtracting);
            && (f.IsNan(result.bits) <==> hasNan || cancels)
            && (Invalid in result.raised <==>
                  if hasNan then f.IsSignallingNan(lhs) || f.IsSignallingNan(rhs) else cancels)
  {
    hide Pow2, Mag, FpFormat.IsNan, FpFormat.IsInfinite, FpFormat.IsSignallingNan, FpFormat.Magnitude, FpFormat.IsNegative,
         FpFormat.Infinity, FpFormat.Fits, Nan.Propagate, RoundsTo, FlagsOf, AddFinite, Pack, Unpack, Value, Nan.InvalidOperation,
         ApplyFlushToZero, FlushPair, FpFormat.FlipSign, IsFinite, FpFormat.ZeroBits;
    var f := context.format;
    var (l, r0, denormal) := FlushPair(lhs, rhs, context);
    OperandClasses(lhs, rhs, context);
    var r := if isSubtracting then f.FlipSign(r0) else r0;
    FlippedClass(f, r0);
    Nan.PropagatedIsQuietNan([l, r], f, context.control);
    InvalidOperationIsNan(f);
    assert l in [l, r] && r in [l, r];
    SignalsAreNans(f, lhs, rhs);
    if !f.IsNan(lhs) && !f.IsNan(rhs) && !f.IsInfinite(lhs) && !f.IsInfinite(rhs) {
      var rounded := AddRoundsCorrectly(lhs, rhs, isSubtracting, context);
      SumIsNumber(lhs, rhs, isSubtracting, context, rounded);
    }
  }

  lemma SignalsAreNans(f: FpFormat, lhs: nat, rhs: nat)
    ensures f.IsSignallingNan(lhs) ==> f.IsNan(lhs)
    ensures f.IsSignallingNan(rhs) ==> f.IsNan(rhs)
  {
  }

  lemma SumIsNumber(lhs: nat, rhs: nat, isSubtracting: bool, context: Context, rounded: FpResult)
    requires IsFinite(context.format, lhs) && IsFinite(context.format, rhs)
    requires var f := context.format;
             var (l, r, denormal) := FlushPair(lhs, rhs, context);
             var x := if isSubtracting then Value(f, l) - Value(f, r) else Value(f, l) + Value(f, r);
             && Invalid !in denormal
             && (x != 0.0 ==>
                   && RoundsTo(f, context.rounding, x, rounded.bits) && rounded.raised == FlagsOf(f, context.rounding, x)
                   && Add(lhs, rhs, isSubtracting, context) == Finished(rounded, denormal, context))
             && (x == 0.0 ==> exists isNegative :: Add(lhs, rhs, isSubtracting, context) == FpResult(f.ZeroBits(isNegative), denormal))
    ensures IsValidNumber(context.format, Add(lhs, rhs, isSubtracting, context))
  {
    hide Pow2, Mag, FpFormat.IsNan, FpFormat.Magnitude, FpFormat.Infinity, FlagsOf, FlushPair, ApplyFlushToZero, Add, Value,
         RoundsMagnitude, FpFormat.ZeroBits;
    var f := context.format;
    var (l, r, denormal) := FlushPair(lhs, rhs, context);
    var x := if isSubtracting then Value(f, l) - Value(f, r) else Value(f, l) + Value(f, r);
    ZeroIsNumber(f, true);
    ZeroIsNumber(f, false);
    if x != 0.0 {
      RoundingInRange(f, RuleFor(context.rounding, x < 0.0), Abs(x), f.Magnitude(rounded.bits));
      PackedIsNumber(f, context.rounding, x, rounded, denormal, context);
    }
  }

  lemma FlippedClass(f: FpFormat, bits: nat)
    requires f.Fits(bits)
    ensures var b := f.FlipSign(bits);
            && f.Fits(b) && f.IsNegative(b) == !f.IsNegative(bits)
            && (f.IsNan(b) <==> f.IsNan(bits)) && (f.IsInfinite(b) <==> f.IsInfinite(bits))
            && (f.IsSignallingNan(b) <==> f.IsSignallingNan(bits))
  {
    hide Pow2, FpFormat.IsNan, FpFormat.IsInfinite, FpFormat.IsSignallingNan, FpFormat.Magnitude, FpFormat.FlipSign,
         FpFormat.MantissaField, FpFormat.QuietBit;
    var b := f.FlipSign(bits);
    FlipSignMeaning(f, bits);
    Classification(f, bits);
    Classification(f, b);
    FieldsOfMagnitude(f, bits);
    FieldsOfMagnitude(f, b);
    if f.IsNan(bits) {
      Nan.QuietBitOfNan(f, bits);
      Nan.QuietBitOfNan(f, b);
    } else {
      SignalsAreNans(f, bits, b);
    }
  }

  /** A product is a NaN exactly for a NaN operand or zero times infinity. */
  lemma MultiplyNans(lhs: nat, rhs: nat, context: Context)
    requires context.format.Fits(lhs) && context.format.Fits(rhs)
    ensures var f := context.format;
            var (l, r, _) := FlushPair(lhs, rhs, context);
            var result := Multiply(lhs, rhs, context);
            var hasNan := f.IsNan(lhs) || f.IsNan(rhs);
            var isUndefined := (f.IsInfinite(lhs) && f.IsZero(r)) || (f.IsZero(l) && f.IsInfinite(rhs));
            && (f.IsNan(result.bits) <==> hasNan || isUndefined)
            && (Invalid in result.raised <==>
                  if hasNan then f.IsSignallingNan(lhs) || f.IsSignallingNan(rhs) else isUndefined)
            && (!hasNan && !isUndefined && (f.IsInfinite(lhs) || f.IsInfinite(rhs)) ==>
                  result.bits == f.SignedInfinity(f.IsNegative(lhs) != f.IsNegative(rhs)))
  {
    hide Pow2, Mag, FpFormat.IsNan, FpFormat.IsInfinite, FpFormat.IsSignallingNan, FpFormat.IsNegative, FpFormat.IsZero,
         FpFormat.Infinity, FpFormat.Fits, Nan.Propagate, Packs, FlagsOf, Product, Pack, Unpack, Value, Nan.InvalidOperation,
         ApplyFlushToZero, FlushPair, IsFinite, FpFormat.ZeroBits, FpFormat.SignedInfinity, ProductOf, QuotientOf, FpFormat.Magnitude, RoundsTo, CarryLost;
    var f := context.format;
    var (l, r, denormal) := FlushPair(lhs, rhs, context);
    OperandClasses(lhs, rhs, context);
    Nan.PropagatedIsQuietNan([l, r], f, context.control);
    InvalidOperationIsNan(f);
    InfinityIsNumber(f, f.IsNegative(l) != f.IsNegative(r));
    ZeroIsNumber(f, f.IsNegative(l) != f.IsNegative(r));
    assert l in [l, r] && r in [l, r];
    SignalsAreNans(f, lhs, rhs);
    NanIsNotZero(f, l);
    NanIsNotZero(f, r);
    if !f.IsNan(lhs) && !f.IsNan(rhs) && !f.IsInfinite(lhs) && !f.IsInfinite(rhs) {
      var rounded := MultiplyRounds(lhs, rhs, context);
      var x := ProductOf(f, l, r);
      if x != 0.0 {
        PacksMeaning(f, context.rounding, x, rounded);
        PackedIsNumber(f, context.rounding, x, rounded, denormal, context);
      }
    }
  }

  lemma NanIsNotZero(f: FpFormat, bits: nat)
    ensures f.IsNan(bits) ==> !f.IsZero(bits) && !f.IsInfinite(bits)
  {
    hide Pow2, FpFormat.IsNan, FpFormat.IsInfinite, FpFormat.Magnitude;
    Classification(f, bits);
    Layout(f);
  }

  /** A quotient is a NaN exactly for a NaN operand, zero over zero or infinity over infinity. */
  lemma DivideNans(lhs: nat, rhs: nat, context: Context)
    requires context.format.Fits(lhs) && context.format.Fits(rhs)
    ensures var f := context.format;
            var (l, r, _) := FlushPair(lhs, rhs, context);
            var result := Divide(lhs, rhs, context);
            var hasNan := f.IsNan(lhs) || f.IsNan(rhs);
            var isUndefined := (f.IsInfinite(lhs) && f.IsInfinite(rhs)) || (f.IsZero(l) && f.IsZero(r));
            && (f.IsNan(result.bits) <==> hasNan || isUndefined)
            && (Invalid in result.raised <==>
                  if hasNan then f.IsSignallingNan(lhs) || f.IsSignallingNan(rhs) else isUndefined)
            && (DivideByZero in result.raised ==> !hasNan && !f.IsInfinite(lhs) && !f.IsZero(l) && f.IsZero(r))
  {
    hide Pow2, Mag, FpFormat.IsNan, FpFormat.IsInfinite, FpFormat.IsSignallingNan, FpFormat.IsNegative, FpFormat.IsZero,
         FpFormat.Infinity, FpFormat.Fits, Nan.Propagate, Packs, Quotient, Pack, Unpack, Value,
         ApplyFlushToZero, FlushPair, IsFinite, FpFormat.ZeroBits, FpFormat.SignedInfinity, ProductOf, QuotientOf, FpFormat.Magnitude, RoundsTo, CarryLost,
         FlagsOf, FpFormat.DefaultNan;
    var f := context.format;
    var (l, r, denormal) := FlushPair(lhs, rhs, context);
    OperandClasses(lhs, rhs, context);
    DenormalFlags(lhs, rhs, context);
    Nan.PropagatedIsQuietNan([l, r], f, context.control);
    InvalidOperationIsNan(f);
    InfinityIsNumber(f, f.IsNegative(l) != f.IsNegative(r));
    ZeroIsNumber(f, f.IsNegative(l) != f.IsNegative(r));
    assert l in [l, r] && r in [l, r];
    SignalsAreNans(f, lhs, rhs);
    if !f.IsNan(lhs) && !f.IsNan(rhs) && !f.IsInfinite(lhs) && !f.IsInfinite(rhs) {
      var rounded := DivideRounds(lhs, rhs, context);
      FiniteOperands(f, l, r, context);
      if Value(f, l) != 0.0 && Value(f, r) != 0.0 {
        var x := QuotientOf(f, l, r);
        QuotientOfFactors(f, l, r);
        PacksMeaning(f, context.rounding, x, rounded);
        PackedIsNumber(f, context.rounding, x, rounded, denormal, context);
        PackedNeverDividesByZero(f, context.rounding, x, rounded, denormal, context);
      }
    }
  }

  lemma DenormalFlags(lhs: nat, rhs: nat, context: Context)
    ensures FlushPair(lhs, rhs, context).2 <= {InputDenormal}
  {
    hide Pow2;
  }

  lemma PackedNeverDividesByZero(f: FpFormat, mode: FpRounding, x: real, r: FpResult, denormal: FpExceptions, context: Context)
    requires f == context.format && r.raised == FlagsOf(f, mode, x) && denormal <= {InputDenormal}
    ensures DivideByZero !in Finished(r, denormal, context).raised
  {
    hide Pow2, Mag, FpFormat.IsSubnormal, IsRepresentable, RoundsMagnitude;
  }

  /** Zero times infinity among the multiplicands. */
  predicate IsProductUndefined(o: FusedOperands, f: FpFormat) {
    (f.IsInfinite(o.multiplicand) && f.IsZero(o.multiplier)) || (f.IsZero(o.multiplicand) && f.IsInfinite(o.multiplier))
  }

  /** An infinite product against the opposite infinity. */
  predicate SumCancels(o: FusedOperands, f: FpFormat) {
    && (f.IsInfinite(o.multiplicand) || f.IsInfinite(o.multiplier)) && f.IsInfinite(o.addend)
    && (f.IsNegative(o.addend) != o.isAddendNegated) != IsProductNegative(o, f)
  }

  /**
   A fused multiply-add is a NaN exactly for a NaN operand, zero times infinity or infinities that
   cancel, and only those can be invalid.
   */
  lemma FusedNans(o: FusedOperands, context: Context)
    requires OperandsFit(o, context.format)
    ensures var f := context.format;
            var result := MultiplyAdd(o, context);
            var hasNan := f.IsNan(o.multiplicand) || f.IsNan(o.multiplier) || f.IsNan(o.addend);
            var hasSignal := f.IsSignallingNan(o.multiplicand) || f.IsSignallingNan(o.multiplier) || f.IsSignallingNan(o.addend);
            var isUndefined := IsProductUndefined(o, f) || SumCancels(o, f);
            && (f.IsNan(result.bits) <==> hasNan || isUndefined)
            && (Invalid in result.raised <==> if hasNan then hasSignal else isUndefined)
  {
    hide Pow2, FpFormat.IsNan, FpFormat.IsInfinite, FpFormat.IsSignallingNan, FpFormat.IsNegative, FpFormat.IsZero,
         FpFormat.FlipSign, FpFormat.Infinity, FpFormat.Fits, Nan.Propagate, Nan.InvalidOperation, FpFormat.SignedInfinity,
         Accumulate, ExactProductOf, ZeroProduct, IsFinite, IsProductNegative;
    var f := context.format;
    var operands := [o.multiplicand, o.multiplier, o.addend];
    Nan.PropagatedIsQuietNan(operands, f, context.control);
    assert o.multiplicand in operands && o.multiplier in operands && o.addend in operands;
    SignalsAreNans(f, o.multiplicand, o.multiplier);
    SignalsAreNans(f, o.addend, o.addend);
    InvalidOperationIsNan(f);
    FlippedClass(f, o.addend);
    InfinityIsNumber(f, IsProductNegative(o, f));
    NanIsNotZero(f, o.multiplicand);
    NanIsNotZero(f, o.multiplier);
    NumberOrFinite(f, o.multiplicand);
    NumberOrFinite(f, o.multiplier);
    NumberOrFinite(f, o.addend);
    if IsFinite(f, o.multiplicand) && IsFinite(f, o.multiplier) && IsFinite(f, o.addend) {
      FiniteFusedIsNumber(o, context);
    } else if !f.IsNan(o.multiplicand) && !f.IsNan(o.multiplier) && !f.IsNan(o.addend) {
      NumberOrFinite(f, SignedAddend(o, f));
    }
  }

  lemma FiniteFusedIsNumber(o: FusedOperands, context: Context)
    requires OperandsFit(o, context.format) && OperandsFinite(o, context.format)
    ensures IsValidNumber(context.format, MultiplyAdd(o, context))
  {
    hide Pow2, Mag, FpFormat.IsNan, FpFormat.IsInfinite, FpFormat.Magnitude, FpFormat.Infinity, FpFormat.IsNegative, FpFormat.IsZero,
         FpFormat.FlipSign, MultiplyAdd, Packs, FlagsOf, FpFormat.IsSignallingNan, RoundsTo, CarryLost, Value, ApplyFlushToZero, FpFormat.ZeroBits, CancelsInexactly,
         ProductValue, AddendValue, FusedValue, ExactProductOf, TruncatedDifference, WideUnit, IsFinite, Scale, Unpack, FpFormat.Fits;
    var f := context.format;
    var rounded := FusedRounds(o, context);
    FusedDispatch(o, context);
    var x, y := ProductValue(o, f) + AddendValue(o, f), FusedValue(o, f);
    ZeroIsNumber(f, true);
    ZeroIsNumber(f, false);
    FlippedClass(f, o.addend);
    NumberOrFinite(f, SignedAddend(o, f));
    if ProductValue(o, f) != 0.0 && x != 0.0 {
      RoundedIsNonZero(o, f, x, y);
      PacksMeaning(f, context.rounding, y, rounded);
      PackedIsNumber(f, context.rounding, y, rounded, {}, context);
    }
  }

  /** The value that is rounded is zero only if the exact sum is. */
  lemma RoundedIsNonZero(o: FusedOperands, f: FpFormat, x: real, y: real)
    requires x != 0.0
    requires y == x || exists n: nat, g: int :: OvershootsAt(f, x, y, n, g)
    ensures y != 0.0
  {
    hide Pow2;
    if y != x {
      var n: nat, g: int :| OvershootsAt(f, x, y, n, g);
      ScaleOrder(0, n, g);
      assert Scale(0, g) == 0.0;
    }
  }

  /**
   A square root is a NaN exactly for a NaN operand or a negative one other than zero, and only a
   signalling NaN or a negative operand can be invalid; positive infinity is its own square root.
   */
  lemma SquareRootNans(bits: nat, context: Context)
    requires context.format.Fits(bits)
    ensures var f := context.format;
            var (value, denormal) := FlushInput(bits, context);
            var result := SquareRootOf(bits, context);
            var isUndefined := !f.IsNan(bits) && f.IsNegative(bits) && !f.IsZero(value);
            && (f.IsNan(result.bits) <==> f.IsNan(bits) || isUndefined)
            && (f.IsNan(result.bits) ==> !f.IsSignallingNan(result.bits))
            && (Invalid in result.raised <==> f.IsSignallingNan(bits) || isUndefined)
            && (f.IsInfinite(bits) && !f.IsNegative(bits) ==> result == Exactly(bits))
  {
    hide Pow2, Mag, FpFormat.IsNan, FpFormat.IsInfinite, FpFormat.IsSignallingNan, FpFormat.IsNegative, FpFormat.Infinity,
         FpFormat.Fits, Nan.Propagate, Nan.InvalidOperation, RoundsRoot, HasRepresentableRoot, Pack, Unpack, Root, FlushInput, IsFinite, Value,
         FpFormat.Magnitude, ApplyFlushToZero;
    var f := context.format;
    var (value, denormal) := FlushInput(bits, context);
    FlushInputClass(bits, context);
    NumberOrFinite(f, bits);
    NumberOrFinite(f, value);
    Nan.PropagatedIsQuietNan([value], f, context.control);
    assert value in [value];
    InvalidOperationIsNan(f);
    InvalidOperationIsQuiet(f);
    SignalsAreNans(f, bits, value);
    NanIsNotZero(f, value);
    if f.IsInfinite(bits) {
      InfinityIsUntouched(bits, context);
    }
    if IsFinite(f, value) && !f.IsZero(value) && !f.IsNegative(value) {
      PositiveValue(f, value);
      var rounded := SquareRootRoundsCorrectly(bits, context);
      NumberOrFinite(f, rounded.bits);
      FinishedIsNumber(rounded, denormal, context);
    }
  }

  lemma InvalidOperationIsQuiet(f: FpFormat)
    ensures !f.IsSignallingNan(Nan.InvalidOperation(f).bits)
  {
    hide Pow2, FpFormat.IsNan, FpFormat.IsSignallingNan, FpFormat.Infinity, FpFormat.QuietBit, FpFormat.MantissaField, FpFormat.Fits, FpFormat.Magnitude;
    Nan.QuietBitPositive(f);
    QuietBitBelow(f);
    Nan.NanOfMagnitude(f, false, f.QuietBit());
    Nan.QuietBitOfNan(f, f.DefaultNan());
  }

  lemma InfinityIsUntouched(bits: nat, context: Context)
    requires context.format.Fits(bits) && context.format.IsInfinite(bits)
    ensures FlushInput(bits, context) == (bits, {})
  {
    hide Pow2, FpFormat.IsNan, FpFormat.IsInfinite, FpFormat.IsSubnormal, FpFormat.Infinity, FpFormat.Magnitude;
    Classification(context.format, bits);
    InfinityIsLarge(context.format);
  }

  lemma PositiveValue(f: FpFormat, value: nat)
    requires IsFinite(f, value) && !f.IsZero(value) && !f.IsNegative(value)
    ensures Value(f, value) > 0.0
  {
    hide Pow2, Mag;
    MagNonNegative(f, f.Magnitude(value));
  }

  /** Flushing a finite number leaves a number, and never makes it invalid. */
  lemma FinishedIsNumber(r: FpResult, denormal: FpExceptions, context: Context)
    requires context.format.Fits(r.bits) && !context.format.IsNan(r.bits) && r.raised <= {Inexact}
    requires Invalid !in denormal
    ensures IsValidNumber(context.format, Finished(r, denormal, context))
  {
    hide Pow2, FpFormat.IsNan, FpFormat.IsSubnormal;
    ZeroIsNumber(context.format, context.format.IsNegative(r.bits));
  }

  /**
   A conversion is a NaN exactly for a NaN operand, then quiet in the target format, with the
   operand's sign unless default NaNs are on, and invalid exactly if it was signalling.  An infinity
   stays an infinity of its sign and raises nothing.
   */
  lemma ConvertNans(bits: nat, source: FpFormat, target: FpFormat, control: FpControl, rounding: FpRounding)
    requires source.Fits(bits)
    ensures var r := Convert(bits, source, target, control, rounding);
            && (target.IsNan(r.bits) <==> source.IsNan(bits))
            && (Invalid in r.raised <==> source.IsSignallingNan(bits))
            && (source.IsNan(bits) ==>
                  && target.Fits(r.bits) && !target.IsSignallingNan(r.bits)
                  && (!control.isDefaultNan ==> target.IsNegative(r.bits) == source.IsNegative(bits)))
            && (source.IsInfinite(bits) ==>
                  && target.IsInfinite(r.bits) && target.IsNegative(r.bits) == source.IsNegative(bits) && r.raised == {})
  {
    hide Pow2, Mag, FpFormat.IsNan, FpFormat.IsInfinite, FpFormat.IsSignallingNan, FpFormat.IsNegative, FpFormat.Infinity, FpFormat.Fits,
         FpFormat.Magnitude, Packs, FlagsOf, Value, ApplyFlushToZero, Rescaled, RoundAndPack, Unpack, IsFinite, ConvertNan, FpFormat.ZeroBits,
         FpFormat.SignedInfinity, CarryLost, RoundsTo;
    NumberOrFinite(source, bits);
    SignalsAreNans(source, bits, bits);
    if source.IsNan(bits) {
      ConvertedNan(bits, source, target, control);
    } else if source.IsInfinite(bits) {
      InfinityIsNumber(target, source.IsNegative(bits));
      SignOfInfinity(target, source.IsNegative(bits));
    } else {
      ZeroIsNumber(target, source.IsNegative(bits));
      var rounded := ConvertRounds(bits, source, target, control, rounding);
      var x, context := Value(source, bits), Context(target, rounding, control);
      if x != 0.0 {
        PacksMeaning(target, rounding, x, rounded);
        PackedIsNumber(target, rounding, x, rounded, {}, context);
        FinishedWithoutInput(rounded, context);
      }
    }
  }

  lemma FinishedWithoutInput(r: FpResult, context: Context)
    ensures Finished(r, {}, context) == ApplyFlushToZero(r, context.format, context.control)
  {
    hide ApplyFlushToZero;
  }

  lemma SignOfInfinity(f: FpFormat, isNegative: bool)
    ensures f.IsNegative(f.SignedInfinity(isNegative)) == isNegative
  {
    hide Pow2;
    Layout(f);
    SignAndMagnitude(f, isNegative, f.Infinity());
  }

  lemma ConvertedNan(bits: nat, source: FpFormat, target: FpFormat, control: FpControl)
    requires source.IsNan(bits)
    ensures var r := ConvertNan(bits, source, target, control);
            && target.Fits(r.bits) && target.IsNan(r.bits) && !target.IsSignallingNan(r.bits)
            && r.raised == (if source.IsSignallingNan(bits) then {Invalid} else {})
            && (!control.isDefaultNan ==> target.IsNegative(r.bits) == source.IsNegative(bits))
  {
    hide Pow2, FpFormat.IsNan, FpFormat.IsSignallingNan, FpFormat.Infinity, FpFormat.QuietBit, FpFormat.MantissaField, FpFormat.Fits,
         FpFormat.Magnitude, FpFormat.IsNegative, ShiftRight, LowBits;
    Nan.QuietBitPositive(target);
    QuietBitBelow(target);
    if control.isDefaultNan {
      Nan.NanOfMagnitude(target, false, target.QuietBit());
      Nan.QuietBitOfNan(target, target.DefaultNan());
    } else {
      var moved :=
        if target.MantissaBits() >= source.MantissaBits()
        then source.MantissaField(bits) * Pow2(target.MantissaBits() - source.MantissaBits())
        else ShiftRight(source.MantissaField(bits), source.MantissaBits() - target.MantissaBits());
      var low := LowBits(moved, target.MantissaBits() - 1);
      QuietPayload(target, source.IsNegative(bits), low, moved);
    }
  }

  lemma QuietPayload(f: FpFormat, isNegative: bool, low: nat, moved: nat)
    requires low == LowBits(moved, f.MantissaBits() - 1)
    ensures var bits := f.SignBit(isNegative) + f.Infinity() + f.QuietBit() + low;
            f.Fits(bits) && f.IsNan(bits) && !f.IsSignallingNan(bits) && f.IsNegative(bits) == isNegative
  {
    hide Pow2, FpFormat.IsNan, FpFormat.IsSignallingNan, FpFormat.Infinity, FpFormat.MantissaField, FpFormat.Fits, FpFormat.Magnitude,
         FpFormat.IsNegative, LowBits, FpFormat.SignBit;
    ShiftSplit(moved, f.MantissaBits() - 1);
    Pow2Double(f.MantissaBits() - 1);
    var t := f.QuietBit() + low;
    Nan.NanOfMagnitude(f, isNegative, t);
    var bits := f.Encode(isNegative, f.Infinity() + t);
    Nan.QuietBitOfNan(f, bits);
    Layout(f);
    SignAndMagnitude(f, isNegative, f.Infinity() + t);
  }
}
