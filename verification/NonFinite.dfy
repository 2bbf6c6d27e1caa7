/**
 Results that no rounding produces: every operation on infinities, NaNs and zeroes, and what
 flushing does to subnormal operands and results.  Together with the rounding theorems of the
 operation modules this fixes the result of each operation on every operand.
 */
module NonFinite {
  import opened Options
  import opened Powers
  import opened Formats
  import opened Rounding
  import opened Decompose
  import opened Arithmetic
  import opened ConvertFormat
  import opened Fused
  import opened IntegerConversion
  import opened MultiplyDivide
  import opened SquareRoot
  import opened Specials
  import Compare
  import Nan

  /** The named patterns: zeroes, infinities and the default NaN. */
  lemma NamedPatterns(f: FpFormat, isNegative: bool)
    ensures var zero, infinity := f.ZeroBits(isNegative), f.SignedInfinity(isNegative);
            && IsFinite(f, zero) && Value(f, zero) == 0.0 && f.IsZero(zero) && f.IsNegative(zero) == isNegative
            && f.Fits(infinity) && f.IsInfinite(infinity) && f.IsNegative(infinity) == isNegative
    ensures var nan := f.DefaultNan();
            && f.Fits(nan) && f.IsNan(nan) && !f.IsNegative(nan) && f.MantissaField(nan) == Pow2(f.MantissaBits() - 1)
  {
    hide Pow2, Mag, FpFormat.IsNan, FpFormat.IsInfinite, FpFormat.Infinity, FpFormat.QuietBit, FpFormat.IsNegative, FpFormat.Fits,
         FpFormat.Magnitude, FpFormat.MantissaField, FpFormat.Encode;
    Layout(f);
    QuietBitIs(f);
    SignAndMagnitude(f, isNegative, 0);
    SignAndMagnitude(f, isNegative, f.Infinity());
    Classification(f, f.SignedInfinity(isNegative));
    MagZero(f);
    Nan.QuietBitPositive(f);
    QuietBitBelow(f);
    Nan.NanOfMagnitude(f, false, f.QuietBit());
    SignAndMagnitude(f, false, f.Infinity() + f.QuietBit());
    PositiveEncoding(f, f.Infinity() + f.QuietBit());
  }

  lemma QuietBitIs(f: FpFormat)
    ensures f.QuietBit() == Pow2(f.MantissaBits() - 1)
  {
  }

  lemma PositiveEncoding(f: FpFormat, magnitude: nat)
    ensures f.Encode(false, magnitude) == magnitude
  {
  }

  // ----- which NaN comes out -----

  /** A NaN's mantissa field with its quiet bit set and every other bit kept. */
  function QuietPayload(f: FpFormat, payload: nat): nat {
    Pow2(f.MantissaBits() - 1) + LowBits(payload, f.MantissaBits() - 1)
  }

  /** `r` is the quietened NaN `bits` with the given sign, or the default NaN where FPCR asks for it. */
  predicate IsQuietened(f: FpFormat, control: FpControl, bits: nat, isNegative: bool, r: nat) {
    && f.Fits(r) && f.IsNan(r)
    && f.IsNegative(r) == (!control.isDefaultNan && isNegative)
    && f.MantissaField(r) == if control.isDefaultNan then Pow2(f.MantissaBits() - 1) else QuietPayload(f, f.MantissaField(bits))
  }

  lemma QuietPayloadOf(f: FpFormat, payload: nat)
    requires payload < Pow2(f.MantissaBits())
    ensures QuietPayload(f, payload) == if payload < f.QuietBit() then payload + f.QuietBit() else payload
    ensures f.QuietBit() <= QuietPayload(f, payload) < Pow2(f.MantissaBits())
  {
    hide Pow2;
    Pow2Double(f.MantissaBits() - 1);
    DivModUnique(payload, f.QuietBit(), if payload < f.QuietBit() then 0 else 1,
                 if payload < f.QuietBit() then payload else payload - f.QuietBit());
  }

  lemma QuietResultMeaning(f: FpFormat, control: FpControl, bits: nat)
    requires f.Fits(bits) && f.IsNan(bits)
    ensures IsQuietened(f, control, bits, f.IsNegative(bits), Nan.QuietResult(bits, f, control))
  {
    hide Pow2, FpFormat.IsNan, FpFormat.IsSignallingNan, FpFormat.Infinity, FpFormat.IsNegative, FpFormat.Fits, FpFormat.MantissaField,
         FpFormat.Magnitude, FpFormat.MantissaBits, FpFormat.DefaultNan, FpFormat.QuietBit, FpFormat.Encode, QuietPayload,
         Value, IsFinite, FpFormat.ZeroBits, FpFormat.SignedInfinity, FpFormat.IsZero, FpFormat.IsInfinite, FpFormat.ExponentField;
    NamedPatterns(f, false);
    var t := f.MantissaField(bits);
    Nan.QuietBitOfNan(f, bits);
    FieldsOfMagnitude(f, bits);
    DecodeEncode(f, bits);
    QuietPayloadOf(f, t);
    if f.IsSignallingNan(bits) {
      QuietBitAdded(f, f.IsNegative(bits), t);
    }
  }

  lemma QuietBitAdded(f: FpFormat, isNegative: bool, t: nat)
    requires t + f.QuietBit() < Pow2(f.MantissaBits())
    ensures var bits := f.Encode(isNegative, f.Infinity() + t) + f.QuietBit();
            f.Fits(bits) && f.IsNan(bits) && f.IsNegative(bits) == isNegative && f.MantissaField(bits) == t + f.QuietBit()
  {
    hide Pow2, FpFormat.IsNan, FpFormat.Infinity, FpFormat.IsNegative, FpFormat.Fits, FpFormat.MantissaField, FpFormat.QuietBit;
    Nan.QuietBitPositive(f);
    Nan.NanOfMagnitude(f, isNegative, t + f.QuietBit());
    Layout(f);
    SignAndMagnitude(f, isNegative, f.Infinity() + (t + f.QuietBit()));
    assert f.Encode(isNegative, f.Infinity() + t) + f.QuietBit() == f.Encode(isNegative, f.Infinity() + (t + f.QuietBit()));
  }

  predicate IsFirstNan(operands: seq<nat>, f: FpFormat, i: nat) {
    && i < |operands| && f.IsNan(operands[i])
    && forall j: nat :: j < i ==> !f.IsNan(operands[j])
  }

  lemma {:induction false} FirstNanFound(operands: seq<nat>, f: FpFormat, i: nat)
    requires IsFirstNan(operands, f, i)
    ensures Nan.FirstNan(operands, f) == Some(operands[i])
  {
    hide FpFormat.IsNan;
    if i > 0 {
      assert !f.IsNan(operands[0]);
      forall j: nat | j < i - 1 ensures !f.IsNan(operands[1..][j]) {
        assert !f.IsNan(operands[j + 1]);
      }
      FirstNanFound(operands[1..], f, i - 1);
    }
  }

  /** The NaN that comes out is the first in operand order, quietened; a signalling one anywhere is invalid. */
  lemma PropagatesFirst(operands: seq<nat>, f: FpFormat, control: FpControl, i: nat)
    requires IsFirstNan(operands, f, i) && f.Fits(operands[i])
    ensures var r := Nan.Propagate(operands, f, control);
            && r.Some? && IsQuietened(f, control, operands[i], f.IsNegative(operands[i]), r.value.bits)
            && r.value.raised == if exists k: nat :: k < |operands| && f.IsSignallingNan(operands[k]) then {Invalid} else {}
  {
    hide FpFormat.IsNan, FpFormat.IsSignallingNan, FpFormat.Fits, FpFormat.IsNegative, IsQuietened, Nan.QuietResult;
    FirstNanFound(operands, f, i);
    QuietResultMeaning(f, control, operands[i]);
    SignalsByIndex(operands, f);
  }

  lemma SignalsByIndex(operands: seq<nat>, f: FpFormat)
    ensures Nan.SignallingAmong(operands, f) <==> exists k: nat :: k < |operands| && f.IsSignallingNan(operands[k])
  {
    hide FpFormat.IsSignallingNan;
    if Nan.SignallingAmong(operands, f) {
      var bits :| bits in operands && f.IsSignallingNan(bits);
      var k: nat :| k < |operands| && operands[k] == bits;
      assert f.IsSignallingNan(operands[k]);
    }
  }

  // ----- flushing -----

  /** The FPCR field that governs each format. */
  predicate FlushesToZero(f: FpFormat, control: FpControl) {
    match f
    case Half => control.isFlushToZeroFp16
    case Single => control.isFlushToZero
    case Double => control.isFlushToZero
  }

  /** A non-zero number below the normal range. */
  ghost predicate IsTiny(f: FpFormat, bits: nat) {
    IsFinite(f, bits) && 0.0 < Abs(Value(f, bits)) < MinNormal(f)
  }

  lemma TinyIsSubnormal(f: FpFormat, bits: nat)
    requires f.Fits(bits)
    ensures IsTiny(f, bits) <==> f.IsSubnormal(bits)
    ensures f.IsSubnormal(bits) ==> !f.IsNan(bits) && !f.IsInfinite(bits) && !f.IsZero(bits)
  {
    hide Pow2, Mag, FpFormat.IsSubnormal, FpFormat.IsNan, FpFormat.IsInfinite, FpFormat.Infinity, FpFormat.Magnitude;
    Classification(f, bits);
    InfinityIsLarge(f);
    MagNonNegative(f, f.Magnitude(bits));
    MagOrder(f, f.Magnitude(bits), Pow2(f.MantissaBits()));
  }

  /** Whether an operand is replaced before the operation sees it. */
  ghost predicate IsFlushed(bits: nat, context: Context) {
    IsTiny(context.format, bits) && FlushesToZero(context.format, context.control)
  }

  /** An operand counts as zero if it is one or is flushed to one. */
  ghost predicate ActsAsZero(bits: nat, context: Context) {
    context.format.IsZero(bits) || IsFlushed(bits, context)
  }

  ghost function DenormalFlags(lhs: nat, rhs: nat, context: Context): FpExceptions {
    if IsFlushed(lhs, context) || IsFlushed(rhs, context) then {InputDenormal} else {}
  }

  /** A flushed operand becomes the zero of its sign and raises input-denormal; any other is used as it is. */
  lemma FlushedInput(bits: nat, context: Context)
    requires context.format.Fits(bits)
    ensures FlushInput(bits, context)
         == if IsFlushed(bits, context) then (context.format.ZeroBits(context.format.IsNegative(bits)), {InputDenormal})
            else (bits, {})
    ensures context.format.IsZero(FlushInput(bits, context).0) <==> ActsAsZero(bits, context)
  {
    hide Pow2, FpFormat.IsSubnormal, FpFormat.IsNegative, FpFormat.IsNan, FpFormat.IsInfinite, FpFormat.IsZero, FpFormat.ZeroBits, IsTiny;
    TinyIsSubnormal(context.format, bits);
    NamedPatterns(context.format, context.format.IsNegative(bits));
  }

  /** A flushed result becomes the zero of its sign, underflowed and inexact; any other is returned as it is. */
  lemma FlushedResult(r: FpResult, f: FpFormat, control: FpControl)
    requires f.Fits(r.bits)
    ensures ApplyFlushToZero(r, f, control)
         == if IsTiny(f, r.bits) && FlushesToZero(f, control)
            then FpResult(f.ZeroBits(f.IsNegative(r.bits)), r.raised + {Underflow, Inexact})
            else r
  {
    hide Pow2, FpFormat.IsSubnormal, FpFormat.IsNegative, FpFormat.ZeroBits, IsTiny;
    TinyIsSubnormal(f, r.bits);
  }

  /** What the rounding theorems' last step does: flush the result if it is tiny, then add the operands' flag. */
  lemma FinishedMeaning(r: FpResult, denormal: FpExceptions, context: Context)
    requires context.format.Fits(r.bits)
    ensures var f := context.format;
            Finished(r, denormal, context)
            == if IsTiny(f, r.bits) && FlushesToZero(f, context.control)
               then FpResult(f.ZeroBits(f.IsNegative(r.bits)), r.raised + {Underflow, Inexact} + denormal)
               else FpResult(r.bits, r.raised + denormal)
  {
    hide IsTiny, FpFormat.ZeroBits, FpFormat.IsNegative, FpFormat.Fits, ApplyFlushToZero;
    FlushedResult(r, context.format, context.control);
  }

  /** Both operands of a two-operand operation are flushed independently. */
  lemma FlushedPair(lhs: nat, rhs: nat, context: Context)
    requires context.format.Fits(lhs) && context.format.Fits(rhs)
    ensures FlushPair(lhs, rhs, context)
         == (FlushInput(lhs, context).0, FlushInput(rhs, context).0, DenormalFlags(lhs, rhs, context))
  {
    hide FpFormat.Fits, FpFormat.ZeroBits, FpFormat.IsNegative, IsFlushed, FpFormat.IsZero, FlushInput;
    FlushedInput(lhs, context);
    FlushedInput(rhs, context);
    var none, denormal: FpExceptions := {}, {InputDenormal};
    assert none + none == none && denormal + none == denormal && none + denormal == denormal && denormal + denormal == denormal;
  }

  lemma NonFiniteIsKept(bits: nat, context: Context)
    requires context.format.Fits(bits) && (context.format.IsNan(bits) || context.format.IsInfinite(bits))
    ensures FlushInput(bits, context) == (bits, {}) && !IsFlushed(bits, context) && !ActsAsZero(bits, context)
  {
    hide Pow2, FpFormat.IsSubnormal, FpFormat.IsNan, FpFormat.IsInfinite, FpFormat.Magnitude, IsTiny;
    TinyIsSubnormal(context.format, bits);
    NanIsNotZero(context.format, bits);
    NumberOrFinite(context.format, bits);
  }

  // ----- the operations -----

  /** The sign with which the second operand of an addition or subtraction enters the sum. */
  predicate EntersNegative(f: FpFormat, rhs: nat, isSubtracting: bool) {
    f.IsNegative(rhs) != isSubtracting
  }

  /**
   Addition and subtraction with an operand that is not finite.  A NaN comes out quietened, the
   second one with its sign flipped by a subtraction; opposite infinities are invalid; otherwise the
   infinity comes out with the sign it entered with.  Flags are those and a flushed operand's, no others.
   */
  lemma AddNonFinite(lhs: nat, rhs: nat, isSubtracting: bool, context: Context)
    requires context.format.Fits(lhs) && context.format.Fits(rhs)
    ensures var f := context.format;
            var result, denormal := Add(lhs, rhs, isSubtracting, context), DenormalFlags(lhs, rhs, context);
            var lhsNegative, rhsNegative := f.IsNegative(lhs), EntersNegative(f, rhs, isSubtracting);
            var signals: FpExceptions := if f.IsSignallingNan(lhs) || f.IsSignallingNan(rhs) then {Invalid} else {};
            && (f.IsNan(lhs) ==> IsQuietened(f, context.control, lhs, lhsNegative, result.bits))
            && (!f.IsNan(lhs) && f.IsNan(rhs) ==> IsQuietened(f, context.control, rhs, rhsNegative, result.bits))
            && (f.IsNan(lhs) || f.IsNan(rhs) ==> result.raised == signals + denormal)
            && (!f.IsNan(lhs) && !f.IsNan(rhs) ==>
                  && (f.IsInfinite(lhs) && f.IsInfinite(rhs) && lhsNegative != rhsNegative ==>
                        result == FpResult(f.DefaultNan(), {Invalid}))
                  && (f.IsInfinite(lhs) && !(f.IsInfinite(rhs) && lhsNegative != rhsNegative) ==>
                        result == FpResult(f.SignedInfinity(lhsNegative), denormal))
                  && (!f.IsInfinite(lhs) && f.IsInfinite(rhs) ==>
                        result == FpResult(f.SignedInfinity(rhsNegative), denormal)))
  {
    hide Pow2, Mag, FpFormat.IsNan, FpFormat.IsInfinite, FpFormat.IsSignallingNan, FpFormat.Magnitude, FpFormat.IsNegative, FpFormat.Fits,
         FpFormat.Infinity, Nan.Propagate, AddFinite, Pack, Unpack, FlushInput, FlushPair, FpFormat.FlipSign, IsFinite, IsFlushed,
         IsQuietened, FpFormat.SignedInfinity, FpFormat.DefaultNan, ActsAsZero;
    var f := context.format;
    var (l, r0, denormal) := FlushPair(lhs, rhs, context);
    var r := if isSubtracting then f.FlipSign(r0) else r0;
    OperandClasses(lhs, rhs, context);
    FlippedClass(f, r0);
    FlushedPair(lhs, rhs, context);
    if f.IsNan(lhs) {
      NonFiniteIsKept(lhs, context);
      PairPropagates(l, r, f, context.control);
    } else if f.IsNan(rhs) {
      NonFiniteIsKept(rhs, context);
      PairPropagates(l, r, f, context.control);
      FlippedPayload(f, context.control, r0, isSubtracting, Add(lhs, rhs, isSubtracting, context).bits);
    } else {
      NoNanAmong(l, r, f, context.control);
      if f.IsInfinite(lhs) {
        NonFiniteIsKept(lhs, context);
        InfinityBits(f, l);
      }
      if f.IsInfinite(rhs) {
        NonFiniteIsKept(rhs, context);
        InfinityBits(f, r);
      }
    }
  }

  lemma NoNanAmong(l: nat, r: nat, f: FpFormat, control: FpControl)
    requires !f.IsNan(l) && !f.IsNan(r)
    ensures Nan.Propagate([l, r], f, control).None?
  {
    hide FpFormat.IsNan, Nan.Propagate;
  }

  lemma InfinityBits(f: FpFormat, bits: nat)
    requires f.Fits(bits) && f.IsInfinite(bits)
    ensures bits == f.SignedInfinity(f.IsNegative(bits))
  {
    hide Pow2, FpFormat.IsInfinite;
    Classification(f, bits);
    DecodeEncode(f, bits);
  }

  lemma PairPropagates(l: nat, r: nat, f: FpFormat, control: FpControl)
    requires f.Fits(l) && f.Fits(r) && (f.IsNan(l) || f.IsNan(r))
    ensures var result := Nan.Propagate([l, r], f, control);
            var n := if f.IsNan(l) then l else r;
            && result.Some? && IsQuietened(f, control, n, f.IsNegative(n), result.value.bits)
            && result.value.raised == if f.IsSignallingNan(l) || f.IsSignallingNan(r) then {Invalid} else {}
  {
    hide FpFormat.IsNan, FpFormat.IsSignallingNan, FpFormat.Fits, FpFormat.IsNegative, IsQuietened, Nan.Propagate;
    var operands := [l, r];
    PropagatesFirst(operands, f, control, if f.IsNan(l) then 0 else 1);
    assert operands[0] == l && operands[1] == r;
  }

  /** Flipping a NaN's sign keeps its payload. */
  lemma FlippedPayload(f: FpFormat, control: FpControl, bits: nat, isFlipped: bool, r: nat)
    requires f.Fits(bits) && f.IsNan(bits)
    requires var flipped := if isFlipped then f.FlipSign(bits) else bits;
             IsQuietened(f, control, flipped, f.IsNegative(flipped), r)
    ensures IsQuietened(f, control, bits, f.IsNegative(bits) != isFlipped, r)
  {
    hide Pow2, FpFormat.IsNan, FpFormat.Fits, FpFormat.Magnitude, FpFormat.FlipSign, FpFormat.MantissaField, QuietPayload, FpFormat.IsNegative;
    FlipSignMeaning(f, bits);
    FieldsOfMagnitude(f, bits);
    FieldsOfMagnitude(f, f.FlipSign(bits));
  }

  /** Multiplication with a NaN or an infinity among its operands. */
  lemma MultiplyNonFinite(lhs: nat, rhs: nat, context: Context)
    requires context.format.Fits(lhs) && context.format.Fits(rhs)
    ensures var f := context.format;
            var result, denormal := Multiply(lhs, rhs, context), DenormalFlags(lhs, rhs, context);
            var isNegative := f.IsNegative(lhs) != f.IsNegative(rhs);
            var signals: FpExceptions := if f.IsSignallingNan(lhs) || f.IsSignallingNan(rhs) then {Invalid} else {};
            && (f.IsNan(lhs) || f.IsNan(rhs) ==>
                  var n := if f.IsNan(lhs) then lhs else rhs;
                  IsQuietened(f, context.control, n, f.IsNegative(n), result.bits) && result.raised == signals + denormal)
            && (!f.IsNan(lhs) && !f.IsNan(rhs) && (f.IsInfinite(lhs) || f.IsInfinite(rhs)) ==>
                  result == if ActsAsZero(lhs, context) || ActsAsZero(rhs, context)
                            then FpResult(f.DefaultNan(), {Invalid} + denormal)
                            else FpResult(f.SignedInfinity(isNegative), denormal))
  {
    hide Pow2, Mag, FpFormat.IsNan, FpFormat.IsInfinite, FpFormat.IsSignallingNan, FpFormat.Magnitude, FpFormat.IsNegative, FpFormat.Fits,
         FpFormat.Infinity, Nan.Propagate, Product, Pack, Unpack, FlushInput, FlushPair, IsFinite, IsFlushed, FpFormat.IsZero,
         IsQuietened, FpFormat.SignedInfinity, FpFormat.DefaultNan, ActsAsZero;
    PairReaches(lhs, rhs, context);
  }

  /** Division with a NaN or an infinity among its operands, or by zero. */
  lemma DivideNonFinite(lhs: nat, rhs: nat, context: Context)
    requires context.format.Fits(lhs) && context.format.Fits(rhs)
    ensures var f := context.format;
            var result, denormal := Divide(lhs, rhs, context), DenormalFlags(lhs, rhs, context);
            var isNegative := f.IsNegative(lhs) != f.IsNegative(rhs);
            var signals: FpExceptions := if f.IsSignallingNan(lhs) || f.IsSignallingNan(rhs) then {Invalid} else {};
            && (f.IsNan(lhs) || f.IsNan(rhs) ==>
                  var n := if f.IsNan(lhs) then lhs else rhs;
                  IsQuietened(f, context.control, n, f.IsNegative(n), result.bits) && result.raised == signals + denormal)
            && (!f.IsNan(lhs) && !f.IsNan(rhs) ==>
                  && (f.IsInfinite(lhs) && f.IsInfinite(rhs) ==> result == FpResult(f.DefaultNan(), {Invalid}))
                  && (f.IsInfinite(lhs) && !f.IsInfinite(rhs) ==> result == FpResult(f.SignedInfinity(isNegative), denormal))
                  && (!f.IsInfinite(lhs) && f.IsInfinite(rhs) ==> result == FpResult(f.ZeroBits(isNegative), denormal))
                  && (ActsAsZero(lhs, context) && ActsAsZero(rhs, context) ==>
                        result == FpResult(f.DefaultNan(), {Invalid} + denormal))
                  && (!f.IsInfinite(lhs) && !ActsAsZero(lhs, context) && ActsAsZero(rhs, context) ==>
                        result == FpResult(f.SignedInfinity(isNegative), {DivideByZero} + denormal)))
  {
    hide Pow2, Mag, FpFormat.IsNan, FpFormat.IsInfinite, FpFormat.IsSignallingNan, FpFormat.Magnitude, FpFormat.IsNegative, FpFormat.Fits,
         FpFormat.Infinity, Nan.Propagate, Quotient, Pack, Unpack, FlushInput, FlushPair, IsFinite, IsFlushed, FpFormat.IsZero,
         IsQuietened, FpFormat.SignedInfinity, FpFormat.DefaultNan, ActsAsZero, FpFormat.ZeroBits;
    PairReaches(lhs, rhs, context);
  }

  /** What the arithmetic sees of a pair of operands, and the NaN that comes out if there is one. */
  lemma PairReaches(lhs: nat, rhs: nat, context: Context)
    requires context.format.Fits(lhs) && context.format.Fits(rhs)
    ensures var f, control := context.format, context.control;
            var (l, r, denormal) := FlushPair(lhs, rhs, context);
            var propagated := Nan.Propagate([l, r], f, control);
            && denormal == DenormalFlags(lhs, rhs, context)
            && (f.IsInfinite(l) <==> f.IsInfinite(lhs)) && (f.IsInfinite(r) <==> f.IsInfinite(rhs))
            && (f.IsZero(l) <==> ActsAsZero(lhs, context)) && (f.IsZero(r) <==> ActsAsZero(rhs, context))
            && (f.IsInfinite(l) ==> !f.IsZero(l)) && (f.IsInfinite(r) ==> !f.IsZero(r))
            && (f.IsInfinite(lhs) ==> !IsFlushed(lhs, context)) && (f.IsInfinite(rhs) ==> !IsFlushed(rhs, context))
            && f.IsNegative(l) == f.IsNegative(lhs) && f.IsNegative(r) == f.IsNegative(rhs)
            && (propagated.None? <==> !f.IsNan(lhs) && !f.IsNan(rhs))
            && (propagated.Some? ==>
                  var n := if f.IsNan(lhs) then lhs else rhs;
                  && IsQuietened(f, control, n, f.IsNegative(n), propagated.value.bits)
                  && propagated.value.raised == if f.IsSignallingNan(lhs) || f.IsSignallingNan(rhs) then {Invalid} else {})
  {
    hide Pow2, Mag, FpFormat.IsNan, FpFormat.IsInfinite, FpFormat.IsSignallingNan, FpFormat.Magnitude, FpFormat.IsNegative, FpFormat.Fits,
         FpFormat.Infinity, Nan.Propagate, FlushInput, FlushPair, IsFinite, IsFlushed, FpFormat.IsZero, IsQuietened, ActsAsZero;
    var f := context.format;
    var (l, r, _) := FlushPair(lhs, rhs, context);
    OperandClasses(lhs, rhs, context);
    FlushedPair(lhs, rhs, context);
    FlushedInput(lhs, context);
    FlushedInput(rhs, context);
    if f.IsNan(lhs) || f.IsInfinite(lhs) {
      NonFiniteIsKept(lhs, context);
    }
    if f.IsNan(rhs) || f.IsInfinite(rhs) {
      NonFiniteIsKept(rhs, context);
    }
    if f.IsNan(lhs) || f.IsNan(rhs) {
      PairPropagates(l, r, f, context.control);
    } else {
      NoNanAmong(l, r, f, context.control);
    }
  }

  /**
   Fused multiply-add with a NaN or an infinity among its operands.  The first NaN in operand order
   comes out, its sign untouched by the negations; zero times infinity and opposite infinities are
   invalid; an infinite product keeps its sign, and an infinite addend the one it enters with.
   */
  lemma FusedNonFinite(o: FusedOperands, context: Context)
    requires OperandsFit(o, context.format)
    ensures var f := context.format;
            var result := MultiplyAdd(o, context);
            var hasNan := f.IsNan(o.multiplicand) || f.IsNan(o.multiplier) || f.IsNan(o.addend);
            var isInfiniteProduct := f.IsInfinite(o.multiplicand) || f.IsInfinite(o.multiplier);
            var productNegative := (f.IsNegative(o.multiplicand) != f.IsNegative(o.multiplier)) != o.isProductNegated;
            var addendNegative := f.IsNegative(o.addend) != o.isAddendNegated;
            && (hasNan ==>
                  var n := if f.IsNan(o.multiplicand) then o.multiplicand else if f.IsNan(o.multiplier) then o.multiplier else o.addend;
                  && IsQuietened(f, context.control, n, f.IsNegative(n), result.bits)
                  && result.raised == if f.IsSignallingNan(o.multiplicand) || f.IsSignallingNan(o.multiplier)
                                         || f.IsSignallingNan(o.addend) then {Invalid} else {})
            && (!hasNan && isInfiniteProduct && (f.IsZero(o.multiplicand) || f.IsZero(o.multiplier)) ==>
                  result == FpResult(f.DefaultNan(), {Invalid}))
            && (!hasNan && isInfiniteProduct && !f.IsZero(o.multiplicand) && !f.IsZero(o.multiplier) ==>
                  result == if f.IsInfinite(o.addend) && addendNegative != productNegative
                            then FpResult(f.DefaultNan(), {Invalid})
                            else FpResult(f.SignedInfinity(productNegative), {}))
            && (!hasNan && !isInfiniteProduct && f.IsInfinite(o.addend) ==>
                  result == FpResult(f.SignedInfinity(addendNegative), {}))
  {
    hide Pow2, FpFormat.IsNan, FpFormat.IsInfinite, FpFormat.IsSignallingNan, FpFormat.IsNegative, FpFormat.IsZero,
         FpFormat.FlipSign, FpFormat.Infinity, FpFormat.Fits, Nan.Propagate, FpFormat.SignedInfinity, FpFormat.DefaultNan,
         Accumulate, ExactProductOf, ZeroProduct, IsFinite, IsQuietened;
    var f := context.format;
    var operands := [o.multiplicand, o.multiplier, o.addend];
    assert operands[0] == o.multiplicand && operands[1] == o.multiplier && operands[2] == o.addend;
    FlippedClass(f, o.addend);
    NumberOrFinite(f, o.multiplicand);
    NumberOrFinite(f, o.multiplier);
    if f.IsNan(o.multiplicand) || f.IsNan(o.multiplier) || f.IsNan(o.addend) {
      PropagatesFirst(operands, f, context.control,
                      if f.IsNan(o.multiplicand) then 0 else if f.IsNan(o.multiplier) then 1 else 2);
    } else {
      assert Nan.Propagate(operands, f, context.control).None?;
      if f.IsInfinite(o.addend) {
        InfinityBits(f, SignedAddend(o, f));
      }
    }
  }

  /** A zero product of finite operands: the addend as it enters, or a zero whose sign follows section 6.3. */
  lemma FusedZeroProduct(o: FusedOperands, context: Context)
    requires OperandsFinite(o, context.format)
    requires Value(context.format, o.multiplicand) == 0.0 || Value(context.format, o.multiplier) == 0.0
    ensures var f := context.format;
            var result := MultiplyAdd(o, context);
            var productNegative := (f.IsNegative(o.multiplicand) != f.IsNegative(o.multiplier)) != o.isProductNegated;
            var addendNegative := f.IsNegative(o.addend) != o.isAddendNegated;
            && result.raised == {} && IsFinite(f, result.bits)
            && Value(f, result.bits) == AddendValue(o, f)
            && f.IsNegative(result.bits)
               == if Value(f, o.addend) != 0.0 || addendNegative == productNegative then addendNegative
                  else context.rounding == Minus
  {
    hide Pow2, Mag, FpFormat.IsNan, FpFormat.IsInfinite, FpFormat.Magnitude, FpFormat.Infinity, FpFormat.IsNegative, FpFormat.IsZero,
         FpFormat.FlipSign, FpFormat.Fits, FpFormat.ZeroBits, MultiplyAdd, Value, IsFinite, Accumulate, ExactProductOf;
    var f := context.format;
    ZeroProductFactors(Value(f, o.multiplicand), Value(f, o.multiplier));
    FusedDispatch(o, context);
    FlippedOperand(f, o.addend);
    NamedPatterns(f, true);
    NamedPatterns(f, false);
  }

  /** The square root of a NaN, an infinity or a negative number. */
  lemma RootNonFinite(bits: nat, context: Context)
    requires context.format.Fits(bits)
    ensures var f := context.format;
            var result := SquareRootOf(bits, context);
            && (f.IsNan(bits) ==>
                  && IsQuietened(f, context.control, bits, f.IsNegative(bits), result.bits)
                  && result.raised == if f.IsSignallingNan(bits) then {Invalid} else {})
            && (f.IsInfinite(bits) && !f.IsNegative(bits) ==> result == FpResult(f.SignedInfinity(false), {}))
            && (!f.IsNan(bits) && f.IsNegative(bits) && !ActsAsZero(bits, context) ==> result == FpResult(f.DefaultNan(), {Invalid}))
            && (ActsAsZero(bits, context) ==>
                  result == FpResult(f.ZeroBits(f.IsNegative(bits)), DenormalFlags(bits, bits, context)))
  {
    hide Pow2, Mag, FpFormat.IsNan, FpFormat.IsInfinite, FpFormat.IsSignallingNan, FpFormat.IsNegative, FpFormat.Infinity, FpFormat.IsZero,
         FpFormat.Fits, Nan.Propagate, Pack, Unpack, Root, FlushInput, IsFinite, FpFormat.Magnitude, IsQuietened, IsFlushed,
         FpFormat.SignedInfinity, FpFormat.DefaultNan, FpFormat.ZeroBits;
    var f := context.format;
    var (value, denormal) := FlushInput(bits, context);
    FlushedInput(bits, context);
    FlushInputClass(bits, context);
    NumberOrFinite(f, bits);
    var operands := [value];
    assert operands[0] == value;
    ZeroActs(bits, context);
    if f.IsNan(bits) {
      NonFiniteIsKept(bits, context);
      PropagatesFirst(operands, f, context.control, 0);
    } else {
      assert Nan.Propagate(operands, f, context.control).None?;
      if f.IsInfinite(bits) {
        NonFiniteIsKept(bits, context);
        InfinityBits(f, bits);
      }
    }
  }

  /** What acts as zero reaches the operation as the zero of its sign. */
  lemma ZeroActs(bits: nat, context: Context)
    requires context.format.Fits(bits)
    ensures ActsAsZero(bits, context) ==>
              FlushInput(bits, context).0 == context.format.ZeroBits(context.format.IsNegative(bits))
              && !context.format.IsNan(bits) && !context.format.IsInfinite(bits)
  {
    hide Pow2, FpFormat.IsNan, FpFormat.IsInfinite, FpFormat.IsSubnormal, IsTiny;
    FlushedInput(bits, context);
    TinyIsSubnormal(context.format, bits);
    NanIsNotZero(context.format, bits);
    NumberOrFinite(context.format, bits);
    DecodeEncode(context.format, bits);
  }

  /** Rounding a NaN, an infinity or a zero to integral. */
  lemma RoundToIntegralNonFinite(bits: nat, f: FpFormat, rounding: FpRounding, control: FpControl)
    requires f.Fits(bits)
    ensures var result := RoundToIntegral(bits, f, rounding, control);
            && (f.IsNan(bits) ==>
                  && IsQuietened(f, control, bits, f.IsNegative(bits), result.bits)
                  && result.raised == if f.IsSignallingNan(bits) then {Invalid} else {})
            && (f.IsInfinite(bits) || f.IsZero(bits) ==> result == FpResult(bits, {}))
  {
    hide Pow2, FpFormat.IsNan, FpFormat.IsInfinite, FpFormat.IsSignallingNan, FpFormat.IsNegative, FpFormat.IsZero, FpFormat.Fits,
         Nan.Propagate, Unpack, IsQuietened;
    var operands := [bits];
    assert operands[0] == bits;
    NanIsNotZero(f, bits);
    if f.IsNan(bits) {
      PropagatesFirst(operands, f, control, 0);
    } else {
      assert Nan.Propagate(operands, f, control).None?;
    }
  }

  /** Converting a NaN, an infinity or a zero to an integer: zero, the nearest end of the target's range, or zero. */
  lemma ToIntegerNonFinite(bits: nat, f: FpFormat, target: IntFormat, rounding: FpRounding)
    requires f.Fits(bits) && IsIntFormat(target)
    ensures var result := ToInteger(bits, f, target, rounding);
            && (f.IsNan(bits) ==> result == FpResult(0, {Invalid}))
            && (f.IsInfinite(bits) ==>
                  result == FpResult(TwosComplement(if f.IsNegative(bits) then MinInteger(target) else MaxInteger(target), target.bits),
                                     {Invalid}))
            && (f.IsZero(bits) ==> result == FpResult(0, {}))
  {
    hide Pow2, FpFormat.IsNan, FpFormat.IsInfinite, FpFormat.IsNegative, FpFormat.IsZero, FpFormat.Fits, Unpack, IntegralMagnitude,
         Saturate, TwosComplement, MinInteger, MaxInteger;
    NanIsNotZero(f, bits);
    NumberOrFinite(f, bits);
    SaturatedEnds(f.IsNegative(bits), target);
  }

  lemma SaturatedEnds(isNegative: bool, target: IntFormat)
    requires IsIntFormat(target)
    ensures Saturate(isNegative, target) == TwosComplement(if isNegative then MinInteger(target) else MaxInteger(target), target.bits)
  {
    hide Pow2;
    var b, p, w := target.bits, Pow2(target.bits), Pow2(64);
    var half: int := Pow2(b - 1);
    Pow2Double(b - 1);
    Pow2Monotone(b, 64);
    Pow2Add(64 - b, b);
    DivModUnique(0, p, 0, 0);
    DivModUnique(p / 2, p, 0, p / 2);
    DivModUnique(p / 2 - 1, p, 0, p / 2 - 1);
    DivModUnique(p - 1, p, 0, p - 1);
    DivModUnique(0 - half, p, -1, half);
    Distribute(Pow2(64 - b) - 1, p);
    DivModUnique(w - 1, p, Pow2(64 - b) - 1, p - 1);
  }

  function MovedPayload(payload: nat, source: FpFormat, target: FpFormat): nat {
    if target.MantissaBits() >= source.MantissaBits() then payload * Pow2(target.MantissaBits() - source.MantissaBits())
    else ShiftRight(payload, source.MantissaBits() - target.MantissaBits())
  }

  lemma ConvertedPayload(bits: nat, source: FpFormat, target: FpFormat, control: FpControl)
    requires source.Fits(bits) && source.IsNan(bits) && !control.isDefaultNan
    ensures target.MantissaField(ConvertNan(bits, source, target, control).bits)
         == Pow2(target.MantissaBits() - 1)
            + LowBits(MovedPayload(source.MantissaField(bits), source, target), target.MantissaBits() - 1)
  {
    hide Pow2, FpFormat.IsNan, FpFormat.Infinity, FpFormat.MantissaField, FpFormat.Fits, FpFormat.IsNegative, ShiftRight, LowBits,
         FpFormat.SignBit, FpFormat.QuietBit, FpFormat.IsSignallingNan;
    QuietBitIs(target);
    var low := LowBits(MovedPayload(source.MantissaField(bits), source, target), target.MantissaBits() - 1);
    LowPayload(MovedPayload(source.MantissaField(bits), source, target), target);
    Nan.NanOfMagnitude(target, source.IsNegative(bits), target.QuietBit() + low);
  }

  lemma LowPayload(payload: nat, f: FpFormat)
    ensures LowBits(payload, f.MantissaBits() - 1) < f.QuietBit()
    ensures 0 < f.QuietBit() + LowBits(payload, f.MantissaBits() - 1) < Pow2(f.MantissaBits())
  {
    hide Pow2;
    QuietBitIs(f);
    ShiftSplit(payload, f.MantissaBits() - 1);
    Pow2Double(f.MantissaBits() - 1);
  }

  /** A conversion keeps a NaN's payload left-aligned: scaled up when widening, cut off below when narrowing. */
  lemma ConvertKeepsPayload(bits: nat, source: FpFormat, target: FpFormat, control: FpControl, rounding: FpRounding)
    requires source.Fits(bits) && source.IsNan(bits) && !control.isDefaultNan
    ensures var moved := target.MantissaField(Convert(bits, source, target, control, rounding).bits);
            var quiet := QuietPayload(source, source.MantissaField(bits));
            && (target.MantissaBits() >= source.MantissaBits() ==>
                  moved == quiet * Pow2(target.MantissaBits() - source.MantissaBits()))
            && (target.MantissaBits() < source.MantissaBits() ==>
                  moved == ShiftRight(quiet, source.MantissaBits() - target.MantissaBits()))
  {
    hide Pow2, FpFormat.IsNan, FpFormat.MantissaField, FpFormat.Fits, ShiftRight, LowBits, ConvertNan;
    ConvertedPayload(bits, source, target, control);
    var m, n, t := source.MantissaBits(), target.MantissaBits(), source.MantissaField(bits);
    if n >= m {
      RaisedPayload(t, m - 1, n - m);
    } else {
      CutPayload(t, n - 1, m - n);
    }
  }

  lemma RaisedPayload(t: nat, k: nat, d: nat)
    ensures Pow2(k + d) + LowBits(t * Pow2(d), k + d) == (Pow2(k) + LowBits(t, k)) * Pow2(d)
  {
    hide Pow2;
    Pow2Add(k, d);
    ResidueOfScaled(t, Pow2(k), Pow2(d));
    assert (Pow2(k) + t % Pow2(k)) * Pow2(d) == Pow2(k) * Pow2(d) + t % Pow2(k) * Pow2(d);
  }

  lemma CutPayload(t: nat, k: nat, d: nat)
    ensures Pow2(k) + LowBits(ShiftRight(t, d), k) == ShiftRight(Pow2(k + d) + LowBits(t, k + d), d)
  {
    hide Pow2;
    Pow2Add(k, d);
    CutResidue(t, Pow2(k), Pow2(d));
  }

  lemma CutResidue(t: nat, a: nat, b: nat)
    requires a > 0 && b > 0
    ensures a * b > 0
    ensures a + DivideNat(t, b) % a == DivideNat(a * b + t % (a * b), b)
  {
    ProductPositiveNat(a, b);
    var q, r := DivideNat(t, b), t % b;
    var p, s := DivideNat(q, a), q % a;
    DivBounds(t, b);
    DivBounds(q, a);
    hide DivideNat;
    TwoLevels(t, p, a, s, b, r);
    DivModUnique(t, a * b, p, s * b + r);
    QuotientIs(a * b + (s * b + r), b, a + s, r);
  }

  lemma QuotientIs(n: nat, d: nat, q: nat, r: nat)
    requires n == q * d + r && r < d
    ensures DivideNat(n, d) == q
  {
    DivModUnique(n, d, q, r);
  }

  lemma TwoLevels(t: nat, p: nat, a: nat, s: nat, b: nat, r: nat)
    requires t == (p * a + s) * b + r && s < a && r < b
    ensures t == p * (a * b) + (s * b + r) && s * b + r < a * b
    ensures a * b + (s * b + r) == (a + s) * b + r
  {
    assert (p * a + s) * b == p * a * b + s * b;
    MulAssoc(p, a, b);
    MulMonotone(s + 1, a, b);
    assert (s + 1) * b == s * b + b;
    assert (a + s) * b == a * b + s * b;
  }

  /** Zeroes of either sign: the maximum is negative only if both are, the minimum if either is. */
  lemma ExtremumOfZeroes(lhs: nat, rhs: nat, which: Compare.Extremum, f: FpFormat, control: FpControl)
    requires f.Fits(lhs) && f.Fits(rhs) && Value(f, lhs) == 0.0 && Value(f, rhs) == 0.0 && IsFinite(f, lhs) && IsFinite(f, rhs)
    ensures var r := Compare.ExtremumOf(lhs, rhs, which, f, control);
            && f.IsNegative(r.bits)
               == if which == Compare.Max || which == Compare.MaxNum then f.IsNegative(lhs) && f.IsNegative(rhs)
                  else f.IsNegative(lhs) || f.IsNegative(rhs)
  {
    hide Pow2, Mag, FpFormat.IsNan, FpFormat.IsNegative, FpFormat.Magnitude, FpFormat.Infinity, FpFormat.Fits, FpFormat.ZeroBits,
         Compare.NumericNanCase, Nan.Propagate;
    NumberOrFinite(f, lhs);
    NumberOrFinite(f, rhs);
    MagNonNegative(f, f.Magnitude(lhs));
    MagNonNegative(f, f.Magnitude(rhs));
    Compare.NumbersHaveNoNan(lhs, rhs, which, f, control);
    NamedPatterns(f, true);
    NamedPatterns(f, false);
  }

  /** A NaN among the operands of an extremum that does not ignore it: the first one, quietened. */
  lemma ExtremumKeepsFirstNan(lhs: nat, rhs: nat, which: Compare.Extremum, f: FpFormat, control: FpControl)
    requires f.Fits(lhs) && f.Fits(rhs) && (f.IsNan(lhs) || f.IsNan(rhs))
    requires which == Compare.Max || which == Compare.Min || f.IsSignallingNan(lhs) || f.IsSignallingNan(rhs)
             || (f.IsNan(lhs) && f.IsNan(rhs))
    ensures var n := if f.IsNan(lhs) then lhs else rhs;
            IsQuietened(f, control, n, f.IsNegative(n), Compare.ExtremumOf(lhs, rhs, which, f, control).bits)
  {
    hide Pow2, FpFormat.IsNan, FpFormat.IsSignallingNan, FpFormat.Fits, FpFormat.IsNegative, Nan.Propagate, IsQuietened;
    assert lhs in [lhs, rhs] && rhs in [lhs, rhs];
    PairPropagates(lhs, rhs, f, control);
  }
}
