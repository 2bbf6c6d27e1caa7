/** NaN propagation (crates/core/src/fp/softfloat/nan.rs). */
module Nan {
  import opened Options
  import opened Powers
  import opened Formats

  /** The result an operation with a NaN operand must produce, if there is one. */
  function Propagate(operands: seq<nat>, f: FpFormat, control: FpControl): (r: Option<FpResult>)
    ensures r.None? <==> !AnyNan(operands, f)
  {
    match FirstNan(operands, f)
    case None => None
    case Some(bits) =>
      Some(FpResult(QuietResult(bits, f, control), if SignallingAmong(operands, f) then {Invalid} else {}))
  }

  function FirstNan(operands: seq<nat>, f: FpFormat): (r: Option<nat>)
    ensures r.None? <==> !AnyNan(operands, f)
    ensures r.Some? ==> r.value in operands && f.IsNan(r.value)
  {
    if operands == [] then None
    else if f.IsNan(operands[0]) then Some(operands[0])
    else FirstNan(operands[1..], f)
  }

  function InvalidOperation(f: FpFormat): FpResult {
    FpResult(f.DefaultNan(), {Invalid})
  }

  function QuietResult(bits: nat, f: FpFormat, control: FpControl): nat {
    if control.isDefaultNan then f.DefaultNan() else f.Quieten(bits)
  }

  predicate SignallingAmong(operands: seq<nat>, f: FpFormat) {
    exists bits :: bits in operands && f.IsSignallingNan(bits)
  }

  predicate AnyNan(operands: seq<nat>, f: FpFormat) {
    exists bits :: bits in operands && f.IsNan(bits)
  }

  // ----- a propagated NaN is quiet -----

  /** The quiet bit of a NaN is the top bit of its mantissa field. */
  lemma QuietBitOfNan(f: FpFormat, bits: nat)
    requires f.Fits(bits) && f.IsNan(bits)
    ensures f.IsSignallingNan(bits) <==> f.MantissaField(bits) < f.QuietBit()
    ensures Pow2(f.MantissaBits()) == 2 * f.QuietBit()
    ensures f.Magnitude(bits) == f.Infinity() + f.MantissaField(bits)
  {
    hide Pow2, FpFormat.Magnitude, FpFormat.Fits, FpFormat.MaxExponent;
    FieldsOfMagnitude(f, bits);
    Pow2Double(f.MantissaBits() - 1);
    HalvedField(bits, f.QuietBit(), Pow2(f.MantissaBits()));
  }

  lemma HalvedField(n: nat, half: nat, whole: nat)
    requires half > 0 && whole == 2 * half
    ensures n / half % 2 == 0 <==> n % whole < half
  {
    TiledFields(n, half, 2, whole);
    QuotientIsZero(n % whole, half);
  }

  lemma QuotientIsZero(t: nat, half: nat)
    requires half > 0
    ensures t / half == 0 <==> t < half
  {
    DivBounds(t, half);
    if t < half {
      DivModUnique(t, half, 0, t);
    }
  }

  lemma NanOfMagnitude(f: FpFormat, isNegative: bool, t: nat)
    requires 0 < t < Pow2(f.MantissaBits())
    ensures var bits := f.Encode(isNegative, f.Infinity() + t);
            f.Fits(bits) && f.IsNan(bits) && f.MantissaField(bits) == t
  {
    hide Pow2;
    Layout(f);
    SignAndMagnitude(f, isNegative, f.Infinity() + t);
    var bits := f.Encode(isNegative, f.Infinity() + t);
    FieldsOfMagnitude(f, bits);
    DivModUnique(f.Infinity() + t, Pow2(f.MantissaBits()), f.MaxExponent(), t);
  }

  lemma QuietResultIsQuietNan(bits: nat, f: FpFormat, control: FpControl)
    requires f.Fits(bits) && f.IsNan(bits)
    ensures var q := QuietResult(bits, f, control); f.Fits(q) && f.IsNan(q) && !f.IsSignallingNan(q)
  {
    hide Pow2, FpFormat.IsNan, FpFormat.IsSignallingNan, FpFormat.Infinity, FpFormat.IsNegative, FpFormat.Fits, FpFormat.QuietBit,
         FpFormat.MantissaField, FpFormat.Magnitude;
    var t := f.MantissaField(bits);
    QuietBitOfNan(f, bits);
    DecodeEncode(f, bits);
    QuietBitPositive(f);
    if control.isDefaultNan {
      NanOfMagnitude(f, false, f.QuietBit());
      QuietBitOfNan(f, f.DefaultNan());
    } else if f.IsSignallingNan(bits) {
      NanOfMagnitude(f, f.IsNegative(bits), t + f.QuietBit());
      QuietBitOfNan(f, f.Quieten(bits));
    }
  }

  lemma QuietBitPositive(f: FpFormat)
    ensures f.QuietBit() > 0
  {
  }

  /** Whatever NaN is propagated, the result is a quiet NaN, and invalid is raised for signalling operands only. */
  lemma PropagatedIsQuietNan(operands: seq<nat>, f: FpFormat, control: FpControl)
    requires forall bits :: bits in operands ==> f.Fits(bits)
    ensures match Propagate(operands, f, control)
            case None => !AnyNan(operands, f)
            case Some(r) =>
              && f.Fits(r.bits) && f.IsNan(r.bits) && !f.IsSignallingNan(r.bits)
              && r.raised == if SignallingAmong(operands, f) then {Invalid} else {}
  {
    hide Pow2, FpFormat.IsNan, FpFormat.IsSignallingNan, FpFormat.Fits, QuietResult;
    match FirstNan(operands, f)
    case None =>
    case Some(bits) => QuietResultIsQuietNan(bits, f, control);
  }
}
