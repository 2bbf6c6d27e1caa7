/**
 Conversion between floating-point formats (crates/core/src/fp/softfloat/convert.rs:13-89).
 */
module ConvertFormat {
  import opened Powers
  import opened Formats
  import opened Rounding
  import opened Decompose
  import opened Arithmetic
  import opened MultiplyDivide

  function Convert(bits: nat, source: FpFormat, target: FpFormat, control: FpControl, rounding: FpRounding): FpResult {
    if source.IsNan(bits) then ConvertNan(bits, source, target, control)
    else if source.IsInfinite(bits) then Exactly(target.SignedInfinity(source.IsNegative(bits)))
    else if source.IsZero(bits) then Exactly(target.ZeroBits(source.IsNegative(bits)))
    else
      var (value, isSticky) := Rescaled(Unpack(bits, source), source, target);
      RoundAndPack(value, target, RoundingContext(rounding, isSticky, control))
  }

  function Rescaled(value: Unpacked, source: FpFormat, target: FpFormat): (Unpacked, bool) {
    var (significand, isSticky) := Rescale(value.significand, source, target);
    (value.(significand := significand), isSticky)
  }

  /** A significand at one format's scale, re-expressed at another's; the flag says the value changed. */
  function Rescale(significand: nat, source: FpFormat, target: FpFormat): (nat, bool) {
    var from, to := SignificandScale(source), SignificandScale(target);
    if to >= from then (significand * Pow2(to - from), false)
    else (ShiftRight(significand, from - to), LowBits(significand, from - to) != 0)
  }

  /** The payload is left-aligned in both formats; a conversion quietens it. */
  function ConvertNan(bits: nat, source: FpFormat, target: FpFormat, control: FpControl): FpResult {
    var raised: FpExceptions := if source.IsSignallingNan(bits) then {Invalid} else {};
    if control.isDefaultNan then FpResult(target.DefaultNan(), raised)
    else
      var payload := source.MantissaField(bits);
      var moved :=
        if target.MantissaBits() >= source.MantissaBits()
        then payload * Pow2(target.MantissaBits() - source.MantissaBits())
        else ShiftRight(payload, source.MantissaBits() - target.MantissaBits());
      FpResult(target.SignBit(source.IsNegative(bits)) + target.Infinity() + target.QuietBit()
               + LowBits(moved, target.MantissaBits() - 1), raised)
  }

  // ----- correct rounding -----

  lemma RescaledMeaning(u: Unpacked, source: FpFormat, target: FpFormat, v: real)
    requires IsNormalised(u, source) && u.significand > 0
    requires v == Scale(u.significand, u.exponent - SignificandScale(source))
    ensures var (value, isSticky) := Rescaled(u, source, target);
            && Brackets(v, value.significand, isSticky, value.exponent - SignificandScale(target))
            && value.significand >= Pow2(SignificandScale(target))
            && value.isNegative == u.isNegative
  {
    hide Pow2, Scale, ShiftRight, LowBits;
    var from, to := SignificandScale(source), SignificandScale(target);
    if to >= from {
      ScaleShift(u.significand, to - from, u.exponent - to);
      Pow2Add(from, to - from);
      MulMonotone(Pow2(from), u.significand, Pow2(to - from));
    } else {
      BracketShift(v, u.significand, false, u.exponent - from, from - to);
      NarrowedLeading(u.significand, from, to);
    }
  }

  /** Moving a significand between scales keeps it in a 64-bit word. */
  lemma RescaleFitsWord(u: Unpacked, source: FpFormat, target: FpFormat)
    requires IsNormalised(u, source)
    ensures Rescale(u.significand, source, target).0 < Pow2(64)
  {
    hide Pow2, ShiftRight, LowBits;
    var from, to := SignificandScale(source), SignificandScale(target);
    ScaleBounds(target);
    Pow2Double(from);
    Pow2Monotone(to + 1, 64);
    Pow2Monotone(0, from + 1);
    Pow2Small();
    if to >= from {
      RaisedBelow(u.significand, to - from, from + 1);
    } else {
      ShiftedBelow(u.significand, from - to, to + 1);
    }
  }

  lemma NarrowedLeading(n: nat, from: nat, to: nat)
    requires n >= Pow2(from) && to <= from
    ensures ShiftRight(n, from - to) >= Pow2(to)
  {
    hide Pow2;
    Pow2Add(to, from - to);
    DivAtLeast(n, Pow2(from - to), Pow2(to));
  }

  lemma FiniteIsNotSpecial(f: FpFormat, bits: nat)
    requires IsFinite(f, bits)
    ensures !f.IsNan(bits) && !f.IsInfinite(bits)
    ensures f.IsZero(bits) <==> Value(f, bits) == 0.0
    ensures Value(f, bits) < 0.0 ==> f.IsNegative(bits)
    ensures Value(f, bits) > 0.0 ==> !f.IsNegative(bits)
  {
    hide Pow2, FpFormat.IsNan, FpFormat.IsInfinite, FpFormat.Magnitude, FpFormat.Fits, Mag;
    NotSpecialIsFinite(f, bits);
    MagNonNegative(f, f.Magnitude(bits));
  }

  /** Conversion of a finite value rounds it once, and keeps a zero's sign. */
  lemma ConvertRounds(bits: nat, source: FpFormat, target: FpFormat, control: FpControl, rounding: FpRounding)
    returns (rounded: FpResult)
    requires IsFinite(source, bits)
    ensures var x := Value(source, bits);
            && (x != 0.0 ==>
                  && Packs(target, rounding, x, rounded)
                  && Convert(bits, source, target, control, rounding) == ApplyFlushToZero(rounded, target, control))
            && (x == 0.0 ==>
                  Convert(bits, source, target, control, rounding) == Exactly(target.ZeroBits(source.IsNegative(bits))))
  {
    hide Pow2, Mag, Value, Unpack, PackUnflushed, Brackets, ApplyFlushToZero, Packs, Rescaled, Signed,
         FpFormat.IsNegative, FpFormat.IsNan, FpFormat.IsInfinite, FpFormat.Magnitude, FpFormat.Fits, FpFormat.IsZero;
    var x := Value(source, bits);
    FiniteIsNotSpecial(source, bits);
    rounded := Exactly(0);
    if x != 0.0 {
      UnpackedValue(source, bits);
      var u := Unpack(bits, source);
      UnpackedMagnitude(u, source);
      RescaledMeaning(u, source, target, Abs(x));
      var (value, isSticky) := Rescaled(u, source, target);
      var rc := RoundingContext(rounding, isSticky, control);
      PackingOfBracketed(x, value, target, rc);
      rounded := PackUnflushed(value, target, rc);
    }
  }

  lemma UnpackedMagnitude(u: Unpacked, f: FpFormat)
    requires u.significand > 0
    ensures Abs(Signed(u, f)) == Scale(u.significand, u.exponent - SignificandScale(f))
  {
    hide Scale;
    ScalePositive(u.significand, u.exponent - SignificandScale(f));
  }

  /** Without flushing, a conversion is correctly rounded exactly when its carry is not lost. */
  lemma ConvertCorrectIff(bits: nat, source: FpFormat, target: FpFormat, control: FpControl, rounding: FpRounding)
    requires IsFinite(source, bits) && Value(source, bits) != 0.0 && !IsFlushing(target, control)
    ensures var x, r := Value(source, bits), Convert(bits, source, target, control, rounding);
            && (RoundsTo(target, rounding, x, r.bits) <==> !CarryLost(target, rounding, x))
            && r.raised == FlagsOf(target, rounding, x)
  {
    hide Pow2, Value, Packs, RoundsTo, CarryLost, FlagsOf, Convert, FpFormat.IsSubnormal;
    var rounded := ConvertRounds(bits, source, target, control, rounding);
    PacksMeaning(target, rounding, Value(source, bits), rounded);
  }

  // ----- widening is exact -----

  predicate IsWider(source: FpFormat, target: FpFormat) {
    source.MantissaBits() < target.MantissaBits()
  }

  lemma WiderGeometry(source: FpFormat, target: FpFormat)
    requires IsWider(source, target)
    ensures QuantumExponent(source) >= MinimumExponent(target)
    ensures source.ExponentBias() <= target.ExponentBias()
  {
    Geometry(source);
    Geometry(target);
  }

  lemma WidenedSignificand(t: nat, m: nat, k: nat)
    requires Pow2(m) <= t < 2 * Pow2(m)
    ensures Pow2(m + k) <= t * Pow2(k) < 2 * Pow2(m + k)
  {
    hide Pow2;
    Pow2Add(m, k);
    MulMonotone(Pow2(m), t, Pow2(k));
    ProductBelow(t, 2 * Pow2(m), Pow2(k));
    MulAssoc(2, Pow2(m), Pow2(k));
  }

  /** A significand of the format's width in its exponent range is a normal number. */
  lemma NormalRepresentable(f: FpFormat, v: real, e: int, t: nat) returns (c: nat)
    requires MinimumExponent(f) <= e <= f.ExponentBias()
    requires Pow2(f.MantissaBits()) <= t < 2 * Pow2(f.MantissaBits()) && v == Scale(t, e - f.MantissaBits())
    ensures Pow2(f.MantissaBits()) <= c < f.Infinity() && Mag(f, c) == v
  {
    hide Pow2, Scale, Mag, FpFormat.MantissaBits, FpFormat.ExponentBias, FpFormat.Infinity;
    var biased, p := e + f.ExponentBias(), Pow2(f.MantissaBits());
    c := biased * p + (t - p);
    MagOfNormal(f, biased, t);
    assert QuantumExponent(f) + biased - 1 == e - f.MantissaBits();
    PatternBelowInfinity(f, biased, t);
    MulMonotone(1, biased, p);
  }

  /** Every finite value of a narrower format is a normal number of a wider one. */
  lemma WiderRepresentable(bits: nat, source: FpFormat, target: FpFormat) returns (c: nat)
    requires IsFinite(source, bits) && Value(source, bits) != 0.0 && IsWider(source, target)
    ensures c < target.Infinity() && Mag(target, c) == Abs(Value(source, bits))
    ensures Pow2(target.MantissaBits()) <= c
  {
    hide Pow2, Scale, Mag, Value, Unpack, FpFormat.Magnitude, FpFormat.MantissaBits, FpFormat.ExponentBias, Signed,
         FpFormat.Infinity;
    var ms, mt := source.MantissaBits(), target.MantissaBits();
    FiniteIsNotSpecial(source, bits);
    UnpackedValue(source, bits);
    UnpackExact(source, bits);
    var u := Unpack(bits, source);
    UnpackedMagnitude(u, source);
    WiderGeometry(source, target);
    var t := u.significand / 8;
    EighthOfScale(source);
    WidenedSignificand(t, ms, mt - ms);
    ScaleShift(t, mt - ms, u.exponent - mt);
    ScaleShift(t, 3, u.exponent - SignificandScale(source));
    Pow2Small();
    c := NormalRepresentable(target, Abs(Value(source, bits)), u.exponent, t * Pow2(mt - ms));
  }

  /** Packing a representable value is exact. */
  lemma PacksExactly(f: FpFormat, mode: FpRounding, x: real, c: nat, r: FpResult)
    requires x != 0.0 && Packs(f, mode, x, r) && c < f.Infinity() && Mag(f, c) == Abs(x)
    ensures r == Exactly(f.Encode(x < 0.0, c))
  {
    hide Pow2, Mag, RoundsMagnitude, FpFormat.Infinity, LosesCarry;
    var rule := RuleFor(mode, x < 0.0);
    var b: nat :| IsPackingOf(f, rule, x < 0.0, Abs(x), b, r);
    RepresentableIsFixed(f, rule, c);
    RoundingUnique(f, rule, Abs(x), b, c);
    ExactNeverLosesCarry(f, Abs(x), b);
  }

  /** Widening keeps the exact value and raises nothing, whatever the mode and the flushing. */
  lemma WideningExact(bits: nat, source: FpFormat, target: FpFormat, control: FpControl, rounding: FpRounding)
    requires IsFinite(source, bits) && IsWider(source, target)
    ensures var r := Convert(bits, source, target, control, rounding);
            && IsFinite(target, r.bits) && Value(target, r.bits) == Value(source, bits)
            && target.IsNegative(r.bits) == source.IsNegative(bits) && r.raised == {}
  {
    hide Pow2, Mag, Packs, FpFormat.Infinity, FpFormat.IsNegative, FpFormat.Magnitude, FpFormat.IsSubnormal, Convert;
    var x := Value(source, bits);
    var rounded := ConvertRounds(bits, source, target, control, rounding);
    FiniteIsNotSpecial(source, bits);
    Layout(target);
    if x == 0.0 {
      SignAndMagnitude(target, source.IsNegative(bits), 0);
      MagZero(target);
    } else {
      var c := WiderRepresentable(bits, source, target);
      PacksExactly(target, rounding, x, c, rounded);
      SignAndMagnitude(target, x < 0.0, c);
      Classification(target, rounded.bits);
    }
  }

  /** Narrowing after widening gives every finite value back, in any pair of modes. */
  lemma WidenNarrowRoundTrip(bits: nat, source: FpFormat, target: FpFormat, control: FpControl,
                             wideRounding: FpRounding, narrowRounding: FpRounding)
    requires IsFinite(source, bits) && IsWider(source, target) && !IsFlushing(source, control)
    ensures var wide := Convert(bits, source, target, control, wideRounding).bits;
            Convert(wide, target, source, control, narrowRounding) == Exactly(bits)
  {
    hide Pow2, Mag, Packs, FpFormat.Infinity, FpFormat.IsNegative, FpFormat.Magnitude, FpFormat.IsSubnormal, Convert;
    WideningExact(bits, source, target, control, wideRounding);
    var wide := Convert(bits, source, target, control, wideRounding).bits;
    var x := Value(source, bits);
    var rounded := ConvertRounds(wide, target, source, control, narrowRounding);
    DecodeEncode(source, bits);
    FiniteIsNotSpecial(source, bits);
    if x == 0.0 {
      MagNonNegative(source, source.Magnitude(bits));
    } else {
      MagNonNegative(source, source.Magnitude(bits));
      PacksExactly(source, narrowRounding, x, source.Magnitude(bits), rounded);
    }
  }

  /** A conversion that loses its carry: the single 2047 * 2^-25 is half a quantum below the smallest normal half. */
  lemma ConvertLosesCarry() returns (bits: nat, control: FpControl)
    ensures bits == 0x387f_e000 && control == FpControl(false, false, false) && IsFinite(Single, bits)
    ensures var x := Value(Single, bits);
            && x == Scale(2047, -25) && CarryLost(Half, Nearest, x)
            && RoundsTo(Half, Nearest, x, 0x0400) && Convert(bits, Single, Half, control, Nearest).bits == 0x0200
  {
    hide Pow2, Mag, Value, Convert, Packs, RoundsTo, FpFormat.IsSubnormal, Scale, CarryLost, IsFinite;
    bits, control := 0x387f_e000, FpControl(false, false, false);
    SingleTie();
    ScalePositive(2047, -25);
    var rounded := ConvertRounds(bits, Single, Half, control, Nearest);
    TieIsHalved(rounded);
  }

  lemma SingleTie()
    ensures IsFinite(Single, 0x387f_e000) && Value(Single, 0x387f_e000) == Scale(2047, -25)
  {
    SingleGeometry();
    hide Pow2, Scale, Mag;
    MagOfNormal(Single, 112, 0xff_e000);
    ScaleShift(2047, 13, -38);
  }

  lemma SingleGeometry()
    ensures Pow2(13) == 0x2000 && Pow2(23) == 0x80_0000 && Pow2(31) == 0x8000_0000 && Pow2(32) == 0x1_0000_0000
    ensures Single.Infinity() == 0x7f80_0000 && QuantumExponent(Single) == -149
  {
    Geometry(Single);
    assert Pow2(13) == 0x2000;
    hide Pow2;
    Pow2Small();
    Pow2Add(13, 3);
    Pow2Add(16, 3);
    Pow2Double(19);
    Pow2Double(20);
    Pow2Double(21);
    Pow2Double(22);
    Pow2Add(16, 15);
    Pow2Add(13, 2);
    Pow2Double(31);
  }
}
