/**
 Rounding to an integral value, and conversion to and from integers
 (crates/core/src/fp/softfloat/convert.rs:91-386).
 */
module IntegerConversion {
  import opened Options
  import opened Powers
  import opened Formats
  import opened Rounding
  import opened Decompose
  import opened Arithmetic
  import opened ConvertFormat
  import opened MultiplyDivide
  import Nan

  // ----- rounding to an integral value -----

  function RoundToIntegral(bits: nat, f: FpFormat, rounding: FpRounding, control: FpControl): FpResult {
    match Nan.Propagate([bits], f, control)
    case Some(result) => result
    case None =>
      if f.IsInfinite(bits) || f.IsZero(bits) then Exactly(bits)
      else
        var value := Unpack(bits, f);
        if value.exponent >= SignificandScale(f) then Exactly(bits)
        else
          match RoundSignificandToInteger(value, SignificandScale(f), rounding)
          case None => Exactly(f.ZeroBits(value.isNegative))
          case Some(integral) => RoundAndPack(integral, f, RoundingContext(rounding, false, control))
  }

  /** The value rounded to an integer, still unpacked; `None` means that nothing is left of it. */
  function RoundSignificandToInteger(value: Unpacked, scale: nat, rounding: FpRounding): Option<Unpacked>
    requires value.exponent < scale
  {
    var shift := scale - value.exponent;
    if shift >= 64 then
      if IsDirectedAway(rounding, value.isNegative) then Some(value.(exponent := 0, significand := Pow2(scale))) else None
    else
      var truncated, remainder := ShiftRight(value.significand, shift), LowBits(value.significand, shift);
      var isAway := remainder != 0 && RoundsAway(truncated, remainder, shift, rounding, value.isNegative);
      var integral := truncated + if isAway then 1 else 0;
      if integral == 0 then None else Some(value.(significand := integral * Pow2(shift)))
  }

  predicate IsDirectedAway(rounding: FpRounding, isNegative: bool) {
    (rounding == Plus && !isNegative) || (rounding == Minus && isNegative)
  }

  predicate RoundsAway(truncated: nat, remainder: nat, shift: nat, rounding: FpRounding, isNegative: bool)
    requires shift > 0
  {
    var half := Pow2(shift - 1);
    match rounding
    case Nearest => remainder > half || (remainder == half && truncated % 2 == 1)
    case NearestAway => remainder >= half
    case Zero => false
    case Plus => !isNegative
    case Minus => isNegative
    case Odd => truncated % 2 == 0
  }

  // ----- to an integer -----

  datatype IntFormat = IntFormat(bits: nat, isSigned: bool)

  /** The four integer formats an encoding can name. */
  predicate IsIntFormat(target: IntFormat) {
    target.bits == 32 || target.bits == 64
  }

  function ToInteger(bits: nat, f: FpFormat, target: IntFormat, rounding: FpRounding): FpResult
    requires IsIntFormat(target)
  {
    if f.IsNan(bits) then FpResult(0, {Invalid})
    else if f.IsInfinite(bits) then FpResult(Saturate(f.IsNegative(bits), target), {Invalid})
    else if f.IsZero(bits) then Exactly(0)
    else
      var (magnitude, isInexact) := IntegralMagnitude(Unpack(bits, f), SignificandScale(f), rounding);
      EncodeInteger(magnitude, f.IsNegative(bits), isInexact, target)
  }

  /** The rounded magnitude in a 128-bit word, and whether rounding lost anything. */
  function IntegralMagnitude(value: Unpacked, scale: nat, rounding: FpRounding): (nat, bool) {
    if value.exponent >= scale then
      if value.exponent - scale >= 128 then (Pow2(128) - 1, false)
      else (LowBits(value.significand * Pow2(value.exponent - scale), 128), false)
    else
      var shift := scale - value.exponent;
      if shift >= 64 then (if IsDirectedAway(rounding, value.isNegative) then 1 else 0, true)
      else
        var truncated, remainder := ShiftRight(value.significand, shift), LowBits(value.significand, shift);
        if remainder == 0 then (truncated, false)
        else (truncated + if RoundsAway(truncated, remainder, shift, rounding, value.isNegative) then 1 else 0, true)
  }

  function EncodeInteger(magnitude: nat, isNegative: bool, isInexact: bool, target: IntFormat): FpResult
    requires IsIntFormat(target)
  {
    if !target.isSigned && isNegative then FpResult(0, {Invalid})
    else if magnitude > MagnitudeLimit(isNegative, target) then FpResult(Saturate(isNegative, target), {Invalid})
    else
      FpResult(MaskToWidth(if isNegative then WrappingNeg(LowBits(magnitude, 64)) else LowBits(magnitude, 64), target),
               if isInexact then {Inexact} else {})
  }

  /** `u64::wrapping_neg`. */
  function WrappingNeg(n: nat): nat {
    LowBits(if n % Pow2(64) == 0 then 0 else Pow2(64) - n % Pow2(64), 64)
  }

  function MagnitudeLimit(isNegative: bool, target: IntFormat): nat
    requires IsIntFormat(target)
  {
    if !target.isSigned then Pow2(target.bits) - 1
    else if isNegative then Pow2(target.bits - 1)
    else Pow2(target.bits - 1) - 1
  }

  function Saturate(isNegative: bool, target: IntFormat): nat
    requires IsIntFormat(target)
  {
    MaskToWidth(
      if !target.isSigned then (if isNegative then 0 else Pow2(64) - 1)
      else if isNegative then Pow2(target.bits - 1)
      else Pow2(target.bits - 1) - 1,
      target)
  }

  function MaskToWidth(value: nat, target: IntFormat): nat {
    if target.bits >= 64 then value else LowBits(value, target.bits)
  }

  // ----- from an integer -----

  function FromInteger(value: nat, source: IntFormat, target: FpFormat, rounding: FpRounding, control: FpControl): FpResult
    requires IsIntFormat(source)
  {
    var (magnitude, isNegative) := MagnitudeOf(value, source);
    if magnitude == 0 then Exactly(target.ZeroBits(false))
    else
      var (unpacked, isSticky) := AlignInteger(magnitude, isNegative, SignificandScale(target));
      RoundAndPack(unpacked, target, RoundingContext(rounding, isSticky, control))
  }

  /** The leading bit of the magnitude brought to the implicit-bit position. */
  function AlignInteger(magnitude: nat, isNegative: bool, scale: nat): (Unpacked, bool)
    requires magnitude > 0
  {
    var leading := BitLength(magnitude) - 1;
    if leading <= scale then (Unpacked(isNegative, leading, magnitude * Pow2(scale - leading)), false)
    else (Unpacked(isNegative, leading, ShiftRight(magnitude, leading - scale)), LowBits(magnitude, leading - scale) != 0)
  }

  function MagnitudeOf(value: nat, source: IntFormat): (nat, bool)
    requires IsIntFormat(source)
  {
    var masked := MaskToWidth(value, source);
    if !source.isSigned || masked / Pow2(source.bits - 1) % 2 == 0 then (masked, false)
    else (MaskToWidth(WrappingNeg(masked), source), true)
  }

  /** Aligning a 64-bit magnitude, up or down, stays within 64 bits. */
  lemma AlignIntegerFitsWord(magnitude: nat, isNegative: bool, f: FpFormat)
    requires 0 < magnitude < Pow2(64)
    ensures AlignInteger(magnitude, isNegative, SignificandScale(f)).0.significand < Pow2(64)
  {
    hide Pow2, ShiftRight, LowBits, BitLength;
    var s, leading := SignificandScale(f), BitLength(magnitude) - 1;
    ScaleBounds(f);
    BitLengthBounds(magnitude);
    Pow2Monotone(s + 1, 64);
    if leading <= s {
      RaisedBelow(magnitude, s - leading, leading + 1);
    } else {
      ShiftedBelow(magnitude, leading - s, s + 1);
    }
  }

  // ----- what rounding to an integer means -----

  /** The integer the magnitude `v` rounds to; `Odd` makes an inexact result odd. */
  ghost function IntegralRounding(mode: FpRounding, isNegative: bool, v: real): int {
    var k := v.Floor;
    if mode == Odd then (if v != k as real && k % 2 == 0 then k + 1 else k)
    else if SelectsUpper(RuleFor(mode, isNegative), v, k as real, (k + 1) as real, k % 2 == 0) then k + 1
    else k
  }

  ghost predicate IsIntegral(v: real) {
    v == v.Floor as real
  }

  /** The shortcut for magnitudes far below one ignores `Odd`; nothing selects that mode for these operations. */
  predicate HonoursMode(mode: FpRounding, u: Unpacked, f: FpFormat) {
    mode != Odd || u.exponent > SignificandScale(f) - 64
  }

  lemma ScaleUnit(n: int)
    ensures Scale(n, 0) == n as real
  {
  }

  lemma FloorUnique(v: real, k: int)
    requires k as real <= v < (k + 1) as real
    ensures v.Floor == k
  {
  }

  /** The truncated quotient and the remainder place the magnitude among the integers. */
  lemma FractionDecides(v: real, n: nat, shift: nat, mode: FpRounding, isNegative: bool)
    requires shift > 0 && v == Scale(n, -(shift as int))
    ensures var t, r := ShiftRight(n, shift), LowBits(n, shift);
            && v.Floor == t && (IsIntegral(v) <==> r == 0)
            && IntegralRounding(mode, isNegative, v)
               == t + if r != 0 && RoundsAway(t, r, shift, mode, isNegative) then 1 else 0
  {
    hide Pow2, Scale, ShiftRight, LowBits;
    var t, r, half := ShiftRight(n, shift), LowBits(n, shift), Pow2(shift - 1);
    var g: int := -(shift as int);
    ShiftSplit(n, shift);
    Pow2Double(shift - 1);
    ScaleShift(t, shift, g);
    ScaleShift(t + 1, shift, g);
    ScaleUnit(t);
    ScaleUnit(t + 1);
    Distribute(t, Pow2(shift));
    ScaleOrder(t * Pow2(shift), n, g);
    ScaleOrder(n, (t + 1) * Pow2(shift), g);
    FloorUnique(v, t);
    MidpointOrder(n, t, r, shift);
    ScaleUnit(t + t + 1);
    ScaleShift(t + t + 1, shift, g);
    ScaleAdd(n, n, g);
    ScaleOrder(n + n, (t + t + 1) * Pow2(shift), g);
  }

  lemma MidpointOrder(n: nat, t: nat, r: nat, shift: nat)
    requires shift > 0 && n == t * Pow2(shift) + r
    ensures n + n < (t + t + 1) * Pow2(shift) <==> r < Pow2(shift - 1)
    ensures n + n == (t + t + 1) * Pow2(shift) <==> r == Pow2(shift - 1)
  {
    var p := Pow2(shift);
    Pow2Double(shift - 1);
    hide Pow2;
    assert (t + t + 1) * p == t * p + t * p + p;
  }

  /** Far below one half. */
  lemma TinyFraction(v: real, n: nat, shift: nat, mode: FpRounding, isNegative: bool)
    requires shift >= 64 && 0 < n < Pow2(57) && v == Scale(n, -(shift as int)) && mode != Odd
    ensures v.Floor == 0 && !IsIntegral(v)
    ensures IntegralRounding(mode, isNegative, v) == if IsDirectedAway(mode, isNegative) then 1 else 0
  {
    hide Pow2, Scale, Pow2R;
    var g: int := -(shift as int);
    ScalePositive(n, g);
    ScaleOrder(n, Pow2(57), g);
    OneScaled(57, g);
    Pow2RMonotone(g + 57, -1);
    HalfPower();
    FloorUnique(v, 0);
  }

  lemma HalfPower()
    ensures Pow2R(-1) == 0.5
  {
  }

  lemma IntegralIsFixed(mode: FpRounding, isNegative: bool, v: real)
    requires IsIntegral(v)
    ensures IntegralRounding(mode, isNegative, v) == v.Floor
  {
  }

  /** Both implementations of rounding to an integer, where there is a fraction to round. */
  lemma FractionalMeaning(u: Unpacked, f: FpFormat, mode: FpRounding, v: real)
    requires IsNormalised(u, f) && u.significand > 0 && u.exponent < SignificandScale(f)
    requires v == Scale(u.significand, u.exponent - SignificandScale(f)) && HonoursMode(mode, u, f)
    ensures var i := IntegralRounding(mode, u.isNegative, v);
            && i >= 0
            && IntegralMagnitude(u, SignificandScale(f), mode) == (i, !IsIntegral(v))
            && match RoundSignificandToInteger(u, SignificandScale(f), mode)
               case None => i == 0
               case Some(w) => i > 0 && w.significand > 0 && w.isNegative == u.isNegative
                               && Scale(w.significand, w.exponent - SignificandScale(f)) == i as real
  {
    hide Pow2, Scale, IntegralRounding, IsIntegral, RoundsAway, ShiftRight, LowBits;
    var s := SignificandScale(f);
    var shift, i := s - u.exponent, IntegralRounding(mode, u.isNegative, v);
    if shift >= 64 {
      SignificandFitsWord(u, f);
      TinyFraction(v, u.significand, shift, mode, u.isNegative);
      ScaleUnit(1);
      ScaleShift(1, s, 0 - s);
    } else {
      FractionDecides(v, u.significand, shift, mode, u.isNegative);
      ScaleUnit(i);
      ScaleShift(i, shift, u.exponent - s);
      if i > 0 {
        ProductPositiveNat(i, Pow2(shift));
      }
    }
  }

  /** A significand short of the format's own width is an exact normal number. */
  lemma SmallInteger(f: FpFormat, i: nat) returns (c: nat)
    requires 0 < i < Pow2(f.MantissaBits() + 1)
    ensures Pow2(f.MantissaBits()) <= c < f.Infinity() && Mag(f, c) == i as real
  {
    hide Pow2, Scale, Mag, FpFormat.Infinity, FpFormat.MantissaBits, FpFormat.ExponentBias, BitLength;
    var m := f.MantissaBits();
    Geometry(f);
    BitLengthBounds(i);
    LeadingZerosBelow(i, m + 1);
    var e := BitLength(i) - 1;
    RaisedInteger(i, m, e);
    ScaleShift(i, m - e, e - m);
    ScaleUnit(i);
    c := NormalRepresentable(f, i as real, e, i * Pow2(m - e));
  }

  lemma RaisedInteger(i: nat, m: nat, e: nat)
    requires e <= m && Pow2(e) <= i < Pow2(e + 1)
    ensures Pow2(m) <= i * Pow2(m - e) < 2 * Pow2(m)
  {
    hide Pow2;
    Pow2Add(e, m - e);
    Pow2Add(e + 1, m - e);
    Pow2Double(m);
    MulMonotone(Pow2(e), i, Pow2(m - e));
    ProductBelow(i, Pow2(e + 1), Pow2(m - e));
  }

  /** An integer that a finite magnitude rounds to is representable in the same format. */
  lemma RoundedIntegerRepresentable(u: Unpacked, f: FpFormat, mode: FpRounding, v: real, b: nat) returns (c: nat)
    requires IsNormalised(u, f) && u.significand > 0 && u.significand % 8 == 0
    requires v == Scale(u.significand, u.exponent - SignificandScale(f)) && b < f.Infinity() && Mag(f, b) == v
    requires IntegralRounding(mode, u.isNegative, v) > 0
    ensures c < f.Infinity() && Mag(f, c) == IntegralRounding(mode, u.isNegative, v) as real
    ensures !IsIntegral(v) ==> Pow2(f.MantissaBits()) <= c
  {
    hide Pow2, Scale, Mag, FpFormat.Infinity, FpFormat.MantissaBits, LowBits;
    if IsIntegral(v) {
      IntegralIsFixed(mode, u.isNegative, v);
      c := b;
    } else {
      FractionIsSmall(u, f, v);
      c := SmallInteger(f, IntegralRounding(mode, u.isNegative, v));
    }
  }

  lemma FractionIsSmall(u: Unpacked, f: FpFormat, v: real)
    requires IsNormalised(u, f) && u.significand > 0 && u.significand % 8 == 0
    requires v == Scale(u.significand, u.exponent - SignificandScale(f)) && !IsIntegral(v)
    ensures 0.0 < v && v.Floor + 1 < Pow2(f.MantissaBits() + 1)
  {
    hide Pow2, Scale, FpFormat.MantissaBits, LowBits, ShiftRight, Pow2R;
    var s, n, m := SignificandScale(f), u.significand, f.MantissaBits();
    ScalePositive(n, u.exponent - s);
    if u.exponent >= s {
      ScaleShift(n, u.exponent - s, 0);
      ScaleUnit(n * Pow2(u.exponent - s));
      assert false;
    }
    FractionDecides(v, n, s - u.exponent, Zero, false);
    LowBitsOfOctet(n, s - u.exponent);
    assert u.exponent < m;
    Pow2Double(s);
    ScaleOrder(n, Pow2(s + 1), u.exponent - s);
    OneScaled(s + 1, u.exponent - s);
    Pow2RMonotone(u.exponent + 1, m);
    OneScaled(m, 0);
    ScaleUnit(Pow2(m));
    Pow2Double(m);
    FloorBelow(v, Pow2(m));
  }

  lemma FloorBelow(v: real, k: int)
    requires v < k as real
    ensures v.Floor < k
  {
  }

  /**
   Rounding to integral gives the integer the mode selects, exactly and in every format, keeps the
   sign even of a zero result, and raises nothing.
   */
  lemma RoundToIntegralExact(bits: nat, f: FpFormat, mode: FpRounding, control: FpControl)
    requires IsFinite(f, bits) && HonoursMode(mode, Unpack(bits, f), f)
    ensures var r := RoundToIntegral(bits, f, mode, control);
            && r.raised == {} && IsFinite(f, r.bits) && f.IsNegative(r.bits) == f.IsNegative(bits)
            && Abs(Value(f, r.bits)) == IntegralRounding(mode, f.IsNegative(bits), Abs(Value(f, bits))) as real
  {
    hide Pow2, Mag, Scale, Unpack, FpFormat.Infinity, FpFormat.IsNegative, FpFormat.Magnitude, FpFormat.IsSubnormal,
         FpFormat.IsNan, FpFormat.IsInfinite, FpFormat.Fits, IntegralRounding, RoundAndPack, RoundSignificandToInteger, Nan.Propagate,
         Signed, HonoursMode, IsIntegral;
    FiniteAlone(f, bits, control);
    MagNonNegative(f, f.Magnitude(bits));
    UnpackedValue(f, bits);
    var u, v := Unpack(bits, f), Abs(Value(f, bits));
    SignAndMagnitude(f, f.IsNegative(bits), 0);
    MagZero(f);
    if v == 0.0 {
      ZeroIsIntegral(mode, f.IsNegative(bits));
    } else {
      UnpackedMagnitude(u, f);
      if u.exponent >= SignificandScale(f) {
        LargeIsIntegral(u.significand, u.exponent - SignificandScale(f), v);
        IntegralIsFixed(mode, f.IsNegative(bits), v);
        IntegralValue(v);
      } else {
        FractionalMeaning(u, f, mode, v);
        if IntegralRounding(mode, u.isNegative, v) > 0 {
          var w := RoundSignificandToInteger(u, SignificandScale(f), mode).value;
          var c := RoundedIntegerRepresentable(u, f, mode, v, f.Magnitude(bits));
          PackedInteger(w, f, mode, control, IntegralRounding(mode, u.isNegative, v), c);
        } else {
          ZeroResult(f, u.isNegative);
        }
      }
    }
  }

  lemma ZeroResult(f: FpFormat, isNegative: bool)
    ensures IsFinite(f, f.ZeroBits(isNegative)) && Value(f, f.ZeroBits(isNegative)) == 0.0
    ensures f.IsNegative(f.ZeroBits(isNegative)) == isNegative
  {
    hide Pow2, Mag;
    Layout(f);
    SignAndMagnitude(f, isNegative, 0);
    MagZero(f);
  }

  lemma ZeroIsIntegral(mode: FpRounding, isNegative: bool)
    ensures IntegralRounding(mode, isNegative, 0.0) == 0
  {
    FloorUnique(0.0, 0);
  }

  lemma IntegralValue(v: real)
    requires IsIntegral(v)
    ensures v.Floor as real == v
  {
  }

  lemma LargeIsIntegral(n: nat, k: nat, v: real)
    requires v == Scale(n, k)
    ensures IsIntegral(v) && v.Floor == n * Pow2(k)
  {
    hide Scale, Pow2;
    ScaleShift(n, k, 0);
    ScaleUnit(n * Pow2(k));
    FloorUnique(v, n * Pow2(k));
  }

  lemma FiniteAlone(f: FpFormat, bits: nat, control: FpControl)
    requires IsFinite(f, bits)
    ensures Nan.Propagate([bits], f, control).None? && !f.IsNan(bits) && !f.IsInfinite(bits)
    ensures f.IsZero(bits) <==> Value(f, bits) == 0.0
  {
    hide Pow2, FpFormat.IsNan, FpFormat.IsInfinite, FpFormat.Magnitude, FpFormat.Fits, Mag;
    NotSpecialIsFinite(f, bits);
    MagNonNegative(f, f.Magnitude(bits));
  }

  /** Packing an unpacked integer that the format represents is exact, flushing or not. */
  lemma PackedInteger(w: Unpacked, f: FpFormat, mode: FpRounding, control: FpControl, i: int, c: nat)
    requires w.significand > 0 && i > 0 && Scale(w.significand, w.exponent - SignificandScale(f)) == i as real
    requires c < f.Infinity() && Mag(f, c) == i as real
    ensures var r := RoundAndPack(w, f, RoundingContext(mode, false, control));
            && r.raised == {} && IsFinite(f, r.bits) && f.IsNegative(r.bits) == w.isNegative
            && Abs(Value(f, r.bits)) == i as real
  {
    hide Pow2, Mag, Scale, PackUnflushed, FpFormat.Infinity, FpFormat.IsNegative, FpFormat.Magnitude, FpFormat.IsSubnormal,
         Packs, Brackets;
    var x := if w.isNegative then -(i as real) else i as real;
    var rc := RoundingContext(mode, false, control);
    ExactBracket(Abs(x), w.significand, w.exponent - SignificandScale(f));
    PackingOfBracketed(x, w, f, rc);
    PacksExactly(f, mode, x, c, PackUnflushed(w, f, rc));
    Layout(f);
    SignAndMagnitude(f, w.isNegative, c);
    PositiveIntegerIsNormal(f, c, i);
    Classification(f, f.Encode(w.isNegative, c));
  }

  lemma ExactBracket(v: real, n: nat, g: int)
    requires v == Scale(n, g)
    ensures Brackets(v, n, false, g)
  {
  }

  lemma PositiveIntegerIsNormal(f: FpFormat, c: nat, i: int)
    requires i > 0 && Mag(f, c) == i as real
    ensures Pow2(f.MantissaBits()) <= c
  {
    hide Pow2, Mag, Pow2R, Scale;
    Geometry(f);
    InfinityValue(f);
    Pow2RMonotone(MinimumExponent(f), 0);
    ScaleOne(0);
    ScaleUnit(1);
    MagOrder(f, c, Pow2(f.MantissaBits()));
  }

  /** Rounding twice changes nothing: the first result is a fixed point of every mode. */
  lemma RoundToIntegralIdempotent(bits: nat, f: FpFormat, mode: FpRounding, again: FpRounding, control: FpControl)
    requires IsFinite(f, bits) && HonoursMode(mode, Unpack(bits, f), f)
    requires HonoursMode(again, Unpack(RoundToIntegral(bits, f, mode, control).bits, f), f)
    ensures var once := RoundToIntegral(bits, f, mode, control);
            RoundToIntegral(once.bits, f, again, control) == once
  {
    hide Pow2, Mag, Unpack, FpFormat.Infinity, FpFormat.IsNegative, FpFormat.Magnitude, FpFormat.Fits, IntegralRounding,
         RoundToIntegral, HonoursMode;
    var once := RoundToIntegral(bits, f, mode, control);
    RoundToIntegralExact(bits, f, mode, control);
    RoundToIntegralExact(once.bits, f, again, control);
    var i := IntegralRounding(mode, f.IsNegative(bits), Abs(Value(f, bits)));
    FloorUnique(i as real, i);
    IntegralIsFixed(again, f.IsNegative(bits), i as real);
    SameSignSameValue(f, once.bits, RoundToIntegral(once.bits, f, again, control).bits);
  }

  lemma SameSignSameValue(f: FpFormat, a: nat, b: nat)
    requires f.Fits(a) && f.Fits(b) && f.IsNegative(a) == f.IsNegative(b) && Abs(Value(f, a)) == Abs(Value(f, b))
    ensures a == b
  {
    hide Pow2, Mag;
    DecodeEncode(f, a);
    DecodeEncode(f, b);
    MagNonNegative(f, f.Magnitude(a));
    MagNonNegative(f, f.Magnitude(b));
    MagOrder(f, f.Magnitude(a), f.Magnitude(b));
  }

  // ----- what conversion to an integer means -----

  function MinInteger(target: IntFormat): int
    requires IsIntFormat(target)
  {
    if target.isSigned then -(Pow2(target.bits - 1) as int) else 0
  }

  function MaxInteger(target: IntFormat): int
    requires IsIntFormat(target)
  {
    if target.isSigned then Pow2(target.bits - 1) - 1 else Pow2(target.bits) - 1
  }

  function Clamp(n: int, target: IntFormat): int
    requires IsIntFormat(target)
  {
    if n < MinInteger(target) then MinInteger(target) else if n > MaxInteger(target) then MaxInteger(target) else n
  }

  /** The `width` low bits of an integer's two's complement. */
  function TwosComplement(n: int, width: nat): nat {
    n % Pow2(width)
  }

  /**
   The result sections 5.8 and 7.2 ask for: the integer clamped to the target, invalid exactly
   when it had to be clamped, and otherwise inexact when rounding changed the value.
   */
  function IntegerResult(n: int, isInexact: bool, target: IntFormat): FpResult
    requires IsIntFormat(target)
  {
    FpResult(TwosComplement(Clamp(n, target), target.bits),
             if Clamp(n, target) != n then {Invalid} else if isInexact then {Inexact} else {})
  }

  function WithSign(isNegative: bool, magnitude: int): int {
    if isNegative then -magnitude else magnitude
  }

  /** The signed integer a finite value rounds to. */
  ghost function RoundedInteger(f: FpFormat, bits: nat, mode: FpRounding): int {
    var i := IntegralRounding(mode, f.IsNegative(bits), Abs(Value(f, bits)));
    WithSign(f.IsNegative(bits), i)
  }

  /**
   The values whose 128-bit magnitude wraps around to zero: non-zero multiples of 2^128 that the
   code still shifts into the word.
   */
  ghost predicate WrapsToZero(f: FpFormat, x: real) {
    Abs(x) < Pow2R(SignificandScale(f) + 128) && exists j: nat :: j > 0 && Abs(x) == Scale(j, 128)
  }

  lemma WordSizes()
    ensures Pow2(31) == 0x8000_0000 && Pow2(32) == 0x1_0000_0000
    ensures Pow2(63) == 0x8000_0000_0000_0000 && Pow2(64) == 0x1_0000_0000_0000_0000
  {
    hide Pow2;
    Pow2Small();
    Pow2Double(3);
    Pow2Add(4, 4);
    Pow2Add(8, 8);
    Pow2Add(16, 16);
    Pow2Add(32, 32);
    Pow2Double(31);
    Pow2Double(63);
  }

  /** Negating in a 64-bit word and masking is the two's complement of the negative integer. */
  lemma NegatedWord(n: int, target: IntFormat)
    requires IsIntFormat(target) && 0 <= n < Pow2(64)
    ensures MaskToWidth(WrappingNeg(n), target) == TwosComplement(-n, target.bits)
    ensures LowBits(n, 64) == n
  {
    hide Pow2;
    WordSizes();
    if n == 0 {
    } else if target.bits == 64 {
      assert WrappingNeg(n) == Pow2(64) - n;
    } else {
      assert WrappingNeg(n) == Pow2(64) - n;
      assert Pow2(64) - n == -n + 0x1_0000_0000 * Pow2(32);
    }
  }

  lemma SmallWord(n: nat, target: IntFormat)
    requires IsIntFormat(target) && n < Pow2(target.bits)
    ensures MaskToWidth(LowBits(n, 64), target) == n == TwosComplement(n, target.bits)
    ensures LowBits(n, 64) == n
  {
    hide Pow2;
    WordSizes();
  }

  /** Encoding saturates and wraps exactly as clamping and two's complement say. */
  lemma EncodeMeaning(magnitude: nat, isNegative: bool, isInexact: bool, target: IntFormat)
    requires IsIntFormat(target) && (target.isSigned || !isNegative)
    ensures EncodeInteger(magnitude, isNegative, isInexact, target)
         == IntegerResult(WithSign(isNegative, magnitude), isInexact, target)
  {
    hide Pow2, TwosComplement, LowBits;
    WordSizes();
    Pow2Double(target.bits - 1);
    if magnitude <= MagnitudeLimit(isNegative, target) {
      if isNegative {
        NegatedWord(magnitude, target);
      } else {
        SmallWord(magnitude, target);
      }
    } else {
      SaturatedWord(isNegative, target);
    }
  }

  lemma SaturatedWord(isNegative: bool, target: IntFormat)
    requires IsIntFormat(target) && (target.isSigned || !isNegative)
    ensures Saturate(isNegative, target)
         == TwosComplement(if isNegative then MinInteger(target) else MaxInteger(target), target.bits)
  {
    hide Pow2;
    WordSizes();
  }

  /** Far outside the target, only the sign matters. */
  lemma SaturatesAlike(m: nat, n: nat, isNegative: bool, a: bool, b: bool, target: IntFormat)
    requires IsIntFormat(target) && m > Pow2(64) && n > Pow2(64)
    ensures IntegerResult(WithSign(isNegative, m), a, target) == IntegerResult(WithSign(isNegative, n), b, target)
  {
    hide Pow2;
    WordSizes();
  }

  /** The 128-bit magnitude of a value that is integral already. */
  lemma LargeMagnitude(n: nat, k: nat, whole: nat)
    requires n < Pow2(57) && k < 128 && whole == n * Pow2(k)
    ensures whole < Pow2(128) ==> LowBits(whole, 128) == whole
    ensures whole >= Pow2(128) && LowBits(whole, 128) != 0 ==> LowBits(whole, 128) > Pow2(64)
    ensures Pow2(128) > Pow2(64)
  {
    hide Pow2, LowBits;
    var p := Pow2(k);
    Pow2Monotone(65, 128);
    Pow2Double(64);
    if whole < Pow2(128) {
      LowBitsOfSmall(whole, 128);
    } else {
      Pow2Add(57, 71);
      ProductBelow(n, Pow2(57), p);
      if k < 72 {
        Pow2Monotone(k, 71);
        MulMonotone(p, Pow2(71), Pow2(57));
        assert false;
      }
      Pow2Monotone(72, k);
      Pow2Monotone(65, 72);
      WordIsMultiple(n, k);
    }
  }

  /** The word keeps the low zeroes the shift put in. */
  lemma WordIsMultiple(n: nat, k: nat)
    requires k < 128
    ensures LowBits(n * Pow2(k), 128) == 0 || LowBits(n * Pow2(k), 128) >= Pow2(k)
  {
    hide Pow2;
    Pow2Add(128 - k, k);
    ResidueOfScaled(n, Pow2(128 - k), Pow2(k));
    var r := n % Pow2(128 - k);
    if r > 0 {
      MulMonotone(1, r, Pow2(k));
    }
  }

  /** The condition on the value, read off the significand. */
  lemma WrapsIff(u: Unpacked, f: FpFormat, x: real)
    requires IsNormalised(u, f) && u.significand > 0
    requires Abs(x) == Scale(u.significand, u.exponent - SignificandScale(f))
    ensures WrapsToZero(f, x) <==>
              && SignificandScale(f) <= u.exponent < SignificandScale(f) + 128
              && var whole := u.significand * Pow2(u.exponent - SignificandScale(f));
                 whole >= Pow2(128) && LowBits(whole, 128) == 0
  {
    hide Pow2, Scale, Pow2R, FpFormat.MantissaBits;
    var s, n, e := SignificandScale(f), u.significand, u.exponent;
    BinadeOf(u, f, Abs(x));
    ScaleBounds(f);
    if WrapsToZero(f, x) {
      var j: nat :| j > 0 && Abs(x) == Scale(j, 128);
      ScaleOrder(1, j, 128);
      ScaleOne(128);
      Pow2ROrder(128, e + 1);
      Pow2ROrder(e, s + 128);
      ScaleShift(n, e - s, 0);
      ScaleShift(j, 128, 0);
      ScaleOrder(n * Pow2(e - s), j * Pow2(128), 0);
      DivModUnique(j * Pow2(128), Pow2(128), j, 0);
      MulMonotone(1, j, Pow2(128));
    }
    if s <= e < s + 128 && n * Pow2(e - s) >= Pow2(128) && LowBits(n * Pow2(e - s), 128) == 0 {
      var whole := n * Pow2(e - s);
      var j := ShiftRight(whole, 128);
      ShiftSplit(whole, 128);
      ScaleShift(n, e - s, 0);
      ScaleShift(j, 128, 0);
      Pow2RMonotone(e + 1, s + 128);
      DivAtLeast(whole, Pow2(128), 1);
      assert Abs(x) == Scale(j, 128);
    }
  }

  lemma BinadeOf(u: Unpacked, f: FpFormat, v: real)
    requires IsNormalised(u, f) && u.significand > 0
    requires v == Scale(u.significand, u.exponent - SignificandScale(f))
    ensures Pow2R(u.exponent) <= v < Pow2R(u.exponent + 1)
  {
    hide Pow2, Scale, Pow2R;
    var s, g := SignificandScale(f), u.exponent - SignificandScale(f);
    OneScaled(s, g);
    OneScaled(s + 1, g);
    Pow2Double(s);
    ScaleOrder(Pow2(s), u.significand, g);
    ScaleOrder(u.significand, Pow2(s + 1), g);
  }

  /** The magnitude and inexactness handed to the encoder, and the integer it stands for. */
  lemma MagnitudeMeaning(u: Unpacked, f: FpFormat, mode: FpRounding, x: real, target: IntFormat)
    requires IsNormalised(u, f) && u.significand > 0 && IsIntFormat(target) && (target.isSigned || !u.isNegative)
    requires Abs(x) == Scale(u.significand, u.exponent - SignificandScale(f)) && HonoursMode(mode, u, f)
    ensures var (magnitude, isInexact) := IntegralMagnitude(u, SignificandScale(f), mode);
            var i := IntegralRounding(mode, u.isNegative, Abs(x));
            && i >= 0
            && (!WrapsToZero(f, x) ==>
                  EncodeInteger(magnitude, u.isNegative, isInexact, target)
                  == IntegerResult(WithSign(u.isNegative, i), !IsIntegral(Abs(x)), target))
            && (WrapsToZero(f, x) ==>
                  i > Pow2(64) && EncodeInteger(magnitude, u.isNegative, isInexact, target) == Exactly(0))
  {
    hide Pow2, Scale, IntegralRounding, IsIntegral, EncodeInteger, IntegerResult, LowBits, WrapsToZero;
    var s, v := SignificandScale(f), Abs(x);
    var (magnitude, isInexact) := IntegralMagnitude(u, s, mode);
    var i := IntegralRounding(mode, u.isNegative, v);
    WrapsIff(u, f, x);
    EncodeMeaning(magnitude, u.isNegative, isInexact, target);
    if u.exponent < s {
      FractionalMeaning(u, f, mode, v);
    } else {
      var k := u.exponent - s;
      LargeIsIntegral(u.significand, k, v);
      IntegralIsFixed(mode, u.isNegative, v);
      SignificandFitsWord(u, f);
      if k >= 128 {
        AtLeastPower(u, k);
        Pow2Monotone(66, 128);
        Pow2Double(64);
        Pow2Double(65);
        SaturatesAlike(magnitude, i, u.isNegative, isInexact, !IsIntegral(v), target);
      } else {
        LargeMagnitude(u.significand, k, u.significand * Pow2(k));
        if i >= Pow2(128) {
          if magnitude == 0 {
            ZeroEncodes(target);
          } else {
            SaturatesAlike(magnitude, i, u.isNegative, isInexact, !IsIntegral(v), target);
          }
        }
      }
    }
  }

  lemma AtLeastPower(u: Unpacked, k: nat)
    requires u.significand > 0 && k >= 128
    ensures u.significand * Pow2(k) >= Pow2(128)
  {
    hide Pow2;
    Pow2Monotone(128, k);
    MulMonotone(1, u.significand, Pow2(k));
  }

  lemma ZeroEncodes(target: IntFormat)
    requires IsIntFormat(target)
    ensures IntegerResult(0, false, target) == Exactly(0)
  {
    hide Pow2;
    WordSizes();
  }

  /**
   Conversion of a finite value to an integer gives the rounded integer, clamped and in two's
   complement, with the flags of section 7, exactly when its magnitude does not wrap and, for a
   negative value and an unsigned target, exactly when it does not round to zero: there the
   value is right but invalid is raised instead of inexact.
   */
  lemma ToIntegerCorrectIff(bits: nat, f: FpFormat, target: IntFormat, mode: FpRounding)
    requires IsFinite(f, bits) && IsIntFormat(target) && HonoursMode(mode, Unpack(bits, f), f)
    ensures var x, n := Value(f, bits), RoundedInteger(f, bits, mode);
            var isRightly := ToInteger(bits, f, target, mode) == IntegerResult(n, !IsIntegral(Abs(x)), target);
            && (target.isSigned || x >= 0.0 ==> (isRightly <==> !WrapsToZero(f, x)))
            && (!target.isSigned && x < 0.0 ==>
                  (isRightly <==> n != 0) && ToInteger(bits, f, target, mode) == FpResult(0, {Invalid}))
    ensures WrapsToZero(f, Value(f, bits)) && (target.isSigned || Value(f, bits) >= 0.0) ==>
              ToInteger(bits, f, target, mode) == Exactly(0)
  {
    hide Pow2, Mag, Scale, Unpack, FpFormat.Infinity, FpFormat.IsNegative, FpFormat.Magnitude, FpFormat.IsNan, FpFormat.IsInfinite,
         FpFormat.Fits, IntegralRounding, EncodeInteger, IntegralMagnitude, IntegerResult, WrapsToZero, IsIntegral, Signed,
         HonoursMode, Value;
    var x := Value(f, bits);
    FiniteIsNotSpecial(f, bits);
    UnpackedValue(f, bits);
    var u, i := Unpack(bits, f), IntegralRounding(mode, f.IsNegative(bits), Abs(Value(f, bits)));
    if x == 0.0 {
      ZeroIsIntegral(mode, f.IsNegative(bits));
      ZeroNeverWraps(f);
      ZeroEncodes(target);
    } else {
      UnpackedMagnitude(u, f);
      if target.isSigned || x > 0.0 {
        MagnitudeMeaning(u, f, mode, x, target);
        if WrapsToZero(f, x) {
          FarIsInvalid(i, u.isNegative, !IsIntegral(Abs(x)), target);
        }
      } else {
        NegativeToUnsigned(bits, f, target, mode, i);
      }
    }
  }

  lemma FarIsInvalid(i: nat, isNegative: bool, isInexact: bool, target: IntFormat)
    requires IsIntFormat(target) && i > Pow2(64)
    ensures IntegerResult(WithSign(isNegative, i), isInexact, target).raised == {Invalid}
  {
    hide Pow2;
    WordSizes();
  }

  lemma ZeroNeverWraps(f: FpFormat)
    ensures !WrapsToZero(f, 0.0) && IsIntegral(0.0)
  {
    hide Scale, Pow2R;
    FloorUnique(0.0, 0);
    forall j: nat | j > 0 ensures Scale(j, 128) > 0.0 {
      ScalePositive(j, 128);
    }
  }

  lemma NegativeToUnsigned(bits: nat, f: FpFormat, target: IntFormat, mode: FpRounding, i: int)
    requires IsFinite(f, bits) && IsIntFormat(target) && !target.isSigned && Value(f, bits) < 0.0
    requires i == IntegralRounding(mode, true, Abs(Value(f, bits)))
    ensures ToInteger(bits, f, target, mode) == FpResult(0, {Invalid})
    ensures i >= 0
    ensures IntegerResult(-i, !IsIntegral(Abs(Value(f, bits))), target) == FpResult(0, {Invalid}) <==> i != 0
  {
    hide Pow2, Mag, FpFormat.Infinity, FpFormat.IsNegative, FpFormat.Magnitude, FpFormat.IsNan, FpFormat.IsInfinite, FpFormat.IsZero,
         FpFormat.Fits, IntegralMagnitude, Value;
    FiniteIsNotSpecial(f, bits);
    FloorNonNegative(Abs(Value(f, bits)));
    WordSizes();
  }

  lemma FloorNonNegative(v: real)
    requires v >= 0.0
    ensures v.Floor >= 0
  {
  }


  /** Converting directly and converting after rounding to integral agree bit for bit, whatever the second mode. */
  lemma ToIntegerAfterRounding(bits: nat, f: FpFormat, target: IntFormat, mode: FpRounding, again: FpRounding, control: FpControl)
    requires IsFinite(f, bits) && IsIntFormat(target)
    requires HonoursMode(mode, Unpack(bits, f), f)
    requires HonoursMode(again, Unpack(RoundToIntegral(bits, f, mode, control).bits, f), f)
    ensures ToInteger(RoundToIntegral(bits, f, mode, control).bits, f, target, again).bits
         == ToInteger(bits, f, target, mode).bits
  {
    hide Pow2, Mag, Scale, Unpack, FpFormat.Infinity, FpFormat.IsNegative, FpFormat.Magnitude, FpFormat.Fits, IntegralRounding,
         RoundToIntegral, HonoursMode, ToInteger, Value, IsIntegral, WrapsToZero, TwosComplement, Clamp;
    var once := RoundToIntegral(bits, f, mode, control).bits;
    var x, y, i := Value(f, bits), Value(f, once), IntegralRounding(mode, f.IsNegative(bits), Abs(Value(f, bits)));
    RoundToIntegralExact(bits, f, mode, control);
    IntegerIsIntegral(i);
    IntegralIsFixed(again, f.IsNegative(bits), i as real);
    ToIntegerCorrectIff(bits, f, target, mode);
    ToIntegerCorrectIff(once, f, target, again);
    FiniteIsNotSpecial(f, bits);
    FiniteIsNotSpecial(f, once);
    WrappingSurvivesRounding(bits, f, mode, y);
    if x < 0.0 && !target.isSigned && y == 0.0 {
      ZeroNeverWraps(f);
      ZeroEncodes(target);
    }
  }

  lemma IntegerIsIntegral(i: int)
    ensures IsIntegral(i as real) && (i as real).Floor == i
  {
  }

  /** Rounding to integral neither creates nor removes a value that wraps. */
  lemma WrappingSurvivesRounding(bits: nat, f: FpFormat, mode: FpRounding, y: real)
    requires IsFinite(f, bits)
    requires Abs(y) == IntegralRounding(mode, f.IsNegative(bits), Abs(Value(f, bits))) as real
    ensures WrapsToZero(f, y) <==> WrapsToZero(f, Value(f, bits))
  {
    hide Pow2, Mag, Scale, Unpack, FpFormat.Infinity, FpFormat.IsNegative, FpFormat.Magnitude, FpFormat.Fits, Signed,
         Value, IsIntegral, Pow2R;
    var x := Value(f, bits);
    UnpackedValue(f, bits);
    if IsIntegral(Abs(x)) {
      IntegralIsFixed(mode, f.IsNegative(bits), Abs(x));
      IntegralValue(Abs(x));
    } else {
      if x == 0.0 {
        ZeroNeverWraps(f);
      }
      UnpackedMagnitude(Unpack(bits, f), f);
      FractionIsSmall(Unpack(bits, f), f, Abs(x));
      IntegralAtMost(mode, f.IsNegative(bits), Abs(x));
      SmallNeverWraps(f, y);
      if WrapsToZero(f, x) {
        MultiplesAreIntegral(f, x);
      }
    }
  }

  lemma IntegralAtMost(mode: FpRounding, isNegative: bool, v: real)
    ensures IntegralRounding(mode, isNegative, v) <= v.Floor + 1
  {
  }

  lemma SmallNeverWraps(f: FpFormat, y: real)
    requires Abs(y) < Pow2(f.MantissaBits() + 1) as real
    ensures !WrapsToZero(f, y)
  {
    hide Pow2, Scale, Pow2R;
    ScaleUnit(Pow2(f.MantissaBits() + 1));
    OneScaled(f.MantissaBits() + 1, 0);
    Pow2RMonotone(f.MantissaBits() + 1, 128);
    ScaleOne(128);
    forall j: nat | j > 0 ensures Scale(j, 128) >= Pow2R(128) {
      ScaleOrder(1, j, 128);
    }
  }

  lemma MultiplesAreIntegral(f: FpFormat, x: real)
    requires WrapsToZero(f, x)
    ensures IsIntegral(Abs(x))
  {
    hide Pow2, Scale, Pow2R, IsIntegral;
    var j: nat :| j > 0 && Abs(x) == Scale(j, 128);
    LargeIsIntegral(j, 128, Abs(x));
  }

  /** 2^128 as a double: far out of range, yet converted to zero without a flag. */
  lemma ToIntegerWraps() returns (bits: nat, target: IntFormat)
    ensures bits == 0x47f0_0000_0000_0000 && target == IntFormat(64, true)
    ensures IsFinite(Double, bits) && Value(Double, bits) == Pow2R(128)
    ensures ToInteger(bits, Double, target, Zero) == Exactly(0)
    ensures IntegerResult(RoundedInteger(Double, bits, Zero), false, target).raised == {Invalid}
  {
    hide ToInteger, RoundedInteger, IntegerResult, IntegralRounding;
    bits, target := 0x47f0_0000_0000_0000, IntFormat(64, true);
    PowerPattern(bits);
    WrappingPower(bits, target);
  }

  /**
   A negative value that rounds to zero, converted to an unsigned integer: -0.25 is zero and inexact,
   but invalid is raised.
   */
  lemma NegativeFractionIsInvalid() returns (bits: nat, target: IntFormat)
    ensures bits == 0xb400 && target == IntFormat(64, false)
    ensures IsFinite(Half, bits) && Value(Half, bits) == -0.25
    ensures ToInteger(bits, Half, target, Zero) == FpResult(0, {Invalid})
    ensures IntegerResult(RoundedInteger(Half, bits, Zero), true, target) == FpResult(0, {Inexact})
  {
    hide ToInteger, Value, IsFinite, IsIntegral, WrapsToZero, Unpack, IntegralRounding, IntegerResult, FpFormat.IsNegative, Pow2;
    bits, target := 0xb400, IntFormat(64, false);
    MinusQuarter();
    TruncatedQuarter();
    ZeroIsInRange(target);
    ToIntegerCorrectIff(bits, Half, target, Zero);
  }

  lemma ZeroIsInRange(target: IntFormat)
    requires IsIntFormat(target)
    ensures IntegerResult(0, true, target) == FpResult(0, {Inexact})
  {
    hide Pow2;
    DivModUnique(0, Pow2(target.bits), 0, 0);
  }

  lemma MinusQuarter()
    ensures IsFinite(Half, 0xb400) && Value(Half, 0xb400) == -0.25 && Half.IsNegative(0xb400)
  {
    HalfGeometry();
    hide Pow2, Scale, Mag;
    MagOfNormal(Half, 13, 1024);
    QuarterIsScaled();
  }

  lemma QuarterIsScaled()
    ensures Scale(1024, -12) == 0.25
  {
    HalfGeometry();
    Pow2RZero();
    hide Pow2, Scale;
    ScaleShift(1, 10, -12);
    Pow2RStep(-1);
    Pow2RStep(-2);
    ScaleOne(-2);
  }

  lemma TruncatedQuarter()
    ensures IntegralRounding(Zero, true, 0.25) == 0 && !IsIntegral(0.25)
  {
    assert 0.25.Floor == 0;
  }

  lemma PowerPattern(bits: nat)
    requires bits == 0x47f0_0000_0000_0000
    ensures IsFinite(Double, bits) && Value(Double, bits) == Pow2R(128)
  {
    hide Pow2, Mag, Scale, Pow2R;
    Pow2Small();
    Pow2Double(3);
    Pow2Add(4, 4);
    Pow2Add(8, 8);
    Pow2Add(16, 16);
    Pow2Add(32, 16);
    Pow2Add(48, 4);
    Geometry(Double);
    WordSizes();
    MagOfNormal(Double, 1151, Pow2(52));
    OneScaled(52, 76);
    assert bits == 1151 * Pow2(52);
    DivModUnique(bits, Pow2(63), 0, bits);
  }

  lemma WrappingPower(bits: nat, target: IntFormat)
    requires IsFinite(Double, bits) && Value(Double, bits) == Pow2R(128) && target == IntFormat(64, true)
    ensures ToInteger(bits, Double, target, Zero) == Exactly(0)
    ensures IntegerResult(RoundedInteger(Double, bits, Zero), false, target).raised == {Invalid}
  {
    hide Pow2, Mag, Scale, Pow2R, Value, ToInteger, IntegralRounding, Unpack, FpFormat.IsNegative, FpFormat.Infinity, IntegerResult;
    var x := Value(Double, bits);
    ScaleOne(128);
    assert Abs(x) == Scale(1, 128);
    Pow2ROrder(128, SignificandScale(Double) + 128);
    ToIntegerCorrectIff(bits, Double, target, Zero);
    FiniteIsNotSpecial(Double, bits);
    LargeIsIntegral(1, 128, x);
    IntegralIsFixed(Zero, Double.IsNegative(bits), x);
    Pow2Monotone(65, 128);
    Pow2Double(64);
    FarIsInvalid(Pow2(128), false, false, target);
  }

  // ----- from an integer -----

  /** The integer a register value denotes in the source format. */
  function Denoted(value: nat, source: IntFormat): int
    requires IsIntFormat(source)
  {
    var masked := LowBits(value, source.bits);
    if source.isSigned && masked >= Pow2(source.bits - 1) then masked - Pow2(source.bits) else masked
  }

  lemma MagnitudeOfMeaning(value: nat, source: IntFormat)
    requires IsIntFormat(source) && value < Pow2(64)
    ensures var (magnitude, isNegative) := MagnitudeOf(value, source);
            && Denoted(value, source) == WithSign(isNegative, magnitude)
            && (isNegative <==> Denoted(value, source) < 0)
            && magnitude <= Pow2(source.bits)
            && TwosComplement(Denoted(value, source), source.bits) == MaskToWidth(value, source) < Pow2(source.bits)
            && MinInteger(source) <= Denoted(value, source) <= MaxInteger(source)
  {
    hide Pow2, TwosComplement, WrappingNeg;
    WordSizes();
    MaskIsLowBits(value, source);
    var masked := MaskToWidth(value, source);
    SignOfMasked(masked, source);
    DenotedComplement(masked, source);
    if source.isSigned && masked >= Pow2(source.bits - 1) {
      NegatedMask(masked, source);
    }
  }

  lemma MaskIsLowBits(value: nat, source: IntFormat)
    requires IsIntFormat(source) && value < Pow2(64)
    ensures MaskToWidth(value, source) == LowBits(value, source.bits) < Pow2(source.bits) <= Pow2(64)
  {
    hide Pow2;
    WordSizes();
  }

  lemma SignOfMasked(n: nat, source: IntFormat)
    requires IsIntFormat(source) && n < Pow2(source.bits)
    ensures n / Pow2(source.bits - 1) % 2 == 0 <==> n < Pow2(source.bits - 1)
  {
    hide Pow2;
    WordSizes();
  }

  lemma DenotedComplement(n: nat, source: IntFormat)
    requires IsIntFormat(source) && n < Pow2(source.bits)
    ensures TwosComplement(n, source.bits) == n == TwosComplement(n - Pow2(source.bits), source.bits)
  {
    hide Pow2;
    WordSizes();
  }

  lemma NegatedMask(n: nat, source: IntFormat)
    requires IsIntFormat(source) && 0 < n < Pow2(source.bits)
    ensures MaskToWidth(WrappingNeg(n), source) == Pow2(source.bits) - n
  {
    hide Pow2;
    WordSizes();
    assert WrappingNeg(n) == Pow2(64) - n;
  }

  /** The aligned magnitude brackets the integer at its own scale. */
  lemma AlignIntegerMeaning(magnitude: nat, isNegative: bool, scale: nat)
    requires magnitude > 0
    ensures var (u, isSticky) := AlignInteger(magnitude, isNegative, scale);
            && Brackets(magnitude as real, u.significand, isSticky, u.exponent - scale)
            && u.significand >= Pow2(scale) && u.isNegative == isNegative
  {
    hide Pow2, Scale, BitLength, ShiftRight, LowBits;
    var leading := BitLength(magnitude) - 1;
    BitLengthBounds(magnitude);
    ScaleUnit(magnitude);
    if leading <= scale {
      ScaleShift(magnitude, scale - leading, leading - scale);
      RaisedInteger(magnitude, scale, leading);
    } else {
      BracketShift(magnitude as real, magnitude, false, 0, leading - scale);
      NarrowedLeading(magnitude, leading, scale);
    }
  }

  /**
   Conversion from an integer is correctly rounded for every value of every integer format, the
   overflow of half precision included; zero is the positive zero.
   */
  lemma FromIntegerRoundsCorrectly(value: nat, source: IntFormat, target: FpFormat, mode: FpRounding, control: FpControl)
    returns (rounded: FpResult)
    requires IsIntFormat(source) && value < Pow2(64)
    ensures var n := Denoted(value, source);
            && (n != 0 ==>
                  && RoundsTo(target, mode, n as real, rounded.bits)
                  && rounded.raised == FlagsOf(target, mode, n as real)
                  && Packs(target, mode, n as real, rounded)
                  && FromInteger(value, source, target, mode, control) == ApplyFlushToZero(rounded, target, control))
            && (n == 0 ==> FromInteger(value, source, target, mode, control) == Exactly(target.ZeroBits(false)))
  {
    hide Pow2, Mag, PackUnflushed, Brackets, ApplyFlushToZero, Packs, RoundsTo, FlagsOf, CarryLost, AlignInteger, MagnitudeOf,
         MinNormal, Denoted;
    var n := Denoted(value, source);
    var (magnitude, isNegative) := MagnitudeOf(value, source);
    MagnitudeOfMeaning(value, source);
    rounded := Exactly(0);
    if magnitude != 0 {
      AlignIntegerMeaning(magnitude, isNegative, SignificandScale(target));
      var (u, isSticky) := AlignInteger(magnitude, isNegative, SignificandScale(target));
      var rc := RoundingContext(mode, isSticky, control);
      PackingOfBracketed(n as real, u, target, rc);
      rounded := PackUnflushed(u, target, rc);
      IntegersAreNormal(target, magnitude);
      NormalsKeepCarry(target, mode, n as real);
      PacksMeaning(target, mode, n as real, rounded);
    }
  }

  lemma IntegersAreNormal(f: FpFormat, n: nat)
    requires n > 0
    ensures n as real >= MinNormal(f)
  {
    hide Pow2, Mag, Pow2R, Scale, MinNormal;
    Geometry(f);
    InfinityValue(f);
    Pow2RMonotone(MinimumExponent(f), 0);
    ScaleOne(0);
    ScaleUnit(1);
  }

  /** Integers short enough for the significand survive the trip to floating point and back, in any modes. */
  lemma FromToIntegerRoundTrip(value: nat, source: IntFormat, f: FpFormat, mode: FpRounding, back: FpRounding, control: FpControl)
    requires IsIntFormat(source) && value < Pow2(64)
    requires -(Pow2(f.MantissaBits() + 1) as int) < Denoted(value, source) < Pow2(f.MantissaBits() + 1)
    ensures var converted := FromInteger(value, source, f, mode, control);
            && converted.raised == {}
            && ToInteger(converted.bits, f, source, back) == Exactly(MaskToWidth(value, source))
  {
    hide Pow2, Mag, ApplyFlushToZero, Packs, RoundsTo, FlagsOf, MagnitudeOf, FpFormat.Infinity, Denoted, FromInteger, ToInteger,
         Unpack, FpFormat.IsNegative, FpFormat.Magnitude, IntegralRounding, TwosComplement, MaskToWidth, HonoursMode, IsIntegral,
         WrapsToZero, MinInteger, MaxInteger, FpFormat.ZeroBits, FpFormat.IsSubnormal, FpFormat.Fits;
    var n := Denoted(value, source);
    var (magnitude, isNegative) := MagnitudeOf(value, source);
    MagnitudeOfMeaning(value, source);
    var rounded := FromIntegerRoundsCorrectly(value, source, f, mode, control);
    var converted := FromInteger(value, source, f, mode, control);
    if n == 0 {
      ZeroResult(f, false);
    } else {
      var c := SmallInteger(f, magnitude);
      PacksExactly(f, mode, n as real, c, rounded);
      NormalIsKept(f, n, c, rounded, control);
    }
    assert IsFinite(f, converted.bits) && Value(f, converted.bits) == n as real && converted.raised == {};
    IntegerHonoursMode(f, converted.bits, n, back);
    IntegerIsIntegral(magnitude);
    IntegralIsFixed(back, f.IsNegative(converted.bits), magnitude as real);
    ToIntegerCorrectIff(converted.bits, f, source, back);
    SmallNeverWraps(f, n as real);
    FiniteIsNotSpecial(f, converted.bits);
    ExactClamp(n, source);
  }

  lemma ExactClamp(n: int, source: IntFormat)
    requires IsIntFormat(source) && MinInteger(source) <= n <= MaxInteger(source)
    ensures IntegerResult(n, false, source) == Exactly(TwosComplement(n, source.bits))
    ensures !source.isSigned ==> n >= 0
  {
    hide TwosComplement;
  }

  lemma NormalIsKept(f: FpFormat, n: int, c: nat, rounded: FpResult, control: FpControl)
    requires n != 0 && Pow2(f.MantissaBits()) <= c < f.Infinity() && Mag(f, c) == Abs(n as real)
    requires rounded == Exactly(f.Encode(n as real < 0.0, c))
    ensures ApplyFlushToZero(rounded, f, control) == rounded
    ensures IsFinite(f, rounded.bits) && Value(f, rounded.bits) == n as real
  {
    hide Pow2, Mag, FpFormat.Infinity, FpFormat.IsNegative, FpFormat.Magnitude, FpFormat.IsSubnormal;
    Layout(f);
    SignAndMagnitude(f, n as real < 0.0, c);
    Classification(f, rounded.bits);
  }

  lemma IntegerHonoursMode(f: FpFormat, bits: nat, n: int, mode: FpRounding)
    requires IsFinite(f, bits) && Value(f, bits) == n as real
    ensures HonoursMode(mode, Unpack(bits, f), f)
  {
    hide Pow2, Mag, Unpack, FpFormat.Infinity, FpFormat.IsNegative, FpFormat.Magnitude, FpFormat.Fits, Value, Scale, Pow2R, Signed;
    ScaleBounds(f);
    UnpackedValue(f, bits);
    if n == 0 {
      FiniteIsNotSpecial(f, bits);
      ZeroFields(f, bits);
    } else {
      var u := Unpack(bits, f);
      UnpackedMagnitude(u, f);
      BinadeOf(u, f, Abs(n as real));
      ScaleOne(0);
      ScaleUnit(1);
      Pow2ROrder(0, u.exponent + 1);
    }
  }
}
