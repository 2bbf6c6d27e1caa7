/**
 What every floating-point operation is stated in: formats, rounding modes, exception flags
 and control state (crates/core/src/fp/operand.rs, crates/core/src/fp/control.rs).

 A floating-point value is carried as its raw bits, a natural number below 2^width.
 */
module Formats {
  import opened Options
  import opened Powers

  datatype FpRounding = Nearest | Plus | Minus | Zero | NearestAway | Odd

  datatype FpException = Invalid | DivideByZero | Overflow | Underflow | Inexact | InputDenormal

  /** The FPSR cumulative flags one operation raises; `union` is set union. */
  type FpExceptions = set<FpException>

  /** The fields of FPCR the softfloat path reads. */
  datatype FpControl = FpControl(isFlushToZero: bool, isFlushToZeroFp16: bool, isDefaultNan: bool)

  datatype FpResult = FpResult(bits: nat, raised: FpExceptions)

  function Exactly(bits: nat): FpResult {
    FpResult(bits, {})
  }

  datatype FpFormat = Half | Single | Double {

    function Bits(): nat {
      match this
      case Half => 16
      case Single => 32
      case Double => 64
    }

    function MantissaBits(): nat {
      match this
      case Half => 10
      case Single => 23
      case Double => 52
    }

    function ExponentBits(): nat {
      Bits() - MantissaBits() - 1
    }

    function MaxExponent(): nat {
      Pow2(ExponentBits()) - 1
    }

    function ExponentBias(): nat {
      Pow2(ExponentBits() - 1) - 1
    }

    function SignShift(): nat {
      Bits() - 1
    }

    function Infinity(): nat {
      MaxExponent() * Pow2(MantissaBits())
    }

    function QuietBit(): nat {
      Pow2(MantissaBits() - 1)
    }

    function DefaultNan(): nat {
      Infinity() + QuietBit()
    }

    /** Whether `bits` is a pattern of this format's width. */
    predicate Fits(bits: nat) {
      bits < Pow2(Bits())
    }

    function IsNegative(bits: nat): bool {
      bits / Pow2(SignShift()) % 2 == 1
    }

    function ExponentField(bits: nat): nat {
      bits / Pow2(MantissaBits()) % (MaxExponent() + 1)
    }

    function MantissaField(bits: nat): nat {
      bits % Pow2(MantissaBits())
    }

    /** The pattern with its sign bit cleared. */
    function Magnitude(bits: nat): nat {
      bits % Pow2(SignShift())
    }

    predicate IsNan(bits: nat) {
      ExponentField(bits) == MaxExponent() && MantissaField(bits) != 0
    }

    predicate IsSignallingNan(bits: nat) {
      IsNan(bits) && bits / QuietBit() % 2 == 0
    }

    predicate IsInfinite(bits: nat) {
      ExponentField(bits) == MaxExponent() && MantissaField(bits) == 0
    }

    predicate IsZero(bits: nat) {
      Magnitude(bits) == 0
    }

    predicate IsSubnormal(bits: nat) {
      ExponentField(bits) == 0 && MantissaField(bits) != 0
    }

    function SignBit(isNegative: bool): nat {
      if isNegative then Pow2(SignShift()) else 0
    }

    /** A sign and a magnitude pattern, put together. */
    function Encode(isNegative: bool, magnitude: nat): nat {
      SignBit(isNegative) + magnitude
    }

    function ZeroBits(isNegative: bool): nat {
      Encode(isNegative, 0)
    }

    function SignedInfinity(isNegative: bool): nat {
      Encode(isNegative, Infinity())
    }

    /** Exclusive-or with the sign bit. */
    function FlipSign(bits: nat): nat {
      if IsNegative(bits) && bits >= Pow2(SignShift()) then bits - Pow2(SignShift()) else bits + Pow2(SignShift())
    }

    function Quieten(bits: nat): nat {
      if IsSignallingNan(bits) then bits + QuietBit() else bits
    }
  }

  predicate IsFlushing(f: FpFormat, control: FpControl) {
    if f.Half? then control.isFlushToZeroFp16 else control.isFlushToZero
  }

  /** Numeric geometry, one row a format. */
  lemma Geometry(f: FpFormat)
    ensures f.Half? ==> f.ExponentBits() == 5 && f.ExponentBias() == 15 && f.MaxExponent() == 31
    ensures f.Single? ==> f.ExponentBits() == 8 && f.ExponentBias() == 127 && f.MaxExponent() == 255
    ensures f.Double? ==> f.ExponentBits() == 11 && f.ExponentBias() == 1023 && f.MaxExponent() == 2047
    ensures f.MaxExponent() == 2 * f.ExponentBias() + 1
    ensures f.ExponentBias() > f.MantissaBits()
  {
    assert Pow2(4) == 16;
    assert Pow2(7) == 128;
    assert Pow2(10) == 1024;
  }

  /** The exponent and mantissa fields tile the magnitude, and the sign bit sits above them. */
  lemma Layout(f: FpFormat)
    ensures Pow2(f.SignShift()) == (f.MaxExponent() + 1) * Pow2(f.MantissaBits())
    ensures f.Infinity() + Pow2(f.MantissaBits()) == Pow2(f.SignShift())
    ensures Pow2(f.Bits()) == 2 * Pow2(f.SignShift())
    ensures 0 < f.Infinity()
  {
    hide Pow2;
    Geometry(f);
    Pow2Small();
    Pow2Add(1, f.SignShift());
    Pow2Add(f.ExponentBits(), f.MantissaBits());
    hide FpFormat.MantissaBits, FpFormat.Bits;
    Distribute(f.MaxExponent(), Pow2(f.MantissaBits()));
    MulMonotone(1, f.MaxExponent(), Pow2(f.MantissaBits()));
  }

  lemma Distribute(a: nat, c: nat)
    ensures (a + 1) * c == a * c + c
  {
  }

  /** A pattern's fields are those of its magnitude. */
  lemma FieldsOfMagnitude(f: FpFormat, bits: nat)
    ensures f.ExponentField(bits) == f.Magnitude(bits) / Pow2(f.MantissaBits())
    ensures f.MantissaField(bits) == f.Magnitude(bits) % Pow2(f.MantissaBits())
    ensures f.Magnitude(bits) == f.ExponentField(bits) * Pow2(f.MantissaBits()) + f.MantissaField(bits)
    ensures f.ExponentField(bits) <= f.MaxExponent() && f.MantissaField(bits) < Pow2(f.MantissaBits())
  {
    hide Pow2, FpFormat.MaxExponent, FpFormat.MantissaBits;
    Layout(f);
    TiledFields(bits, Pow2(f.MantissaBits()), f.MaxExponent() + 1, Pow2(f.SignShift()));
  }

  lemma TiledFields(n: nat, low: nat, high: nat, whole: nat)
    requires low > 0 && high > 0 && whole == high * low
    ensures n / low % high == n % whole / low
    ensures n % low == n % whole % low
    ensures n % whole == (n / low % high) * low + n % low
  {
    var q, r := n / low, n % low;
    var h, l := q / high, q % high;
    MulAssoc(h, high, low);
    assert n == h * whole + (l * low + r) by {
      assert n == q * low + r;
      assert q == h * high + l;
      assert q * low == (h * high) * low + l * low;
    }
    MulMonotone(l, high - 1, low);
    DivModUnique(n, whole, h, l * low + r);
    DivModUnique(l * low + r, low, l, r);
  }

  /** Classification by magnitude alone. */
  lemma Classification(f: FpFormat, bits: nat)
    ensures f.IsNan(bits) <==> f.Magnitude(bits) > f.Infinity()
    ensures f.IsInfinite(bits) <==> f.Magnitude(bits) == f.Infinity()
    ensures f.IsSubnormal(bits) <==> 0 < f.Magnitude(bits) < Pow2(f.MantissaBits())
  {
    FieldsOfMagnitude(f, bits);
    hide Pow2;
    TiledOrder(f.ExponentField(bits), f.MantissaField(bits), Pow2(f.MantissaBits()), f.MaxExponent());
  }

  lemma TiledOrder(high: nat, low: nat, unit: nat, top: nat)
    requires low < unit && high <= top
    ensures high < top <==> high * unit + low < top * unit
    ensures high == top && low == 0 <==> high * unit + low == top * unit
    ensures high == 0 <==> high * unit + low < unit
  {
    if high < top {
      MulMonotone(high, top - 1, unit);
    }
    if high > 0 {
      MulMonotone(1, high, unit);
    }
  }

  /** Sign and magnitude round-trip through a pattern. */
  lemma SignAndMagnitude(f: FpFormat, isNegative: bool, magnitude: nat)
    requires magnitude < Pow2(f.SignShift())
    ensures var bits := f.Encode(isNegative, magnitude);
            f.Fits(bits) && f.IsNegative(bits) == isNegative && f.Magnitude(bits) == magnitude
  {
    hide Pow2, FpFormat.SignShift;
    Layout(f);
    var s := Pow2(f.SignShift());
    DivModUnique(f.Encode(isNegative, magnitude), s, if isNegative then 1 else 0, magnitude);
  }

  lemma DecodeEncode(f: FpFormat, bits: nat)
    requires f.Fits(bits)
    ensures bits == f.Encode(f.IsNegative(bits), f.Magnitude(bits))
    ensures f.Magnitude(bits) < Pow2(f.SignShift())
  {
    Layout(f);
    hide Pow2;
    SplitTop(bits, Pow2(f.SignShift()));
  }

  lemma SplitTop(n: nat, s: nat)
    requires 0 < s && n < 2 * s
    ensures n == (if n / s % 2 == 1 then s else 0) + n % s
  {
    if n < s {
      DivModUnique(n, s, 0, n);
    } else {
      DivModUnique(n, s, 1, n - s);
    }
  }

  lemma FlipSignMeaning(f: FpFormat, bits: nat)
    requires f.Fits(bits)
    ensures f.Fits(f.FlipSign(bits))
    ensures f.IsNegative(f.FlipSign(bits)) == !f.IsNegative(bits)
    ensures f.Magnitude(f.FlipSign(bits)) == f.Magnitude(bits)
  {
    DecodeEncode(f, bits);
    SignAndMagnitude(f, !f.IsNegative(bits), f.Magnitude(bits));
  }
}
