/**
 Comparison, minimum and maximum (crates/core/src/fp/softfloat/compare.rs).
 */
module Compare {
  import opened Options
  import opened Powers
  import opened Formats
  import opened Rounding
  import Nan

  datatype FpComparison = Less | Equal | Greater | Unordered

  function CompareBits(lhs: nat, rhs: nat, f: FpFormat, isSignalling: bool): (FpComparison, FpExceptions) {
    if Nan.AnyNan([lhs, rhs], f) then
      (Unordered, if isSignalling || Nan.SignallingAmong([lhs, rhs], f) then {Invalid} else {})
    else (Ordering(lhs, rhs, f), {})
  }

  /** The ordering of two patterns that are not NaNs. */
  function Ordering(lhs: nat, rhs: nat, f: FpFormat): FpComparison {
    if f.IsZero(lhs) && f.IsZero(rhs) then Equal
    else if lhs == rhs then Equal
    else if f.IsNegative(lhs) != f.IsNegative(rhs) then (if f.IsNegative(lhs) then Less else Greater)
    else
      var isLess := if f.IsNegative(lhs) then f.Magnitude(lhs) > f.Magnitude(rhs) else f.Magnitude(lhs) < f.Magnitude(rhs);
      if isLess then Less else Greater
  }

  datatype Extremum = Max | Min | MaxNum | MinNum {
    predicate IsMaximum() {
      Max? || MaxNum?
    }

    predicate IgnoresQuietNan() {
      MaxNum? || MinNum?
    }
  }

  function ExtremumOf(lhs: nat, rhs: nat, which: Extremum, f: FpFormat, control: FpControl): FpResult {
    match NumericNanCase(lhs, rhs, which, f)
    case Some(result) => result
    case None =>
      match Nan.Propagate([lhs, rhs], f, control)
      case Some(result) => result
      case None =>
        if f.IsZero(lhs) && f.IsZero(rhs) then
          Exactly(f.ZeroBits(if which.IsMaximum() then f.IsNegative(lhs) && f.IsNegative(rhs)
                             else f.IsNegative(lhs) || f.IsNegative(rhs)))
        else Exactly(if (Ordering(lhs, rhs, f) == Greater) == which.IsMaximum() then lhs else rhs)
  }

  /** Exactly one quiet NaN operand, for the operations that ignore it. */
  function NumericNanCase(lhs: nat, rhs: nat, which: Extremum, f: FpFormat): Option<FpResult> {
    if !which.IgnoresQuietNan() || Nan.SignallingAmong([lhs, rhs], f) then None
    else if f.IsNan(lhs) && !f.IsNan(rhs) then Some(Exactly(rhs))
    else if !f.IsNan(lhs) && f.IsNan(rhs) then Some(Exactly(lhs))
    else None
  }

  // ----- the order of the extended reals -----

  datatype Extended = NegativeInfinity | Finite(value: real) | PositiveInfinity

  /** What a pattern that is not a NaN denotes. */
  ghost function Denotes(f: FpFormat, bits: nat): Extended {
    if f.Magnitude(bits) < f.Infinity() then Finite(Value(f, bits))
    else if f.IsNegative(bits) then NegativeInfinity
    else PositiveInfinity
  }

  ghost predicate Before(a: Extended, b: Extended) {
    match (a, b)
    case (Finite(x), Finite(y)) => x < y
    case (NegativeInfinity, _) => !b.NegativeInfinity?
    case (_, PositiveInfinity) => !a.PositiveInfinity?
    case _ => false
  }

  predicate IsNumber(f: FpFormat, bits: nat) {
    f.Fits(bits) && !f.IsNan(bits)
  }

  /** Comparison is the order of the extended reals, the two zeroes being equal (section 5.11). */
  lemma OrderingIsRealOrder(lhs: nat, rhs: nat, f: FpFormat)
    requires IsNumber(f, lhs) && IsNumber(f, rhs)
    ensures Ordering(lhs, rhs, f) != Unordered
    ensures Ordering(lhs, rhs, f) == Less <==> Before(Denotes(f, lhs), Denotes(f, rhs))
    ensures Ordering(lhs, rhs, f) == Greater <==> Before(Denotes(f, rhs), Denotes(f, lhs))
    ensures Ordering(lhs, rhs, f) == Equal <==> Denotes(f, lhs) == Denotes(f, rhs)
  {
    hide Pow2, Mag, FpFormat.IsNegative, FpFormat.Magnitude, FpFormat.Infinity, FpFormat.Fits, FpFormat.IsNan;
    Classification(f, lhs);
    Classification(f, rhs);
    DecodeEncode(f, lhs);
    DecodeEncode(f, rhs);
    MagNonNegative(f, f.Magnitude(lhs));
    MagNonNegative(f, f.Magnitude(rhs));
    MagOrder(f, f.Magnitude(lhs), f.Magnitude(rhs));
    Layout(f);
  }

  lemma CompareMeaning(lhs: nat, rhs: nat, f: FpFormat, isSignalling: bool)
    requires f.Fits(lhs) && f.Fits(rhs)
    ensures var (order, raised) := CompareBits(lhs, rhs, f, isSignalling);
            && (order == Unordered <==> f.IsNan(lhs) || f.IsNan(rhs))
            && (raised == {Invalid} || raised == {})
            && (raised == {Invalid} <==>
                  (f.IsNan(lhs) || f.IsNan(rhs)) && (isSignalling || f.IsSignallingNan(lhs) || f.IsSignallingNan(rhs)))
            && (!f.IsNan(lhs) && !f.IsNan(rhs) ==>
                  && (order == Less <==> Before(Denotes(f, lhs), Denotes(f, rhs)))
                  && (order == Equal <==> Denotes(f, lhs) == Denotes(f, rhs)))
  {
    hide FpFormat.IsNan, FpFormat.Fits, Ordering, Denotes, Before, FpFormat.IsSignallingNan;
    assert lhs in [lhs, rhs] && rhs in [lhs, rhs];
    SignallingIsNan(lhs, f);
    SignallingIsNan(rhs, f);
    if !f.IsNan(lhs) && !f.IsNan(rhs) {
      OrderingIsRealOrder(lhs, rhs, f);
    }
  }

  lemma SignallingIsNan(bits: nat, f: FpFormat)
    ensures f.IsSignallingNan(bits) ==> f.IsNan(bits)
  {
  }

  /** No NaN among two numbers. */
  lemma NumbersHaveNoNan(lhs: nat, rhs: nat, which: Extremum, f: FpFormat, control: FpControl)
    requires IsNumber(f, lhs) && IsNumber(f, rhs)
    ensures NumericNanCase(lhs, rhs, which, f).None? && Nan.Propagate([lhs, rhs], f, control).None?
  {
    hide FpFormat.IsNan, FpFormat.Fits, FpFormat.IsSignallingNan, Nan.Propagate;
    SignallingIsNan(lhs, f);
    SignallingIsNan(rhs, f);
  }

  /** The extremum of two numbers is one of them, and the other does not beat it. */
  lemma ExtremumIsExtreme(lhs: nat, rhs: nat, which: Extremum, f: FpFormat, control: FpControl)
    requires IsNumber(f, lhs) && IsNumber(f, rhs)
    ensures var r := ExtremumOf(lhs, rhs, which, f, control);
            && r.raised == {} && (r.bits == lhs || r.bits == rhs)
            && (which.IsMaximum() ==> !Before(Denotes(f, r.bits), Denotes(f, lhs)) && !Before(Denotes(f, r.bits), Denotes(f, rhs)))
            && (!which.IsMaximum() ==> !Before(Denotes(f, lhs), Denotes(f, r.bits)) && !Before(Denotes(f, rhs), Denotes(f, r.bits)))
  {
    hide Pow2, FpFormat.IsNan, FpFormat.IsNegative, FpFormat.Magnitude, Before, Denotes, Ordering, FpFormat.Fits, NumericNanCase,
         Nan.Propagate;
    NumbersHaveNoNan(lhs, rhs, which, f, control);
    OrderingIsRealOrder(lhs, rhs, f);
    OrderingIsRealOrder(lhs, lhs, f);
    OrderingIsRealOrder(rhs, rhs, f);
    SameBitsAreEqual(lhs, f);
    SameBitsAreEqual(rhs, f);
    if f.IsZero(lhs) && f.IsZero(rhs) {
      DecodeEncode(f, lhs);
      DecodeEncode(f, rhs);
      ZeroesAreEqual(lhs, rhs, f);
    }
  }

  lemma SameBitsAreEqual(bits: nat, f: FpFormat)
    ensures Ordering(bits, bits, f) == Equal
  {
  }

  lemma ZeroesAreEqual(lhs: nat, rhs: nat, f: FpFormat)
    requires f.IsZero(lhs) && f.IsZero(rhs)
    ensures Ordering(lhs, rhs, f) == Equal
  {
  }

  /** Neither extremum of two numbers depends on the operand order, zeroes included. */
  lemma ExtremumCommutes(lhs: nat, rhs: nat, which: Extremum, f: FpFormat, control: FpControl)
    requires IsNumber(f, lhs) && IsNumber(f, rhs)
    ensures ExtremumOf(lhs, rhs, which, f, control) == ExtremumOf(rhs, lhs, which, f, control)
  {
    hide Pow2, FpFormat.IsNan, FpFormat.IsNegative, FpFormat.Magnitude, FpFormat.Fits, NumericNanCase, Nan.Propagate;
    NumbersHaveNoNan(lhs, rhs, which, f, control);
    NumbersHaveNoNan(rhs, lhs, which, f, control);
    DecodeEncode(f, lhs);
    DecodeEncode(f, rhs);
  }

  function Opposite(which: Extremum): Extremum {
    match which
    case Max => Min
    case Min => Max
    case MaxNum => MinNum
    case MinNum => MaxNum
  }

  /** The maximum of the negations is the negation of the minimum. */
  lemma ExtremumDuality(lhs: nat, rhs: nat, which: Extremum, f: FpFormat, control: FpControl)
    requires IsNumber(f, lhs) && IsNumber(f, rhs)
    ensures ExtremumOf(f.FlipSign(lhs), f.FlipSign(rhs), which, f, control).bits
         == f.FlipSign(ExtremumOf(lhs, rhs, Opposite(which), f, control).bits)
  {
    hide Pow2, FpFormat.IsNan, FpFormat.IsNegative, FpFormat.Magnitude, FpFormat.Fits, FpFormat.FlipSign, NumericNanCase, Nan.Propagate,
         FpFormat.Infinity, FpFormat.Encode;
    var a, b := f.FlipSign(lhs), f.FlipSign(rhs);
    FlippedNumber(f, lhs);
    FlippedNumber(f, rhs);
    NumbersHaveNoNan(lhs, rhs, Opposite(which), f, control);
    NumbersHaveNoNan(a, b, which, f, control);
    DecodeEncode(f, lhs);
    DecodeEncode(f, rhs);
    DecodeEncode(f, a);
    DecodeEncode(f, b);
    FlippedZero(f, true);
    FlippedZero(f, false);
  }

  lemma FlippedNumber(f: FpFormat, bits: nat)
    requires IsNumber(f, bits)
    ensures IsNumber(f, f.FlipSign(bits)) && f.IsNegative(f.FlipSign(bits)) == !f.IsNegative(bits)
    ensures f.Magnitude(f.FlipSign(bits)) == f.Magnitude(bits)
  {
    hide Pow2, FpFormat.IsNan;
    FlipSignMeaning(f, bits);
    Classification(f, bits);
    Classification(f, f.FlipSign(bits));
  }

  lemma FlippedZero(f: FpFormat, isNegative: bool)
    ensures f.FlipSign(f.ZeroBits(isNegative)) == f.ZeroBits(!isNegative)
  {
    hide Pow2;
    SignAndMagnitude(f, isNegative, 0);
  }

  /** The NaN cases: a lone quiet NaN is ignored by the numeric forms, and any other NaN comes out as a quiet one. */
  lemma ExtremumNans(lhs: nat, rhs: nat, which: Extremum, f: FpFormat, control: FpControl)
    requires f.Fits(lhs) && f.Fits(rhs) && (f.IsNan(lhs) || f.IsNan(rhs))
    ensures var r := ExtremumOf(lhs, rhs, which, f, control);
            var hasSignalling := f.IsSignallingNan(lhs) || f.IsSignallingNan(rhs);
            && (which.IgnoresQuietNan() && !hasSignalling && !(f.IsNan(lhs) && f.IsNan(rhs)) ==>
                  r == Exactly(if f.IsNan(lhs) then rhs else lhs))
            && (!which.IgnoresQuietNan() || hasSignalling || (f.IsNan(lhs) && f.IsNan(rhs)) ==>
                  f.IsNan(r.bits) && !f.IsSignallingNan(r.bits) && r.raised == if hasSignalling then {Invalid} else {})
  {
    hide Pow2, FpFormat.IsNan, FpFormat.IsSignallingNan, FpFormat.Fits, Nan.Propagate;
    assert lhs in [lhs, rhs] && rhs in [lhs, rhs];
    SignallingIsNan(lhs, f);
    SignallingIsNan(rhs, f);
    Nan.PropagatedIsQuietNan([lhs, rhs], f, control);
  }
}
