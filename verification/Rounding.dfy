/**
 What correct rounding means, independently of the code: sections 3.3, 4.3 and 7.4 to 7.6 of
 IEEE 754-2019.

 Magnitude patterns (patterns with a clear sign bit) enumerate the representable magnitudes in
 increasing order, so the two neighbours of an exact magnitude are consecutive patterns.  The
 pattern of infinity stands for 2^(emax+1) here, the value the next binade would start at.
 */
module Rounding {
  import opened Powers
  import opened Formats

  /** Exponent of the quantum, the distance between subnormals. */
  function QuantumExponent(f: FpFormat): int {
    1 - f.ExponentBias() - f.MantissaBits()
  }

  /**
   A magnitude pattern's value counted in quanta, when the mantissa field takes `p` values:
   the field itself in the subnormal binade, the field with its implicit bit shifted into place
   in the others.
   */
  function Units(p: nat, b: nat): nat
    requires p > 0
  {
    var e, t := b / p, b % p;
    if e == 0 then t else (p + t) * Pow2(e - 1)
  }

  /** The real number a magnitude pattern denotes. */
  ghost function Mag(f: FpFormat, b: nat): real {
    Scale(Units(Pow2(f.MantissaBits()), b), QuantumExponent(f))
  }

  predicate IsFinite(f: FpFormat, bits: nat) {
    f.Fits(bits) && f.Magnitude(bits) < f.Infinity()
  }

  /** The real number a finite pattern denotes. */
  ghost function Value(f: FpFormat, bits: nat): real {
    if f.IsNegative(bits) then -Mag(f, f.Magnitude(bits)) else Mag(f, f.Magnitude(bits))
  }

  ghost function Abs(x: real): real {
    if x < 0.0 then -x else x
  }

  /** A rounding-direction attribute as it acts on magnitudes. */
  datatype Rule = TiesToEven | TiesToAway | TowardZero | AwayFromZero

  /**
   The rule each mode applies to a value of the given sign.  `Odd` truncates: the packer treats
   it as round toward zero (crates/core/src/fp/softfloat/decompose.rs:215-217).
   */
  function RuleFor(mode: FpRounding, isNegative: bool): Rule {
    match mode
    case Nearest => TiesToEven
    case NearestAway => TiesToAway
    case Zero => TowardZero
    case Odd => TowardZero
    case Plus => if isNegative then TowardZero else AwayFromZero
    case Minus => if isNegative then AwayFromZero else TowardZero
  }

  /** `lo` and `lo + 1` are the patterns an exact magnitude lies between. */
  ghost predicate IsLowerNeighbour(f: FpFormat, v: real, lo: nat) {
    lo < f.Infinity() && Mag(f, lo) <= v < Mag(f, lo + 1)
  }

  /** Whether the upper of two neighbours is selected; `isEven` is about the lower one. */
  ghost predicate SelectsUpper(rule: Rule, v: real, lower: real, upper: real, isEven: bool) {
    v != lower &&
    match rule
    case TowardZero => false
    case AwayFromZero => true
    case TiesToEven => 2.0 * v > lower + upper || (2.0 * v == lower + upper && !isEven)
    case TiesToAway => 2.0 * v >= lower + upper
  }

  /** The one of the two neighbours that the rule selects. */
  ghost function Selected(f: FpFormat, rule: Rule, v: real, lo: nat): nat {
    if SelectsUpper(rule, v, Mag(f, lo), Mag(f, lo + 1), lo % 2 == 0) then lo + 1 else lo
  }

  ghost predicate IsBeyondRange(f: FpFormat, v: real) {
    v >= Mag(f, f.Infinity())
  }

  /** `b` is the magnitude pattern the exact magnitude `v` rounds to. */
  ghost predicate RoundsMagnitude(f: FpFormat, rule: Rule, v: real, b: nat) {
    if IsBeyondRange(f, v) then
      b == if rule == TowardZero then f.Infinity() - 1 else f.Infinity()
    else
      exists lo: nat :: IsLowerNeighbour(f, v, lo) && b == Selected(f, rule, v, lo)
  }

  /** `bits` is the correct rounding of the non-zero exact value `x`. */
  ghost predicate RoundsTo(f: FpFormat, mode: FpRounding, x: real, bits: nat)
  {
    && f.Fits(bits)
    && f.IsNegative(bits) == (x < 0.0)
    && RoundsMagnitude(f, RuleFor(mode, x < 0.0), Abs(x), f.Magnitude(bits))
  }

  /** Some finite pattern denotes exactly the magnitude `v`. */
  ghost predicate IsRepresentable(f: FpFormat, v: real) {
    exists b: nat :: b < f.Infinity() && Mag(f, b) == v
  }

  /** The smallest normal magnitude, 2^emin. */
  ghost function MinNormal(f: FpFormat): real {
    Mag(f, Pow2(f.MantissaBits()))
  }

  /**
   The flags section 7 asks for: inexact when the result differs from the exact magnitude,
   overflow when rounding with an unbounded exponent passes the largest finite number, and
   underflow (tininess detected before rounding) when the result is also inexact.
   */
  ghost function FlagsFor(f: FpFormat, rule: Rule, v: real): FpExceptions {
    if IsRepresentable(f, v) then {}
    else if IsBeyondRange(f, v) || RoundsMagnitude(f, rule, v, f.Infinity()) then {Overflow, Inexact}
    else if v < MinNormal(f) then {Underflow, Inexact}
    else {Inexact}
  }

  // ----- the enumeration is strictly increasing -----

  lemma UnitsStep(p: nat, b: nat)
    requires p > 0
    ensures Units(p, b) < Units(p, b + 1)
    ensures b / p > 0 ==> Units(p, b + 1) == Units(p, b) + Pow2(b / p - 1)
    ensures b / p == 0 ==> Units(p, b) == b && Units(p, b + 1) == b + 1
  {
    hide Pow2, Units;
    var e, t := b / p, b % p;
    DivBounds(b, p);
    UnitsAt(p, e, t);
    if t + 1 < p {
      UnitsAt(p, e, t + 1);
      if e > 0 {
        Distribute(p + t, Pow2(e - 1));
      }
    } else {
      Distribute(e, p);
      UnitsAt(p, e + 1, 0);
      if e > 0 {
        Distribute(p + t, Pow2(e - 1));
        Pow2Double(e - 1);
        MulAssoc(p, 2, Pow2(e - 1));
      } else {
        Pow2Small();
      }
    }
  }

  lemma UnitsAt(p: nat, e: nat, t: nat)
    requires t < p
    ensures Units(p, e * p + t) == if e == 0 then t else (p + t) * Pow2(e - 1)
  {
    hide Pow2;
    DivModUnique(e * p + t, p, e, t);
  }

  lemma {:induction false} UnitsIncreasing(p: nat, a: nat, b: nat)
    requires p > 0 && a < b
    ensures Units(p, a) < Units(p, b)
    decreases b
  {
    UnitsStep(p, b - 1);
    if a < b - 1 {
      UnitsIncreasing(p, a, b - 1);
    }
  }

  /** The order of magnitude patterns is the order of the numbers they denote. */
  lemma MagOrder(f: FpFormat, a: nat, b: nat)
    ensures a < b <==> Mag(f, a) < Mag(f, b)
    ensures a == b <==> Mag(f, a) == Mag(f, b)
  {
    hide Pow2, Units, Scale;
    var p := Pow2(f.MantissaBits());
    if a < b {
      UnitsIncreasing(p, a, b);
    } else if b < a {
      UnitsIncreasing(p, b, a);
    }
    ScaleOrder(Units(p, a), Units(p, b), QuantumExponent(f));
  }

  /** A pattern and its successor as significands at one exponent. */
  lemma MagAsSignificand(f: FpFormat, c: nat) returns (t: nat, h: nat)
    ensures Mag(f, c) == Scale(t, QuantumExponent(f) + h) && Mag(f, c + 1) == Scale(t + 1, QuantumExponent(f) + h)
    ensures t < 2 * Pow2(f.MantissaBits())
  {
    hide Pow2, Scale;
    var p, q := Pow2(f.MantissaBits()), QuantumExponent(f);
    t, h := UnitsAsSignificand(p, c);
    ScaleShift(t, h, q);
    ScaleShift(t + 1, h, q);
  }

  lemma UnitsAsSignificand(p: nat, c: nat) returns (t: nat, h: nat)
    requires p > 0
    ensures Units(p, c) == t * Pow2(h) && Units(p, c + 1) == (t + 1) * Pow2(h) && t < 2 * p
  {
    UnitsStep(p, c);
    UnitsSplit(p, c);
    hide Pow2, Units;
    if c / p == 0 {
      t, h := c, 0;
      Pow2Small();
    } else {
      t, h := p + c % p, c / p - 1;
      Distribute(t, Pow2(h));
    }
  }

  lemma UnitsSplit(p: nat, c: nat)
    requires p > 0
    ensures 0 <= c % p < p && (c / p == 0 ==> c < p)
    ensures c / p > 0 ==> Units(p, c) == (p + c % p) * Pow2(c / p - 1)
    ensures c / p >= 0
  {
    DivBounds(c, p);
  }

  lemma HalfwaySignificand(d: real, t: nat, e: int)
    requires 2.0 * d == Scale(t, e) + Scale(t + 1, e)
    ensures d == Scale(2 * t + 1, e - 1)
  {
    hide Scale, Pow2;
    ScaleAdd(t, t + 1, e);
    ScaleShift(2 * t + 1, 1, e - 1);
    Pow2Small();
    ScaleAdd(2 * t + 1, 2 * t + 1, e - 1);
  }

  lemma MagZero(f: FpFormat)
    ensures Mag(f, 0) == 0.0
  {
    UnitsZero(Pow2(f.MantissaBits()));
  }

  lemma UnitsZero(p: nat)
    requires p > 0
    ensures Units(p, 0) == 0
  {
    DivModUnique(0, p, 0, 0);
  }

  lemma MagNonNegative(f: FpFormat, b: nat)
    ensures Mag(f, b) >= 0.0
    ensures b > 0 <==> Mag(f, b) > 0.0
  {
    hide Mag, Pow2;
    MagZero(f);
    MagOrder(f, 0, b);
  }

  // ----- rounding is a total function of the exact value -----

  lemma NeighbourUnique(f: FpFormat, v: real, a: nat, b: nat)
    requires IsLowerNeighbour(f, v, a) && IsLowerNeighbour(f, v, b)
    ensures a == b
  {
    hide Mag, Pow2;
    MagOrder(f, a, b + 1);
    MagOrder(f, b, a + 1);
  }

  lemma NeighbourInRange(f: FpFormat, v: real, lo: nat)
    requires IsLowerNeighbour(f, v, lo)
    ensures !IsBeyondRange(f, v)
  {
    hide Mag, Pow2;
    MagOrder(f, f.Infinity(), lo + 1);
  }

  lemma {:induction false} NeighbourExists(f: FpFormat, v: real, top: nat) returns (lo: nat)
    requires 0.0 <= v < Mag(f, top) && top <= f.Infinity()
    ensures IsLowerNeighbour(f, v, lo)
    decreases top
  {
    hide Mag, Pow2;
    MagZero(f);
    if Mag(f, top - 1) <= v {
      lo := top - 1;
    } else {
      lo := NeighbourExists(f, v, top - 1);
    }
  }

  lemma RoundingExists(f: FpFormat, rule: Rule, v: real) returns (b: nat)
    requires v >= 0.0
    ensures RoundsMagnitude(f, rule, v, b)
  {
    hide Mag, Pow2;
    Layout(f);
    if IsBeyondRange(f, v) {
      b := if rule == TowardZero then f.Infinity() - 1 else f.Infinity();
    } else {
      var lo := NeighbourExists(f, v, f.Infinity());
      b := Selected(f, rule, v, lo);
    }
  }

  lemma RoundingUnique(f: FpFormat, rule: Rule, v: real, a: nat, b: nat)
    requires RoundsMagnitude(f, rule, v, a) && RoundsMagnitude(f, rule, v, b)
    ensures a == b
  {
    hide Mag, Pow2;
    if !IsBeyondRange(f, v) {
      var l: nat :| IsLowerNeighbour(f, v, l) && a == Selected(f, rule, v, l);
      var m: nat :| IsLowerNeighbour(f, v, m) && b == Selected(f, rule, v, m);
      NeighbourUnique(f, v, l, m);
    }
  }

  /** A rounded pattern never exceeds infinity. */
  lemma RoundingInRange(f: FpFormat, rule: Rule, v: real, b: nat)
    requires RoundsMagnitude(f, rule, v, b)
    ensures b <= f.Infinity() < Pow2(f.SignShift())
  {
    hide Pow2, Mag;
    Layout(f);
  }

  /** At most one pattern is the correct rounding of a value. */
  lemma RoundsToUnique(f: FpFormat, mode: FpRounding, x: real, a: nat, b: nat)
    requires RoundsTo(f, mode, x, a) && RoundsTo(f, mode, x, b)
    ensures a == b
  {
    RoundingUnique(f, RuleFor(mode, x < 0.0), Abs(x), f.Magnitude(a), f.Magnitude(b));
    DecodeEncode(f, a);
    DecodeEncode(f, b);
  }

  /** A representable magnitude rounds to itself under every rule. */
  lemma RepresentableIsFixed(f: FpFormat, rule: Rule, b: nat)
    requires b < f.Infinity()
    ensures RoundsMagnitude(f, rule, Mag(f, b), b)
  {
    hide Mag, Pow2;
    MagOrder(f, b, b + 1);
    MagOrder(f, b, f.Infinity());
    assert IsLowerNeighbour(f, Mag(f, b), b);
  }

  // ----- what the rules mean -----

  /** Toward zero: the largest finite magnitude that does not exceed the exact one. */
  lemma TowardZeroIsLargestBelow(f: FpFormat, v: real, b: nat, c: nat)
    requires v >= 0.0 && RoundsMagnitude(f, TowardZero, v, b)
    requires c < f.Infinity() && Mag(f, c) <= v
    ensures b < f.Infinity() && Mag(f, b) <= v && c <= b
  {
    hide Mag, Pow2;
    Layout(f);
    MagOrder(f, f.Infinity() - 1, f.Infinity());
    if !IsBeyondRange(f, v) {
      MagOrder(f, c, b + 1);
    }
  }

  /** Away from zero: the smallest pattern, infinity included, that is not below the exact magnitude. */
  lemma AwayFromZeroIsSmallestAbove(f: FpFormat, v: real, b: nat, c: nat)
    requires v >= 0.0 && RoundsMagnitude(f, AwayFromZero, v, b)
    requires c <= f.Infinity() && (c == f.Infinity() || v <= Mag(f, c))
    ensures b <= f.Infinity() && (b == f.Infinity() || v <= Mag(f, b)) && b <= c
  {
    hide Mag, Pow2;
    if IsBeyondRange(f, v) {
      MagOrder(f, c, f.Infinity());
      MagOrder(f, b, f.Infinity());
    } else {
      var lo: nat :| IsLowerNeighbour(f, v, lo) && b == Selected(f, AwayFromZero, v, lo);
      MagOrder(f, lo, c);
    }
  }

  /** To nearest: no finite magnitude is closer, and of two equally close ones an even pattern wins. */
  lemma NearestIsClosest(f: FpFormat, rule: Rule, v: real, b: nat, c: nat)
    requires v >= 0.0 && (rule == TiesToEven || rule == TiesToAway)
    requires RoundsMagnitude(f, rule, v, b) && b < f.Infinity() && c < f.Infinity()
    ensures Abs(v - Mag(f, b)) <= Abs(v - Mag(f, c))
    ensures b != c && Abs(v - Mag(f, b)) == Abs(v - Mag(f, c)) ==>
              if rule == TiesToEven then b % 2 == 0 else Mag(f, c) < Mag(f, b)
  {
    hide Mag, Pow2;
    var lo: nat :| IsLowerNeighbour(f, v, lo) && b == Selected(f, rule, v, lo);
    MagOrder(f, lo, c);
    MagOrder(f, c, lo + 1);
    MagOrder(f, lo, lo + 1);
  }

  /** Rounding preserves order. */
  lemma RoundingMonotone(f: FpFormat, rule: Rule, v: real, w: real, a: nat, b: nat)
    requires 0.0 <= v <= w && RoundsMagnitude(f, rule, v, a) && RoundsMagnitude(f, rule, w, b)
    ensures a <= b
  {
    hide Mag, Pow2, SelectsUpper, FpFormat.Infinity;
    TruncationSelectsLower(f, v);
    Layout(f);
    if IsBeyondRange(f, w) {
      if IsBeyondRange(f, v) {
        RoundingUnique(f, rule, v, a, b);
      }
    } else {
      var l: nat :| IsLowerNeighbour(f, v, l) && a == Selected(f, rule, v, l);
      var m: nat :| IsLowerNeighbour(f, w, m) && b == Selected(f, rule, w, m);
      MagOrder(f, l, m + 1);
      SelectedMonotone(f, rule, v, w, l);
    }
  }

  lemma TruncationSelectsLower(f: FpFormat, v: real)
    ensures forall lo: nat :: Selected(f, TowardZero, v, lo) == lo
  {
    hide Mag;
  }

  lemma SelectedMonotone(f: FpFormat, rule: Rule, v: real, w: real, lo: nat)
    requires Mag(f, lo) <= v <= w
    ensures lo <= Selected(f, rule, v, lo) <= Selected(f, rule, w, lo) <= lo + 1
  {
    hide Mag, Pow2;
  }

  /** Where the rule starts to overflow: magnitudes above it do, magnitudes below it do not. */
  ghost function OverflowThreshold(f: FpFormat, rule: Rule): real {
    match rule
    case TowardZero => Mag(f, f.Infinity())
    case AwayFromZero => Mag(f, f.Infinity() - 1)
    case _ => (Mag(f, f.Infinity() - 1) + Mag(f, f.Infinity())) / 2.0
  }

  lemma OverflowsAbove(f: FpFormat, rule: Rule, v: real)
    requires v >= 0.0 && v != OverflowThreshold(f, rule)
    ensures IsBeyondRange(f, v) || RoundsMagnitude(f, rule, v, f.Infinity()) <==> v > OverflowThreshold(f, rule)
  {
    hide Mag, Pow2;
    Layout(f);
    var top := f.Infinity();
    MagOrder(f, top - 1, top);
    if !IsBeyondRange(f, v) {
      var b := RoundingExists(f, rule, v);
      var lo: nat :| IsLowerNeighbour(f, v, lo) && b == Selected(f, rule, v, lo);
      MagOrder(f, lo, top - 1);
      MagOrder(f, lo + 1, top - 1);
      if RoundsMagnitude(f, rule, v, top) {
        RoundingUnique(f, rule, v, b, top);
      }
    }
  }

  // ----- where rounding changes its answer -----

  /** A representable magnitude, the start of the next binade included, or a midpoint of two neighbours. */
  ghost predicate IsDecisionPoint(f: FpFormat, d: real) {
    || (exists c: nat :: c <= f.Infinity() && Mag(f, c) == d)
    || (exists c: nat :: c < f.Infinity() && IsMidpoint(f, d, c))
  }

  ghost predicate IsMidpoint(f: FpFormat, d: real, c: nat) {
    2.0 * d == Mag(f, c) + Mag(f, c + 1)
  }

  /** A decision point at which the rule's rounding actually steps. */
  ghost predicate IsBreakpoint(f: FpFormat, rule: Rule, w: real) {
    if rule == TowardZero || rule == AwayFromZero then IsRepresentable(f, w)
    else exists c: nat :: c < f.Infinity() && IsMidpoint(f, w, c)
  }

  /** Nothing between v and y decides rounding, except perhaps w. */
  ghost predicate IsOnlyDecision(f: FpFormat, v: real, w: real, y: real) {
    forall d: real :: IsDecisionPoint(f, d) && v <= d <= y ==> d == w
  }

  lemma MidpointsBetween(f: FpFormat, c: nat)
    requires c < f.Infinity()
    ensures Mag(f, c) < (Mag(f, c) + Mag(f, c + 1)) / 2.0 < Mag(f, c + 1)
    ensures IsMidpoint(f, (Mag(f, c) + Mag(f, c + 1)) / 2.0, c)
    ensures IsDecisionPoint(f, (Mag(f, c) + Mag(f, c + 1)) / 2.0)
    ensures IsDecisionPoint(f, Mag(f, c)) && IsDecisionPoint(f, Mag(f, c + 1))
  {
    hide Mag, Pow2, FpFormat.Infinity;
    MagOrder(f, c, c + 1);
  }

  /** Magnitudes on either side of a lone decision point round alike exactly when it is no breakpoint. */
  lemma AcrossDecision(f: FpFormat, rule: Rule, v: real, w: real, y: real, a: nat, b: nat)
    requires 0.0 <= v < w < y && IsOnlyDecision(f, v, w, y)
    requires RoundsMagnitude(f, rule, v, a) && RoundsMagnitude(f, rule, y, b)
    ensures IsBreakpoint(f, rule, w) ==> b == a + 1
    ensures !IsBreakpoint(f, rule, w) ==> b == a
  {
    hide Mag, Pow2, FpFormat.Infinity, IsDecisionPoint, IsMidpoint;
    Layout(f);
    var top := f.Infinity();
    MidpointsBetween(f, top - 1);
    if IsBeyondRange(f, v) {
      NoBreakpointBeyond(f, rule, w);
    } else {
      var lo: nat :| IsLowerNeighbour(f, v, lo) && a == Selected(f, rule, v, lo);
      MidpointsBetween(f, lo);
      if Mag(f, lo + 1) == w {
        AcrossRepresentable(f, rule, v, w, y, lo, b);
      } else {
        assert Mag(f, lo + 1) > y;
        MagOrder(f, lo + 1, top);
        MagOrder(f, lo + 1, top + 1);
        assert !IsBeyondRange(f, y);
        WithinNeighbours(f, rule, v, w, y, lo, b);
      }
    }
  }

  lemma NoBreakpointBeyond(f: FpFormat, rule: Rule, w: real)
    requires w > Mag(f, f.Infinity())
    ensures !IsBreakpoint(f, rule, w)
  {
    hide Mag, Pow2, FpFormat.Infinity;
    if IsRepresentable(f, w) {
      var c: nat :| c < f.Infinity() && Mag(f, c) == w;
      MagOrder(f, c, f.Infinity());
    }
    if exists c: nat :: c < f.Infinity() && IsMidpoint(f, w, c) {
      var c: nat :| c < f.Infinity() && IsMidpoint(f, w, c);
      MagOrder(f, c, f.Infinity());
      MagOrder(f, f.Infinity(), c + 1);
    }
  }

  lemma AcrossRepresentable(f: FpFormat, rule: Rule, v: real, w: real, y: real, lo: nat, b: nat)
    requires 0.0 <= v < w < y && IsOnlyDecision(f, v, w, y)
    requires IsLowerNeighbour(f, v, lo) && Mag(f, lo + 1) == w
    requires RoundsMagnitude(f, rule, y, b)
    ensures IsBreakpoint(f, rule, w) ==> b == Selected(f, rule, v, lo) + 1
    ensures !IsBreakpoint(f, rule, w) ==> b == Selected(f, rule, v, lo)
  {
    hide Mag, Pow2, FpFormat.Infinity, IsDecisionPoint, IsOnlyDecision;
    var top := f.Infinity();
    MidpointsBetween(f, lo);
    NotAtDecision(f, v, w, y, Mag(f, lo));
    NotAtDecision(f, v, w, y, (Mag(f, lo) + Mag(f, lo + 1)) / 2.0);
    if exists c: nat :: c < top && IsMidpoint(f, w, c) {
      var c: nat :| c < top && IsMidpoint(f, w, c);
      MidpointsBetween(f, c);
      MagOrder(f, c, lo + 1);
      MagOrder(f, lo + 1, c + 1);
    }
    if lo + 1 == top {
      if IsRepresentable(f, w) {
        var c: nat :| c < top && Mag(f, c) == w;
        MagOrder(f, c, lo + 1);
      }
    } else {
      MidpointsBetween(f, lo + 1);
      NotAtDecision(f, v, w, y, Mag(f, lo + 2));
      NotAtDecision(f, v, w, y, (Mag(f, lo + 1) + Mag(f, lo + 2)) / 2.0);
      assert IsLowerNeighbour(f, y, lo + 1);
      NeighbourInRange(f, y, lo + 1);
      RoundingUnique(f, rule, y, b, Selected(f, rule, y, lo + 1));
    }
  }

  lemma NotAtDecision(f: FpFormat, v: real, w: real, y: real, d: real)
    requires IsOnlyDecision(f, v, w, y) && IsDecisionPoint(f, d) && d != w
    ensures d < v || y < d
  {
  }

  lemma WithinNeighbours(f: FpFormat, rule: Rule, v: real, w: real, y: real, lo: nat, b: nat)
    requires 0.0 <= v < w < y && IsOnlyDecision(f, v, w, y)
    requires IsLowerNeighbour(f, v, lo) && IsLowerNeighbour(f, y, lo)
    requires RoundsMagnitude(f, rule, y, b)
    ensures IsBreakpoint(f, rule, w) ==> b == Selected(f, rule, v, lo) + 1
    ensures !IsBreakpoint(f, rule, w) ==> b == Selected(f, rule, v, lo)
  {
    hide Mag, Pow2, FpFormat.Infinity, IsDecisionPoint, IsOnlyDecision;
    var middle := (Mag(f, lo) + Mag(f, lo + 1)) / 2.0;
    MidpointsBetween(f, lo);
    NotAtDecision(f, v, w, y, Mag(f, lo));
    if middle != w {
      NotAtDecision(f, v, w, y, middle);
    }
    NeighbourInRange(f, y, lo);
    RoundingUnique(f, rule, y, b, Selected(f, rule, y, lo));
    if IsRepresentable(f, w) {
      var c: nat :| c < f.Infinity() && Mag(f, c) == w;
      MagOrder(f, lo, c);
      MagOrder(f, c, lo + 1);
    }
    if exists c: nat :: c < f.Infinity() && IsMidpoint(f, w, c) {
      var c: nat :| c < f.Infinity() && IsMidpoint(f, w, c);
      MidpointsBetween(f, c);
      MagOrder(f, lo, c + 1);
      MagOrder(f, c, lo + 1);
    }
  }

  /**
   Across a lone decision point flags change exactly at the smallest normal, where underflow ends,
   and at the threshold, where overflow begins.
   */
  lemma AcrossFlags(f: FpFormat, rule: Rule, v: real, w: real, y: real)
    requires 0.0 <= v < w < y && IsOnlyDecision(f, v, w, y)
    ensures w == OverflowThreshold(f, rule) ==>
              FlagsFor(f, rule, v) == {Inexact} && FlagsFor(f, rule, y) == {Overflow, Inexact}
    ensures w == MinNormal(f) ==>
              FlagsFor(f, rule, v) == {Underflow, Inexact} && FlagsFor(f, rule, y) == {Inexact}
    ensures w != MinNormal(f) && w != OverflowThreshold(f, rule) ==> FlagsFor(f, rule, v) == FlagsFor(f, rule, y)
  {
    hide Mag, Pow2, FpFormat.Infinity, IsDecisionPoint, IsOnlyDecision, RoundsMagnitude, OverflowThreshold, IsBeyondRange;
    NotRepresentable(f, v, w, y, v);
    NotRepresentable(f, v, w, y, y);
    ThresholdIsDecision(f, rule);
    if OverflowThreshold(f, rule) != w {
      NotAtDecision(f, v, w, y, OverflowThreshold(f, rule));
    }
    if MinNormal(f) != w {
      NotAtDecision(f, v, w, y, MinNormal(f));
    }
    OverflowsAbove(f, rule, v);
    OverflowsAbove(f, rule, y);
  }

  lemma NotRepresentable(f: FpFormat, v: real, w: real, y: real, d: real)
    requires v < w < y && IsOnlyDecision(f, v, w, y) && (d == v || d == y)
    ensures !IsRepresentable(f, d)
  {
    hide Mag, Pow2, FpFormat.Infinity, IsOnlyDecision;
    if IsRepresentable(f, d) {
      var c: nat :| c < f.Infinity() && Mag(f, c) == d;
      NotAtDecision(f, v, w, y, d);
    }
  }

  lemma ThresholdIsDecision(f: FpFormat, rule: Rule)
    ensures IsDecisionPoint(f, OverflowThreshold(f, rule)) && IsDecisionPoint(f, MinNormal(f))
    ensures MinNormal(f) < OverflowThreshold(f, rule)
  {
    hide Mag, Pow2;
    Layout(f);
    var top, p := f.Infinity(), Pow2(f.MantissaBits());
    NormalsExist(f);
    MidpointsBetween(f, top - 1);
    MidpointsBetween(f, p);
    MagOrder(f, p, top - 1);
  }

  lemma NormalsExist(f: FpFormat)
    ensures Pow2(f.MantissaBits()) + 1 < f.Infinity()
  {
    Geometry(f);
    Pow2Monotone(1, f.MantissaBits());
    hide Pow2;
    Pow2Small();
    MulMonotone(3, f.MaxExponent(), Pow2(f.MantissaBits()));
  }
}
