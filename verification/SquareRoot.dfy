/**
 Square root (crates/core/src/fp/softfloat/arithmetic.rs:315-384).
 */
module SquareRoot {
  import opened Options
  import opened Powers
  import opened Formats
  import opened Rounding
  import opened Decompose
  import opened Arithmetic
  import Nan

  // ----- the integer square root -----

  /** The largest integer whose square does not exceed `n`. */
  function FloorSqrt(n: nat): (r: nat)
    ensures r * r <= n < (r + 1) * (r + 1)
  {
    if n == 0 then 0
    else
      var q := FloorSqrt(n / 4);
      FloorSqrtStep(n, n / 4, q);
      if (2 * q + 1) * (2 * q + 1) <= n then 2 * q + 1 else 2 * q
  }

  lemma FloorSqrtStep(n: nat, m: nat, q: nat)
    requires m == n / 4 && q * q <= m < (q + 1) * (q + 1)
    ensures (2 * q) * (2 * q) <= n < (2 * q + 2) * (2 * q + 2)
  {
    FourSquares(q);
    FourSquares(q + 1);
  }

  lemma FloorSqrtUnique(n: nat, r: nat)
    requires r * r <= n < (r + 1) * (r + 1)
    ensures r == FloorSqrt(n)
  {
    hide FloorSqrt;
    var q := FloorSqrt(n);
    if q < r {
      SquareMonotone(q + 1, r);
    } else if r < q {
      SquareMonotone(r + 1, q);
    }
  }

  lemma SquareMonotone(a: nat, b: nat)
    requires a <= b
    ensures a * a <= b * b
  {
    MulMonotone(a, b, a);
    MulMonotone(a, b, b);
  }

  /** One restoring step: whether the next root bit `s` fits, and the square it completes. */
  lemma RestoringStep(value: nat, r: nat, s: nat)
    requires r * r <= value
    ensures value - r * r >= 2 * r * s + s * s <==> value >= (r + s) * (r + s)
    ensures value - r * r - (2 * r * s + s * s) == value - (r + s) * (r + s)
    ensures r * s + s * s == (r + s) * s
  {
    assert (r + s) * (r + s) == r * r + 2 * r * s + s * s;
  }

  /**
   The state at the loop head: `found` is the root found so far and 2^k the weight of the bit to
   be tried; the loop is over when k is -1.
   */
  ghost predicate RootLoop(value: nat, found: nat, k: int, remainder: nat, root: nat, bit: nat) {
    && k >= -1
    && remainder == value - found * found
    && if k == -1 then bit == 0 && root == found && value < (found + 1) * (found + 1)
       else
         && bit == Pow2(k) * Pow2(k) && root == 2 * found * Pow2(k)
         && value < (found + 2 * Pow2(k)) * (found + 2 * Pow2(k))
  }

  /** Bit-by-bit restoration, proved to compute `FloorSqrt`. */
  method IsqrtU128(value: nat) returns (root: nat)
    requires value < Pow2(128)
    ensures root * root <= value < (root + 1) * (root + 1)
    ensures root == FloorSqrt(value)
  {
    hide Pow2, FloorSqrt, RootLoop;
    if value == 0 {
      FloorSqrtUnique(value, 0);
      return 0;
    }
    var remainder: nat := value;
    root := 0;
    var position := (BitLength(value) - 1) / 2;
    var bit: nat := Pow2(2 * position);
    ghost var found: nat, k: int := 0, position;
    StartingState(value, position);
    while bit != 0
      invariant RootLoop(value, found, k, remainder, root, bit)
      decreases k
    {
      RootIteration(value, found, k, remainder, root, bit);
      if remainder >= root + bit {
        remainder := remainder - (root + bit);
        root := root / 2 + bit;
        found := found + Pow2(k);
      } else {
        root := root / 2;
      }
      bit := bit / 4;
      k := k - 1;
    }
    RootFound(value, found, k, remainder, root);
    FloorSqrtUnique(value, root);
  }

  lemma RootFound(value: nat, found: nat, k: int, remainder: nat, root: nat)
    requires RootLoop(value, found, k, remainder, root, 0)
    ensures root * root <= value < (root + 1) * (root + 1)
  {
    if k >= 0 {
      ProductPositiveNat(Pow2(k), Pow2(k));
    }
  }

  /** One iteration, whichever branch it takes, keeps the loop state and tries a lighter bit next. */
  lemma RootIteration(value: nat, found: nat, k: int, remainder: nat, root: nat, bit: nat)
    requires RootLoop(value, found, k, remainder, root, bit) && bit != 0
    ensures k >= 0
    ensures remainder >= root + bit ==>
              RootLoop(value, found + Pow2(k), k - 1, remainder - (root + bit), root / 2 + bit, bit / 4)
    ensures remainder < root + bit ==>
              RootLoop(value, found, k - 1, remainder, root / 2, bit / 4)
  {
    hide Pow2;
    var s := Pow2(k);
    RestoringStep(value, found, s);
    HalvedRoot(found, s, root);
    NextBit(found, k, found * s, bit);
    NextBit(found + s, k, (found + s) * s, bit);
  }

  lemma StartingState(value: nat, position: nat)
    requires value > 0 && position == (BitLength(value) - 1) / 2
    ensures RootLoop(value, 0, position, value, 0, Pow2(2 * position))
  {
    hide Pow2, BitLength;
    BitLengthBounds(value);
    Pow2Add(position, position);
    Pow2Double(position);
    Pow2Add(position + 1, position + 1);
    Pow2Monotone(BitLength(value), 2 * position + 2);
  }

  lemma FourSquares(s: nat)
    ensures (2 * s) * (2 * s) == 4 * (s * s)
  {
  }

  lemma HalvedRoot(found: nat, s: nat, root: nat)
    requires root == 2 * found * s
    ensures root / 2 == found * s
  {
    MulAssoc(2, found, s);
  }

  lemma NextBit(found: nat, k: nat, root: nat, bit: nat)
    requires root == found * Pow2(k) && bit == Pow2(k) * Pow2(k)
    ensures k > 0 ==> bit / 4 == Pow2(k - 1) * Pow2(k - 1) && root == 2 * found * Pow2(k - 1) && 2 * Pow2(k - 1) == Pow2(k)
    ensures k == 0 ==> bit / 4 == 0 && root == found && Pow2(k) == 1
  {
    if k > 0 {
      var s := Pow2(k - 1);
      assert Pow2(k) == 2 * s;
      FourSquares(s);
      assert found * (2 * s) == 2 * found * s;
    }
  }

  // ----- the operation -----

  function SquareRootOf(bits: nat, context: Context): FpResult
    requires context.format.Fits(bits)
  {
    var f := context.format;
    var (value, denormal) := FlushInput(bits, context);
    match Nan.Propagate([value], f, context.control)
    case Some(result) => WithFlags(result, denormal)
    case None =>
      if f.IsZero(value) then WithFlags(Exactly(value), denormal)
      else if f.IsNegative(value) then WithFlags(Nan.InvalidOperation(f), denormal)
      else if f.IsInfinite(value) then WithFlags(Exactly(value), denormal)
      else
        var (root, isSticky) := Root(Unpack(value, f), f);
        WithFlags(Pack(root, isSticky, context), denormal)
  }

  function Root(u: Unpacked, f: FpFormat): (Unpacked, bool) {
    var (significand, isSticky) := IntegerSquareRoot(u, f);
    (Unpacked(false, u.exponent / 2, significand), isSticky)
  }

  /** The significand doubled where the exponent is odd, and raised by its own scale. */
  function ScaledForRoot(u: Unpacked, f: FpFormat): nat {
    (if u.exponent % 2 != 0 then 2 * u.significand else u.significand) * Pow2(SignificandScale(f))
  }

  function IntegerSquareRoot(u: Unpacked, f: FpFormat): (nat, bool) {
    var scaled := ScaledForRoot(u, f);
    var root := FloorSqrt(scaled);
    (root, root * root != scaled)
  }

  /** The imperative form of `IntegerSquareRoot`. */
  method ComputeIntegerSquareRoot(u: Unpacked, f: FpFormat) returns (significand: nat, isSticky: bool)
    requires IsNormalised(u, f)
    ensures (significand, isSticky) == IntegerSquareRoot(u, f)
  {
    hide Pow2, FloorSqrt;
    var scaled := u.significand;
    if u.exponent % 2 != 0 {
      scaled := scaled * 2;
    }
    scaled := scaled * Pow2(SignificandScale(f));
    ScaledFitsWord(u, f);
    significand := IsqrtU128(scaled);
    isSticky := significand * significand != scaled;
  }

  lemma ScaledFitsWord(u: Unpacked, f: FpFormat)
    requires IsNormalised(u, f)
    ensures ScaledForRoot(u, f) < Pow2(128)
  {
    hide Pow2;
    var s := SignificandScale(f);
    SignificandFitsWord(u, f);
    Pow2Add(1, 57);
    Pow2Add(58, s);
    Pow2Small();
    Pow2Monotone(58 + s, 128);
    var n := if u.exponent % 2 != 0 then 2 * u.significand else u.significand;
    ProductBelow(n, Pow2(58), Pow2(s));
  }

  // ----- correct rounding -----

  lemma SquareCompare(a: real, b: real)
    requires a >= 0.0 && b >= 0.0
    ensures a <= b <==> a * a <= b * b
    ensures a == b <==> a * a == b * b
  {
    if a < b {
      SquareStrict(a, b);
    } else if b < a {
      SquareStrict(b, a);
    }
  }

  lemma SquareStrict(a: real, b: real)
    requires 0.0 <= a < b
    ensures a * a < b * b
  {
    SquareOfSum(a, b - a);
  }

  lemma SquareOfSum(a: real, d: real)
    requires 0.0 <= a && 0.0 < d
    ensures a * a < (a + d) * (a + d)
  {
    assert (a + d) * (a + d) == a * a + 2.0 * (a * d) + d * d;
    assert d * d > 0.0;
    assert a * d >= 0.0;
  }

  /** `n` units of 2^g are the floor of the square root of `x`; the sticky bit says that it is not exact. */
  ghost predicate SquareBrackets(x: real, n: nat, isSticky: bool, g: int) {
    && Scale(n, g) * Scale(n, g) <= x < Scale(n + 1, g) * Scale(n + 1, g)
    && (isSticky <==> Scale(n, g) * Scale(n, g) != x)
  }

  lemma RootBracket(n: nat, x: real, g: int)
    requires x == Scale(n, g + g)
    ensures var r := FloorSqrt(n); SquareBrackets(x, r, r * r != n, g)
  {
    hide Scale, FloorSqrt;
    var r := FloorSqrt(n);
    ScaleMul(r, r, g, g);
    ScaleMul(r + 1, r + 1, g, g);
    ScaleOrder(r * r, n, g + g);
    ScaleOrder(n, (r + 1) * (r + 1), g + g);
  }

  lemma ScaleNonNegative(n: nat, g: int)
    ensures Scale(n, g) >= 0.0
  {
    ScaleZero(g);
    ScaleOrder(0, n, g);
  }

  /** Doubling for an odd exponent keeps the scale exact, so the root is bracketed at its own scale. */
  lemma RootMeaning(u: Unpacked, f: FpFormat)
    requires IsNormalised(u, f) && u.significand > 0
    ensures var (root, isSticky) := Root(u, f);
            var s, x := SignificandScale(f), Scale(u.significand, u.exponent - SignificandScale(f));
            && SquareBrackets(x, root.significand, isSticky, root.exponent - s)
            && Pow2(s) <= root.significand < 2 * Pow2(s)
            && root.exponent == u.exponent / 2 && !root.isNegative
  {
    hide Pow2, Scale, FloorSqrt, SquareBrackets;
    var s, h, o := SignificandScale(f), u.exponent / 2, u.exponent % 2;
    var n, g := ScaledForRoot(u, f), h - s;
    Pow2Small();
    ScaleShift(u.significand, o, u.exponent - s - o);
    assert u.significand * Pow2(0) == u.significand && u.significand * Pow2(1) == 2 * u.significand;
    var m := if o != 0 then 2 * u.significand else u.significand;
    ScaleShift(m, s, g + g);
    assert g + g + s == u.exponent - s - o;
    RootBracket(n, Scale(u.significand, u.exponent - s), g);
    MulMonotone(Pow2(s), m, Pow2(s));
    RootLeading(n, Pow2(s));
    ProductBelow(m, 4 * Pow2(s), Pow2(s));
    FourSquares(Pow2(s));
    MulAssoc(4, Pow2(s), Pow2(s));
    RootTrailing(n, 2 * Pow2(s));
  }

  lemma RootTrailing(n: nat, p: nat)
    requires n < p * p
    ensures FloorSqrt(n) < p
  {
    hide FloorSqrt;
    if p <= FloorSqrt(n) {
      SquareMonotone(p, FloorSqrt(n));
    }
  }

  lemma RootLeading(n: nat, p: nat)
    requires p * p <= n
    ensures p <= FloorSqrt(n)
  {
    hide FloorSqrt;
    var r := FloorSqrt(n);
    if r < p {
      SquareMonotone(r + 1, p);
    }
  }

  // ----- rounding a root without naming it -----

  /** `lo` and `lo + 1` are the patterns the square root of `x` lies between, told by their squares. */
  ghost predicate IsRootNeighbour(f: FpFormat, x: real, lo: nat) {
    lo < f.Infinity() && Mag(f, lo) * Mag(f, lo) <= x < Mag(f, lo + 1) * Mag(f, lo + 1)
  }

  /** Whether the upper neighbour is selected: `x` is compared with the square of the midpoint. */
  ghost predicate RootSelectsUpper(rule: Rule, x: real, lower: real, upper: real, isEven: bool) {
    lower * lower != x &&
    match rule
    case TowardZero => false
    case AwayFromZero => true
    case TiesToEven => 4.0 * x > (lower + upper) * (lower + upper) || (4.0 * x == (lower + upper) * (lower + upper) && !isEven)
    case TiesToAway => 4.0 * x >= (lower + upper) * (lower + upper)
  }

  ghost function RootSelected(f: FpFormat, rule: Rule, x: real, lo: nat): nat {
    if RootSelectsUpper(rule, x, Mag(f, lo), Mag(f, lo + 1), lo % 2 == 0) then lo + 1 else lo
  }

  /** `b` is the magnitude pattern the square root of `x` rounds to. */
  ghost predicate RoundsRoot(f: FpFormat, rule: Rule, x: real, b: nat) {
    exists lo: nat :: IsRootNeighbour(f, x, lo) && b == RootSelected(f, rule, x, lo)
  }

  ghost predicate HasRepresentableRoot(f: FpFormat, x: real) {
    exists b: nat :: b < f.Infinity() && Mag(f, b) * Mag(f, b) == x
  }

  /** Where the square root is a real number that can be named, its rounding is the one defined for it. */
  lemma RootOfSquare(f: FpFormat, rule: Rule, x: real, v: real, b: nat)
    requires v >= 0.0 && x == v * v && !IsBeyondRange(f, v)
    ensures RoundsRoot(f, rule, x, b) <==> RoundsMagnitude(f, rule, v, b)
    ensures HasRepresentableRoot(f, x) <==> IsRepresentable(f, v)
  {
    hide Mag, Pow2, FpFormat.Infinity, IsRootNeighbour, IsLowerNeighbour, RootSelected, Selected, IsBeyondRange;
    forall lo: nat
      ensures IsRootNeighbour(f, x, lo) <==> IsLowerNeighbour(f, v, lo)
      ensures RootSelected(f, rule, x, lo) == Selected(f, rule, v, lo)
      ensures Mag(f, lo) * Mag(f, lo) == x <==> Mag(f, lo) == v
    {
      NeighbourOfSquare(f, rule, x, v, lo);
    }
  }

  lemma NeighbourOfSquare(f: FpFormat, rule: Rule, x: real, v: real, lo: nat)
    requires v >= 0.0 && x == v * v
    ensures IsRootNeighbour(f, x, lo) <==> IsLowerNeighbour(f, v, lo)
    ensures RootSelected(f, rule, x, lo) == Selected(f, rule, v, lo)
    ensures Mag(f, lo) * Mag(f, lo) == x <==> Mag(f, lo) == v
  {
    hide Mag, Pow2, FpFormat.Infinity, SelectsUpper, RootSelectsUpper;
    var lower, upper := Mag(f, lo), Mag(f, lo + 1);
    MagNonNegative(f, lo);
    MagNonNegative(f, lo + 1);
    SquareCompare(lower, v);
    SquareCompare(upper, v);
    var middle := (lower + upper) / 2.0;
    SquareCompare(middle, v);
    SelectionAgrees(rule, x, v, lower, upper, middle, lo % 2 == 0);
  }

  lemma SquareOfDouble(v: real)
    ensures (2.0 * v) * (2.0 * v) == 4.0 * (v * v)
  {
  }

  /** At most one pattern is the rounding of a square root. */
  lemma RoundsRootUnique(f: FpFormat, rule: Rule, x: real, a: nat, b: nat)
    requires RoundsRoot(f, rule, x, a) && RoundsRoot(f, rule, x, b)
    ensures a == b
  {
    hide Mag, Pow2, FpFormat.Infinity, RootSelected;
    var l: nat :| IsRootNeighbour(f, x, l) && a == RootSelected(f, rule, x, l);
    var m: nat :| IsRootNeighbour(f, x, m) && b == RootSelected(f, rule, x, m);
    RootNeighbourBelow(f, x, l, m);
    RootNeighbourBelow(f, x, m, l);
  }

  lemma RootNeighbourBelow(f: FpFormat, x: real, l: nat, m: nat)
    requires IsRootNeighbour(f, x, l) && IsRootNeighbour(f, x, m)
    ensures l <= m
  {
    hide Mag, Pow2, FpFormat.Infinity;
    MagNonNegative(f, l);
    MagNonNegative(f, m + 1);
    SquareCompare(Mag(f, m + 1), Mag(f, l));
    MagOrder(f, l, m + 1);
  }

  /** A number that the packer cannot tell from the root: the floor, or half a unit above it. */
  ghost function StandIn(n: nat, isSticky: bool, g: int): real {
    Scale(n, g) + if isSticky then Scale(1, g - 1) else 0.0
  }

  lemma StandInBrackets(n: nat, isSticky: bool, g: int)
    ensures Brackets(StandIn(n, isSticky, g), n, isSticky, g)
    ensures Scale(n, g) <= StandIn(n, isSticky, g) < Scale(n + 1, g) && Scale(n, g) >= 0.0
    ensures StandIn(n, isSticky, g) == Scale(n, g) <==> !isSticky
  {
    hide Scale;
    HalfUnitAbove(n, g);
    ScaleOrder(n, n + 1, g);
  }

  /** Against whole units, the stand-in compares as the root does. */
  lemma UnitsCompare(x: real, n: nat, isSticky: bool, g: int, k: nat)
    requires SquareBrackets(x, n, isSticky, g)
    ensures var d, v := Scale(k, g), StandIn(n, isSticky, g);
            && (d <= v <==> d * d <= x) && (d == v <==> d * d == x)
  {
    hide Scale, StandIn;
    StandInBrackets(n, isSticky, g);
    ScaleNonNegative(k, g);
    ScaleNonNegative(n + 1, g);
    ScaleOrder(k, n, g);
    ScaleOrder(k, n + 1, g);
    SquareCompare(Scale(k, g), Scale(n, g));
    SquareCompare(Scale(n + 1, g), Scale(k, g));
  }

  /** Three guard bits down, the neighbours of the stand-in and their midpoint are whole units. */
  lemma NeighboursInUnits(f: FpFormat, v: real, lo: nat, n: nat, isSticky: bool, g: int) returns (k: nat, m: nat, j: nat)
    requires IsLowerNeighbour(f, v, lo) && v == StandIn(n, isSticky, g) && n >= Pow2(SignificandScale(f))
    ensures Mag(f, lo) == Scale(k, g) && Mag(f, lo + 1) == Scale(j, g)
    ensures Mag(f, lo) + Mag(f, lo + 1) == 2.0 * Scale(m, g)
  {
    hide Pow2, Scale, Mag, StandIn, Pow2R, FpFormat.MantissaBits;
    var q, p := QuantumExponent(f), f.MantissaBits();
    var t, h := MagAsSignificand(f, lo);
    StandInBrackets(n, isSticky, g);
    ScaleOrder(Pow2(SignificandScale(f)), n, g);
    Pow2Double(p);
    ScaleOrder(t + 1, Pow2(p + 1), q + h);
    OneScaled(p + 1, q + h);
    OneScaled(SignificandScale(f), g);
    Pow2ROrder(g + SignificandScale(f), q + h + p + 1);
    var e := q + h - g;
    ScaleShift(t, e, g);
    ScaleShift(t + 1, e, g);
    HalfwaySignificand((Mag(f, lo) + Mag(f, lo + 1)) / 2.0, t, q + h);
    ScaleShift(2 * t + 1, e - 1, g);
    k, m, j := t * Pow2(e), (2 * t + 1) * Pow2(e - 1), (t + 1) * Pow2(e);
  }

  /** Rounding the stand-in is rounding the root, and it is exact when the root is. */
  lemma StandInRounds(f: FpFormat, rule: Rule, x: real, n: nat, isSticky: bool, g: int, b: nat)
    requires SquareBrackets(x, n, isSticky, g) && n >= Pow2(SignificandScale(f))
    requires var v := StandIn(n, isSticky, g); !IsBeyondRange(f, v) && RoundsMagnitude(f, rule, v, b)
    ensures RoundsRoot(f, rule, x, b)
    ensures HasRepresentableRoot(f, x) <==> IsRepresentable(f, StandIn(n, isSticky, g))
  {
    hide Pow2, Scale, Mag, StandIn, FpFormat.Infinity, SquareBrackets, HasRepresentableRoot, IsRepresentable, IsBeyondRange, IsRootNeighbour,
         IsLowerNeighbour, RootSelected, Selected;
    var v := StandIn(n, isSticky, g);
    var lo: nat :| IsLowerNeighbour(f, v, lo) && b == Selected(f, rule, v, lo);
    StandInNeighbour(f, rule, x, n, isSticky, g, lo);
    RootNeighbourDecides(f, x, lo);
    ExactNeighbour(f, v, lo);
  }

  lemma StandInNeighbour(f: FpFormat, rule: Rule, x: real, n: nat, isSticky: bool, g: int, lo: nat)
    requires SquareBrackets(x, n, isSticky, g) && n >= Pow2(SignificandScale(f))
    requires IsLowerNeighbour(f, StandIn(n, isSticky, g), lo)
    ensures var v := StandIn(n, isSticky, g);
            && IsRootNeighbour(f, x, lo) && RootSelected(f, rule, x, lo) == Selected(f, rule, v, lo)
            && (Mag(f, lo) == v <==> Mag(f, lo) * Mag(f, lo) == x)
  {
    hide Pow2, Scale, Mag, StandIn, FpFormat.Infinity, SquareBrackets, SelectsUpper, RootSelectsUpper, IsLowerNeighbour, IsRootNeighbour;
    var v := StandIn(n, isSticky, g);
    var k, m, j := NeighboursInUnits(f, v, lo, n, isSticky, g);
    UnitsCompare(x, n, isSticky, g, k);
    UnitsCompare(x, n, isSticky, g, m);
    UnitsCompare(x, n, isSticky, g, j);
    EnclosesRoot(f, x, v, lo);
    SelectionAgrees(rule, x, v, Mag(f, lo), Mag(f, lo + 1), Scale(m, g), lo % 2 == 0);
  }

  lemma EnclosesRoot(f: FpFormat, x: real, v: real, lo: nat)
    requires IsLowerNeighbour(f, v, lo)
    requires Mag(f, lo) <= v <==> Mag(f, lo) * Mag(f, lo) <= x
    requires Mag(f, lo + 1) <= v <==> Mag(f, lo + 1) * Mag(f, lo + 1) <= x
    ensures IsRootNeighbour(f, x, lo)
  {
    hide Mag, FpFormat.Infinity;
  }

  lemma SelectionAgrees(rule: Rule, x: real, v: real, lower: real, upper: real, middle: real, isEven: bool)
    requires lower + upper == 2.0 * middle
    requires (middle <= v <==> middle * middle <= x) && (middle == v <==> middle * middle == x)
    requires lower == v <==> lower * lower == x
    ensures RootSelectsUpper(rule, x, lower, upper, isEven) <==> SelectsUpper(rule, v, lower, upper, isEven)
  {
    SquareOfDouble(middle);
  }

  /** A representable root can only be the lower neighbour. */
  lemma RootNeighbourDecides(f: FpFormat, x: real, lo: nat)
    requires IsRootNeighbour(f, x, lo)
    ensures HasRepresentableRoot(f, x) <==> Mag(f, lo) * Mag(f, lo) == x
  {
    hide Pow2, Mag, FpFormat.Infinity;
    if HasRepresentableRoot(f, x) {
      var c: nat :| c < f.Infinity() && Mag(f, c) * Mag(f, c) == x;
      MagNonNegative(f, c);
      MagNonNegative(f, lo);
      MagNonNegative(f, lo + 1);
      SquareCompare(Mag(f, lo), Mag(f, c));
      SquareCompare(Mag(f, lo + 1), Mag(f, c));
      MagOrder(f, c, lo);
      MagOrder(f, c, lo + 1);
    }
  }

  lemma ExactNeighbour(f: FpFormat, v: real, lo: nat)
    requires IsLowerNeighbour(f, v, lo)
    ensures IsRepresentable(f, v) <==> Mag(f, lo) == v
  {
    hide Pow2, Mag, FpFormat.Infinity;
    if IsRepresentable(f, v) {
      var c: nat :| c < f.Infinity() && Mag(f, c) == v;
      MagOrder(f, c, lo);
      MagOrder(f, c, lo + 1);
    }
  }

  /**
   The square root of every positive finite value, subnormals included, is correctly rounded: its
   neighbours are the patterns whose squares enclose the operand, and the one the mode selects is
   told by the square of their midpoint.  Inexact is raised exactly when no pattern squares to it.
   */
  lemma SquareRootRoundsCorrectly(bits: nat, context: Context) returns (rounded: FpResult)
    requires IsFinite(context.format, bits)
    requires Value(context.format, FlushInput(bits, context).0) > 0.0
    ensures var f := context.format;
            var (value, denormal) := FlushInput(bits, context);
            var x := Value(f, value);
            && f.Fits(rounded.bits) && !f.IsNegative(rounded.bits) && IsFinite(f, rounded.bits)
            && RoundsRoot(f, RuleFor(context.rounding, false), x, f.Magnitude(rounded.bits))
            && rounded.raised == (if HasRepresentableRoot(f, x) then {} else {Inexact})
            && SquareRootOf(bits, context) == Finished(rounded, denormal, context)
  {
    hide Pow2, Mag, Scale, Unpack, PackUnflushed, Brackets, ApplyFlushToZero, FlushInput, FlagsFor, CarryLost, RoundsMagnitude,
         FpFormat.IsNegative, FpFormat.IsNan, FpFormat.IsInfinite, FpFormat.Magnitude, FpFormat.Fits, FpFormat.IsZero,
         FpFormat.Infinity, Root, Packs, MinNormal, StandIn, SquareBrackets, RoundsRoot, HasRepresentableRoot, IsRepresentable, IsBeyondRange;
    var f := context.format;
    var (value, denormal) := FlushInput(bits, context);
    FlushInputFinite(bits, context);
    PositiveOperand(f, value, context);
    UnpackedValue(f, value);
    var u := Unpack(value, f);
    UnpackExact(f, value);
    RootMeaning(u, f);
    var (root, isSticky) := Root(u, f);
    var g, rule := root.exponent - SignificandScale(f), RuleFor(context.rounding, false);
    var v := StandIn(root.significand, isSticky, g);
    StandInBrackets(root.significand, isSticky, g);
    RootInRange(u, f);
    var rc := RoundingContext(context.rounding, isSticky, context.control);
    PackingOfBracketed(v, root, f, rc);
    rounded := PackUnflushed(root, f, rc);
    NormalsKeepCarry(f, context.rounding, v);
    PacksMeaning(f, context.rounding, v, rounded);
    RootFlags(f, rule, v, f.Magnitude(rounded.bits));
    StandInRounds(f, rule, Value(f, value), root.significand, isSticky, g, f.Magnitude(rounded.bits));
  }

  /** A normal magnitude below the overflow threshold stays finite and is at worst inexact. */
  lemma RootFlags(f: FpFormat, rule: Rule, v: real, b: nat)
    requires MinNormal(f) <= v < OverflowThreshold(f, rule) && 0.0 < v && RoundsMagnitude(f, rule, v, b)
    ensures FlagsFor(f, rule, v) == if IsRepresentable(f, v) then {} else {Inexact}
    ensures !IsBeyondRange(f, v) && b < f.Infinity()
  {
    hide Pow2, Mag, RoundsMagnitude, OverflowThreshold, IsBeyondRange, IsRepresentable, FpFormat.Infinity;
    OverflowsAbove(f, rule, v);
    RoundingInRange(f, rule, v, b);
  }

  /** Halving the exponent keeps every root in the normal range, far from overflow. */
  lemma RootInRange(u: Unpacked, f: FpFormat)
    requires IsNormalised(u, f) && u.significand > 0 && QuantumExponent(f) <= u.exponent <= f.ExponentBias()
    ensures var (root, isSticky) := Root(u, f);
            var v := StandIn(root.significand, isSticky, root.exponent - SignificandScale(f));
            MinNormal(f) <= v && v > 0.0 && forall rule: Rule :: v < OverflowThreshold(f, rule)
  {
    hide Pow2, Scale, Mag, Root, FpFormat.ExponentBias, FpFormat.MantissaBits, MinNormal, Pow2R, StandIn, SquareBrackets, OverflowThreshold;
    RootMeaning(u, f);
    var (root, isSticky) := Root(u, f);
    var s, g := SignificandScale(f), root.exponent - SignificandScale(f);
    StandInBrackets(root.significand, isSticky, g);
    Geometry(f);
    InfinityValue(f);
    Pow2RMonotone(MinimumExponent(f), root.exponent);
    OneScaled(s, g);
    OneScaled(s + 1, g);
    Pow2Double(s);
    ScaleOrder(Pow2(s), root.significand, g);
    ScaleOrder(Pow2(s + 1), root.significand + 1, g);
    Pow2RMonotone(root.exponent + 1, f.ExponentBias());
    ThresholdIsLarge(f);
  }

  lemma ThresholdIsLarge(f: FpFormat)
    ensures forall rule: Rule :: Pow2R(f.ExponentBias()) <= OverflowThreshold(f, rule)
  {
    hide Pow2, Scale, Mag, Pow2R, FpFormat.MantissaBits, FpFormat.ExponentBias;
    Geometry(f);
    Layout(f);
    var p, top := Pow2(f.MantissaBits()), f.MaxExponent();
    MagOfNormal(f, top - 1, p);
    OneScaled(f.MantissaBits(), QuantumExponent(f) + top - 2);
    Distribute(top - 1, p);
    MagOrder(f, (top - 1) * p, f.Infinity() - 1);
    MagOrder(f, f.Infinity() - 1, f.Infinity());
  }

  lemma PositiveOperand(f: FpFormat, value: nat, context: Context)
    requires f == context.format && IsFinite(f, value) && Value(f, value) > 0.0
    ensures Nan.Propagate([value], f, context.control).None?
    ensures !f.IsInfinite(value) && !f.IsZero(value) && !f.IsNegative(value)
  {
    hide Pow2, FpFormat.IsNan, FpFormat.IsInfinite, FpFormat.Magnitude, FpFormat.Fits, Mag;
    NotSpecialIsFinite(f, value);
    MagNonNegative(f, f.Magnitude(value));
  }

  /** The remaining operands: zeroes are returned as they are, and a negative value is invalid. */
  lemma SquareRootSpecials(bits: nat, context: Context)
    requires IsFinite(context.format, bits)
    ensures var f := context.format;
            var (value, denormal) := FlushInput(bits, context);
            && (Value(f, value) == 0.0 ==> SquareRootOf(bits, context) == FpResult(value, denormal))
            && (Value(f, value) < 0.0 ==> SquareRootOf(bits, context) == FpResult(f.DefaultNan(), denormal + {Invalid}))
  {
    hide Pow2, FpFormat.IsNan, FpFormat.IsInfinite, FpFormat.Magnitude, FpFormat.Fits, Mag, FlushInput, FpFormat.DefaultNan;
    var f := context.format;
    var (value, _) := FlushInput(bits, context);
    FlushInputFinite(bits, context);
    NotSpecialIsFinite(f, value);
    MagNonNegative(f, f.Magnitude(value));
  }
}
