/**
 Multiplication and division (crates/core/src/fp/softfloat/arithmetic.rs:197-313).
 */
module MultiplyDivide {
  import opened Options
  import opened Powers
  import opened Formats
  import opened Rounding
  import opened Decompose
  import opened Arithmetic
  import Nan

  function Multiply(lhs: nat, rhs: nat, context: Context): FpResult
    requires context.format.Fits(lhs) && context.format.Fits(rhs)
  {
    var f := context.format;
    var (l, r, denormal) := FlushPair(lhs, rhs, context);
    match Nan.Propagate([l, r], f, context.control)
    case Some(result) => WithFlags(result, denormal)
    case None =>
      var isNegative := f.IsNegative(l) != f.IsNegative(r);
      match MultiplySpecials(l, r, isNegative, context)
      case Some(result) => WithFlags(result, denormal)
      case None =>
        var (value, isSticky) := Product(Unpack(l, f), Unpack(r, f), isNegative, f);
        WithFlags(Pack(value, isSticky, context), denormal)
  }

  /** The exact product, narrowed to the operands' own scale. */
  function Product(left: Unpacked, right: Unpacked, isNegative: bool, f: FpFormat): (Unpacked, bool) {
    var (significand, isSticky) := Narrow(left.significand * right.significand, SignificandScale(f));
    (Unpacked(isNegative, left.exponent + right.exponent, significand), isSticky)
  }

  function Narrow(product: nat, shift: nat): (nat, bool) {
    (ShiftRight(product, shift), LowBits(product, shift) != 0)
  }

  function MultiplySpecials(lhs: nat, rhs: nat, isNegative: bool, context: Context): (r: Option<FpResult>)
    ensures var f := context.format;
            r.None? <==> !f.IsInfinite(lhs) && !f.IsInfinite(rhs) && !f.IsZero(lhs) && !f.IsZero(rhs)
  {
    var f := context.format;
    if (f.IsInfinite(lhs) && f.IsZero(rhs)) || (f.IsZero(lhs) && f.IsInfinite(rhs)) then Some(Nan.InvalidOperation(f))
    else if f.IsInfinite(lhs) || f.IsInfinite(rhs) then Some(Exactly(f.SignedInfinity(isNegative)))
    else if f.IsZero(lhs) || f.IsZero(rhs) then Some(Exactly(f.ZeroBits(isNegative)))
    else None
  }

  function Divide(lhs: nat, rhs: nat, context: Context): FpResult
    requires context.format.Fits(lhs) && context.format.Fits(rhs)
  {
    var f := context.format;
    var (l, r, denormal) := FlushPair(lhs, rhs, context);
    match Nan.Propagate([l, r], f, context.control)
    case Some(result) => WithFlags(result, denormal)
    case None =>
      var isNegative := f.IsNegative(l) != f.IsNegative(r);
      match DivideSpecials(l, r, isNegative, context)
      case Some(result) => WithFlags(result, denormal)
      case None =>
        FlushPairFits(lhs, rhs, context);
        DivisorIsPositive(f, l, r, isNegative, context);
        var (value, isSticky) := Quotient(Unpack(l, f), Unpack(r, f), isNegative, f);
        WithFlags(Pack(value, isSticky, context), denormal)
  }

  /** The numerator is scaled up before dividing; the remainder becomes the sticky bit. */
  function Quotient(left: Unpacked, right: Unpacked, isNegative: bool, f: FpFormat): (Unpacked, bool)
    requires right.significand > 0
  {
    var numerator := left.significand * Pow2(SignificandScale(f));
    (Unpacked(isNegative, left.exponent - right.exponent, DivideNat(numerator, right.significand)),
     !IsMultipleOf(numerator, right.significand))
  }

  predicate IsMultipleOf(n: nat, d: nat)
    requires d > 0
  {
    n % d == 0
  }

  function DivideSpecials(lhs: nat, rhs: nat, isNegative: bool, context: Context): (r: Option<FpResult>)
    ensures var f := context.format;
            r.None? <==> !f.IsInfinite(lhs) && !f.IsInfinite(rhs) && !f.IsZero(lhs) && !f.IsZero(rhs)
  {
    var f := context.format;
    if (f.IsInfinite(lhs) && f.IsInfinite(rhs)) || (f.IsZero(lhs) && f.IsZero(rhs)) then Some(Nan.InvalidOperation(f))
    else if f.IsInfinite(lhs) then Some(Exactly(f.SignedInfinity(isNegative)))
    else if f.IsInfinite(rhs) then Some(Exactly(f.ZeroBits(isNegative)))
    else if f.IsZero(rhs) then Some(FpResult(f.SignedInfinity(isNegative), {DivideByZero}))
    else if f.IsZero(lhs) then Some(Exactly(f.ZeroBits(isNegative)))
    else None
  }

  lemma DivisorIsPositive(f: FpFormat, l: nat, r: nat, isNegative: bool, context: Context)
    requires f == context.format && f.Fits(l) && f.Fits(r)
    requires Nan.Propagate([l, r], f, context.control).None? && DivideSpecials(l, r, isNegative, context).None?
    ensures Unpack(r, f).significand > 0
  {
    hide Pow2, Unpack, FpFormat.IsNan, FpFormat.IsInfinite, FpFormat.Magnitude;
    assert r in [l, r];
    NotSpecialIsFinite(f, r);
    UnpackNormalised(f, r);
  }

  // ----- the exact product and quotient -----

  lemma SignOfProduct(a: real, b: real)
    requires a != 0.0 && b != 0.0
    ensures a * b != 0.0 && (a * b < 0.0 <==> (a < 0.0) != (b < 0.0))
    ensures Abs(a * b) == Abs(a) * Abs(b)
  {
    ProductPositive(Abs(a), Abs(b));
  }

  lemma ProductPositive(a: real, b: real)
    requires a > 0.0 && b > 0.0
    ensures a * b > 0.0
  {
  }

  lemma ProductMeaning(f: FpFormat, left: Unpacked, right: Unpacked, isNegative: bool, v: real)
    requires IsNormalised(left, f) && IsNormalised(right, f) && left.significand > 0 && right.significand > 0
    requires v == Abs(Signed(left, f)) * Abs(Signed(right, f))
    ensures var (value, isSticky) := Product(left, right, isNegative, f);
            && Brackets(v, value.significand, isSticky, value.exponent - SignificandScale(f))
            && value.significand >= Pow2(SignificandScale(f))
  {
    hide Pow2, Scale, ShiftRight, LowBits;
    var s := SignificandScale(f);
    var n := left.significand * right.significand;
    ScalePositive(left.significand, left.exponent - s);
    ScalePositive(right.significand, right.exponent - s);
    ScaleMul(left.significand, right.significand, left.exponent - s, right.exponent - s);
    var g := left.exponent - s + (right.exponent - s);
    BracketShift(v, n, false, g, s);
    assert g + s == left.exponent + right.exponent - s;
    ProductLeading(left.significand, right.significand, s);
  }

  lemma ProductLeading(a: nat, b: nat, s: nat)
    requires a >= Pow2(s) && b >= Pow2(s)
    ensures ShiftRight(a * b, s) >= Pow2(s)
  {
    hide Pow2;
    MulMonotone(Pow2(s), a, Pow2(s));
    MulMonotone(Pow2(s), b, a);
    DivAtLeast(a * b, Pow2(s), Pow2(s));
  }

  /** All intermediates of a multiplication fit their machine words. */
  lemma ProductFitsWords(f: FpFormat, left: Unpacked, right: Unpacked)
    requires IsNormalised(left, f) && IsNormalised(right, f)
    ensures left.significand < Pow2(57) && right.significand < Pow2(57)
    ensures left.significand * right.significand < Pow2(128)
    ensures Product(left, right, false, f).0.significand < Pow2(64)
  {
    hide Pow2;
    var s := SignificandScale(f);
    SignificandFitsWord(left, f);
    SignificandFitsWord(right, f);
    ProductBound(left.significand, right.significand, Pow2(57), Pow2(57));
    Pow2Add(57, 57);
    Pow2Monotone(114, 128);
    Pow2Monotone(0, s + 1);
    Pow2Small();
    Pow2Quarter(s);
    ProductBound(left.significand, right.significand, Pow2(s + 1), Pow2(s + 1));
    Pow2Add(s + 1, s + 1);
    Pow2Add(s + 2, s);
    DivLess(left.significand * right.significand, Pow2(s), Pow2(s + 2));
    Pow2Monotone(s + 2, 64);
  }

  /** The scaled numerator fits 128 bits, and narrowing the quotient to 64 bits loses nothing. */
  lemma QuotientFitsWords(f: FpFormat, left: Unpacked, right: Unpacked)
    requires IsNormalised(left, f) && IsNormalised(right, f) && right.significand > 0
    ensures left.significand * Pow2(SignificandScale(f)) < Pow2(128)
    ensures Quotient(left, right, false, f).0.significand < Pow2(64)
  {
    hide Pow2;
    var s := SignificandScale(f);
    ScaleBounds(f);
    SignificandFitsWord(left, f);
    RaisedBelow(left.significand, s, 57);
    Pow2Monotone(57 + s, 128);
    Pow2Monotone(57, 64);
    MulMonotone(Pow2(s), right.significand, Pow2(57));
    ProductBelow(left.significand, Pow2(57), Pow2(s));
    DivLess(left.significand * Pow2(s), right.significand, Pow2(57));
  }

  lemma ProductBound(a: nat, b: nat, c: nat, d: nat)
    requires a < c && b < d
    ensures a * b < c * d
  {
    MulMonotone(b, d - 1, a);
    MulMonotone(a, c - 1, d);
  }

  /** `n` divided by `d`, bracketed at the scale of a significand. */
  lemma QuotientBracket(n: nat, d: nat, v: real, g: int, h: int)
    requires d > 0 && v * Scale(d, h) == Scale(n, g + h)
    ensures Brackets(v, DivideNat(n, d), !IsMultipleOf(n, d), g)
  {
    hide Scale;
    var q := n / d;
    DivBounds(n, d);
    ScaleMul(q, d, g, h);
    ScaleMul(q + 1, d, g, h);
    ScaleOrder(q * d, n, g + h);
    ScaleOrder(n, (q + 1) * d, g + h);
    ScalePositive(d, h);
    CancelOrder(Scale(q, g), v, Scale(d, h));
    CancelOrder(v, Scale(q + 1, g), Scale(d, h));
  }

  lemma CancelOrder(a: real, b: real, c: real)
    requires c > 0.0
    ensures a * c < b * c ==> a < b
    ensures a * c == b * c ==> a == b
  {
    if a < b {
      RealMulStrict(a, b, c);
    } else if b < a {
      RealMulStrict(b, a, c);
    }
  }

  lemma QuotientMeaning(f: FpFormat, left: Unpacked, right: Unpacked, isNegative: bool, v: real)
    requires IsNormalised(left, f) && IsNormalised(right, f) && left.significand > 0 && right.significand > 0
    requires v * Abs(Signed(right, f)) == Abs(Signed(left, f))
    ensures var (value, isSticky) := Quotient(left, right, isNegative, f);
            && Brackets(v, value.significand, isSticky, value.exponent - SignificandScale(f))
            && 2 * value.significand >= Pow2(SignificandScale(f))
  {
    hide Pow2, Scale, Brackets, DivideNat, IsMultipleOf;
    var s := SignificandScale(f);
    var n := left.significand * Pow2(s);
    ScalePositive(left.significand, left.exponent - s);
    ScalePositive(right.significand, right.exponent - s);
    var g := left.exponent - right.exponent - s;
    ScaleShift(left.significand, s, left.exponent - s - s);
    assert g + (right.exponent - s) == left.exponent - s - s;
    QuotientBracket(n, right.significand, v, g, right.exponent - s);
    QuotientLeading(left.significand, right.significand, s);
  }

  /** A quotient of normalised significands falls at most one bit below the implicit position. */
  lemma QuotientLeading(a: nat, b: nat, s: nat)
    requires s >= 1 && a >= Pow2(s) && 0 < b < 2 * Pow2(s)
    ensures 2 * DivideNat(a * Pow2(s), b) >= Pow2(s)
  {
    var half := Pow2(s - 1);
    assert Pow2(s) == 2 * half;
    hide Pow2;
    MulMonotone(b, 4 * half, half);
    MulMonotone(2 * half, a, 2 * half);
    MulAssoc(4, half, half);
    DivAtLeast(a * Pow2(s), b, half);
  }

  // ----- correct rounding -----

  /** The exact product of two finite patterns. */
  ghost function ProductOf(f: FpFormat, l: nat, r: nat): real {
    Value(f, l) * Value(f, r)
  }

  /** The exact quotient of two finite patterns. */
  ghost function QuotientOf(f: FpFormat, l: nat, r: nat): real
    requires Value(f, r) != 0.0
  {
    Value(f, l) / Value(f, r)
  }

  /** Operands that are finite and not zero reach the significand arithmetic. */
  lemma FiniteOperands(f: FpFormat, l: nat, r: nat, context: Context)
    requires f == context.format && IsFinite(f, l) && IsFinite(f, r)
    ensures Nan.Propagate([l, r], f, context.control).None?
    ensures !f.IsInfinite(l) && !f.IsInfinite(r)
    ensures f.IsZero(l) <==> Value(f, l) == 0.0
    ensures f.IsZero(r) <==> Value(f, r) == 0.0
    ensures Value(f, l) < 0.0 ==> f.IsNegative(l)
    ensures Value(f, l) > 0.0 ==> !f.IsNegative(l)
    ensures Value(f, r) < 0.0 ==> f.IsNegative(r)
    ensures Value(f, r) > 0.0 ==> !f.IsNegative(r)
  {
    hide Pow2, FpFormat.IsNan, FpFormat.IsInfinite, FpFormat.Magnitude, FpFormat.Fits, Mag;
    NotSpecialIsFinite(f, l);
    NotSpecialIsFinite(f, r);
    MagNonNegative(f, f.Magnitude(l));
    MagNonNegative(f, f.Magnitude(r));
  }

  /**
   Multiplication of finite values rounds the exact product once.  Without flushing the result is
   the correct rounding exactly when no carry is lost in the subnormal range; a zero operand gives
   the zero of the product's sign.
   */
  lemma MultiplyRounds(lhs: nat, rhs: nat, context: Context) returns (rounded: FpResult)
    requires IsFinite(context.format, lhs) && IsFinite(context.format, rhs)
    ensures var f := context.format;
            var (l, r, denormal) := FlushPair(lhs, rhs, context);
            var x := ProductOf(f, l, r);
            && (x != 0.0 ==>
                  && Packs(f, context.rounding, x, rounded)
                  && Multiply(lhs, rhs, context) == Finished(rounded, denormal, context))
            && (x == 0.0 ==>
                  Multiply(lhs, rhs, context) == FpResult(f.ZeroBits(f.IsNegative(l) != f.IsNegative(r)), denormal))
  {
    hide Pow2, Mag, Value, Unpack, PackUnflushed, Brackets, ApplyFlushToZero, FlushInput, FpFormat.Infinity,
         FpFormat.IsNegative, FpFormat.IsNan, FpFormat.IsInfinite, FpFormat.Magnitude, FpFormat.Fits, FpFormat.IsZero,
         Product, Packs, Nan.Propagate, Signed, ProductOf;
    var f := context.format;
    var (l, r, denormal) := FlushPair(lhs, rhs, context);
    FlushInputFinite(lhs, context);
    FlushInputFinite(rhs, context);
    FiniteOperands(f, l, r, context);
    rounded := Exactly(0);
    var a, b, x := Value(f, l), Value(f, r), ProductOf(f, l, r);
    ProductOfFactors(f, l, r);
    if x != 0.0 {
      UnpackedValue(f, l);
      UnpackedValue(f, r);
      var isNegative := f.IsNegative(l) != f.IsNegative(r);
      ProductMeaning(f, Unpack(l, f), Unpack(r, f), isNegative, Abs(x));
      var (value, isSticky) := Product(Unpack(l, f), Unpack(r, f), isNegative, f);
      ProductShape(Unpack(l, f), Unpack(r, f), isNegative, f);
      var rc := RoundingContext(context.rounding, isSticky, context.control);
      PackingOfBracketed(x, value, f, rc);
      rounded := PackUnflushed(value, f, rc);
    }
  }

  lemma ProductOfFactors(f: FpFormat, l: nat, r: nat)
    ensures var a, b, x := Value(f, l), Value(f, r), ProductOf(f, l, r);
            && (x == 0.0 <==> a == 0.0 || b == 0.0)
            && (x != 0.0 ==> (x < 0.0 <==> (a < 0.0) != (b < 0.0)))
            && Abs(x) == Abs(a) * Abs(b)
  {
    hide Value;
    var a, b := Value(f, l), Value(f, r);
    if a == 0.0 || b == 0.0 {
      ZeroFactor(a, b);
    } else {
      SignOfProduct(a, b);
    }
  }

  lemma ZeroFactor(a: real, b: real)
    requires a == 0.0 || b == 0.0
    ensures a * b == 0.0 && Abs(a) * Abs(b) == 0.0
  {
  }

  lemma ProductShape(left: Unpacked, right: Unpacked, isNegative: bool, f: FpFormat)
    ensures Product(left, right, isNegative, f).0.isNegative == isNegative
  {
  }

  /**
   Division of finite values by a non-zero one rounds the exact quotient once; division of a
   non-zero value by zero is the signed infinity with the divide-by-zero flag (section 7.3).
   */
  lemma DivideRounds(lhs: nat, rhs: nat, context: Context) returns (rounded: FpResult)
    requires IsFinite(context.format, lhs) && IsFinite(context.format, rhs)
    ensures var f := context.format;
            var (l, r, denormal) := FlushPair(lhs, rhs, context);
            var isNegative := f.IsNegative(l) != f.IsNegative(r);
            && (Value(f, l) != 0.0 && Value(f, r) != 0.0 ==>
                  && Packs(f, context.rounding, QuotientOf(f, l, r), rounded)
                  && Divide(lhs, rhs, context) == Finished(rounded, denormal, context))
            && (Value(f, l) == 0.0 && Value(f, r) != 0.0 ==>
                  Divide(lhs, rhs, context) == FpResult(f.ZeroBits(isNegative), denormal))
            && (Value(f, l) != 0.0 && Value(f, r) == 0.0 ==>
                  Divide(lhs, rhs, context) == FpResult(f.SignedInfinity(isNegative), denormal + {DivideByZero}))
            && (Value(f, l) == 0.0 && Value(f, r) == 0.0 ==>
                  Divide(lhs, rhs, context) == FpResult(f.DefaultNan(), denormal + {Invalid}))
  {
    hide Pow2, Mag, Value, Unpack, PackUnflushed, Brackets, ApplyFlushToZero, FlushInput, FpFormat.Infinity,
         FpFormat.IsNegative, FpFormat.IsNan, FpFormat.IsInfinite, FpFormat.Magnitude, FpFormat.Fits, FpFormat.IsZero,
         Quotient, Packs, Nan.Propagate, Signed, QuotientOf;
    var f := context.format;
    var (l, r, denormal) := FlushPair(lhs, rhs, context);
    FlushInputFinite(lhs, context);
    FlushInputFinite(rhs, context);
    FiniteOperands(f, l, r, context);
    rounded := Exactly(0);
    var a, b := Value(f, l), Value(f, r);
    if a != 0.0 && b != 0.0 {
      var x := QuotientOf(f, l, r);
      QuotientOfFactors(f, l, r);
      UnpackedValue(f, l);
      UnpackedValue(f, r);
      var isNegative := f.IsNegative(l) != f.IsNegative(r);
      QuotientMeaning(f, Unpack(l, f), Unpack(r, f), isNegative, Abs(x));
      var (value, isSticky) := Quotient(Unpack(l, f), Unpack(r, f), isNegative, f);
      QuotientShape(Unpack(l, f), Unpack(r, f), isNegative, f);
      var rc := RoundingContext(context.rounding, isSticky, context.control);
      PackingOfBracketed(x, value, f, rc);
      rounded := PackUnflushed(value, f, rc);
    }
  }

  lemma QuotientShape(left: Unpacked, right: Unpacked, isNegative: bool, f: FpFormat)
    requires right.significand > 0
    ensures Quotient(left, right, isNegative, f).0.isNegative == isNegative
  {
  }

  lemma QuotientOfFactors(f: FpFormat, l: nat, r: nat)
    requires Value(f, l) != 0.0 && Value(f, r) != 0.0
    ensures var a, b, x := Value(f, l), Value(f, r), QuotientOf(f, l, r);
            && x != 0.0 && (x < 0.0 <==> (a < 0.0) != (b < 0.0))
            && Abs(x) * Abs(b) == Abs(a)
  {
    hide Value;
    QuotientSign(Value(f, l), Value(f, r), QuotientOf(f, l, r));
  }

  lemma QuotientSign(a: real, b: real, x: real)
    requires a != 0.0 && b != 0.0 && x == a / b
    ensures x != 0.0 && (x < 0.0 <==> (a < 0.0) != (b < 0.0))
    ensures Abs(x) * Abs(b) == Abs(a)
  {
    assert x * b == a;
    assert x != 0.0;
    SignOfProduct(x, b);
  }

  /** Without flushing, a product is correctly rounded exactly when its carry is not lost. */
  lemma MultiplyCorrectIff(lhs: nat, rhs: nat, context: Context)
    requires IsFinite(context.format, lhs) && IsFinite(context.format, rhs)
    requires !IsFlushing(context.format, context.control)
    ensures var x := ProductOf(context.format, lhs, rhs);
            var r := Multiply(lhs, rhs, context);
            x != 0.0 ==>
              && (RoundsTo(context.format, context.rounding, x, r.bits) <==> !CarryLost(context.format, context.rounding, x))
              && r.raised == FlagsOf(context.format, context.rounding, x)
  {
    hide Pow2, Value, ProductOf, Packs, RoundsTo, CarryLost, FlagsOf, Multiply, FpFormat.IsSubnormal;
    var rounded := MultiplyRounds(lhs, rhs, context);
    var x := ProductOf(context.format, lhs, rhs);
    if x != 0.0 {
      PacksMeaning(context.format, context.rounding, x, rounded);
    }
  }

  /** Without flushing, a quotient is correctly rounded exactly when its carry is not lost. */
  lemma DivideCorrectIff(lhs: nat, rhs: nat, context: Context)
    requires IsFinite(context.format, lhs) && IsFinite(context.format, rhs)
    requires !IsFlushing(context.format, context.control)
    requires Value(context.format, lhs) != 0.0 && Value(context.format, rhs) != 0.0
    ensures var x := QuotientOf(context.format, lhs, rhs);
            var r := Divide(lhs, rhs, context);
            && (RoundsTo(context.format, context.rounding, x, r.bits) <==> !CarryLost(context.format, context.rounding, x))
            && r.raised == FlagsOf(context.format, context.rounding, x)
  {
    hide Pow2, Value, QuotientOf, Packs, RoundsTo, CarryLost, FlagsOf, Divide, FpFormat.IsSubnormal;
    var rounded := DivideRounds(lhs, rhs, context);
    var x := QuotientOf(context.format, lhs, rhs);
    QuotientOfFactors(context.format, lhs, rhs);
    PacksMeaning(context.format, context.rounding, x, rounded);
  }

  /**
   A product that loses its carry: in half precision (1 - 2^-11) * 2^-14 is half a quantum below
   the smallest normal number and ties to it, but the packer returns half of that.
   */
  lemma MultiplyLosesCarry() returns (lhs: nat, rhs: nat, context: Context)
    ensures lhs == 0x3bff && rhs == 0x0400 && context == Context(Half, Nearest, FpControl(false, false, false))
    ensures IsFinite(Half, lhs) && IsFinite(Half, rhs)
    ensures var x := ProductOf(Half, lhs, rhs);
            x != 0.0 && RoundsTo(Half, Nearest, x, 0x0400) && Multiply(lhs, rhs, context).bits == 0x0200
  {
    hide Value, ProductOf, Multiply, RoundsTo, Scale;
    HalfFactors();
    lhs, rhs, context := 0x3bff, 0x0400, Context(Half, Nearest, FpControl(false, false, false));
    LostCarryOfProduct(lhs, rhs, context);
  }

  lemma LostCarryOfProduct(a: nat, b: nat, context: Context)
    requires context == Context(Half, Nearest, FpControl(false, false, false))
    requires IsFinite(Half, a) && IsFinite(Half, b) && ProductOf(Half, a, b) == Scale(2047, -25)
    ensures var x := ProductOf(Half, a, b);
            x != 0.0 && RoundsTo(Half, Nearest, x, 0x0400) && Multiply(a, b, context).bits == 0x0200
  {
    hide Pow2, Value, ProductOf, Multiply, Packs, RoundsTo, FpFormat.IsSubnormal, Scale, CarryLost;
    ScalePositive(2047, -25);
    var rounded := MultiplyRounds(a, b, context);
    TieIsHalved(rounded);
  }

  /** Half a quantum below the smallest normal number ties to it, and comes out of the packer halved. */
  lemma TieIsHalved(rounded: FpResult)
    requires Packs(Half, Nearest, Scale(2047, -25), rounded)
    ensures RoundsTo(Half, Nearest, Scale(2047, -25), 0x0400) && rounded.bits == 0x0200
    ensures CarryLost(Half, Nearest, Scale(2047, -25))
  {
    hide Pow2, Packs, RoundsMagnitude, LosesCarry, RoundsTo, Scale;
    var x := Scale(2047, -25);
    TieBelowNormal(x);
    SmallestNormalHalf(x);
    HalvedPattern(x, rounded);
    CarryLostAt(Half, Nearest, x, 1024);
  }

  /** A quotient that loses its carry: in half precision (1 - 2^-11) / 2^14 is the same tie. */
  lemma DivideLosesCarry() returns (lhs: nat, rhs: nat, context: Context)
    ensures lhs == 0x3bff && rhs == 0x7400 && context == Context(Half, Nearest, FpControl(false, false, false))
    ensures IsFinite(Half, lhs) && IsFinite(Half, rhs) && Value(Half, rhs) != 0.0
    ensures var x := QuotientOf(Half, lhs, rhs);
            && x == Scale(2047, -25) && CarryLost(Half, Nearest, x)
            && RoundsTo(Half, Nearest, x, 0x0400) && Divide(lhs, rhs, context).bits == 0x0200
  {
    hide Pow2, Mag, Value, QuotientOf, Divide, Packs, RoundsTo, FpFormat.IsSubnormal, Scale, CarryLost, IsFinite;
    lhs, rhs, context := 0x3bff, 0x7400, Context(Half, Nearest, FpControl(false, false, false));
    HalfQuotient();
    ScalePositive(2047, -25);
    var rounded := DivideRounds(lhs, rhs, context);
    TieIsHalved(rounded);
  }

  lemma HalfQuotient()
    ensures IsFinite(Half, 0x3bff) && IsFinite(Half, 0x7400)
    ensures Value(Half, 0x3bff) != 0.0 && Value(Half, 0x7400) != 0.0
    ensures QuotientOf(Half, 0x3bff, 0x7400) == Scale(2047, -25)
  {
    HalfGeometry();
    hide Pow2, Scale, Mag;
    MagOfNormal(Half, 14, 2047);
    MagOfNormal(Half, 29, 1024);
    ScaleShift(1, 10, 4);
    ScaleMul(2047, 1, -25, 14);
    ScalePositive(1, 14);
    ScalePositive(2047, -11);
    QuotientFromProduct(Scale(2047, -11), Scale(1, 14), Scale(2047, -25));
  }

  lemma QuotientFromProduct(a: real, b: real, q: real)
    requires b != 0.0 && q * b == a
    ensures a / b == q
  {
  }

  lemma SmallestNormalHalf(x: real)
    requires x > 0.0 && RoundsMagnitude(Half, TiesToEven, x, 1024)
    ensures RoundsTo(Half, Nearest, x, 0x0400)
  {
    HalfGeometry();
    hide RoundsMagnitude, Pow2;
    SignAndMagnitude(Half, false, 1024);
  }

  lemma HalvedPattern(x: real, rounded: FpResult)
    requires x > 0.0 && Packs(Half, Nearest, x, rounded)
    requires RoundsMagnitude(Half, TiesToEven, x, 1024) && LosesCarry(Half, x, 1024)
    ensures rounded.bits == 0x0200
  {
    hide Pow2, Mag, RoundsMagnitude, LosesCarry, FlagsFor;
    var b: nat :| IsPackingOf(Half, TiesToEven, false, x, b, rounded);
    RoundingUnique(Half, TiesToEven, x, b, 1024);
  }

  lemma TieBelowNormal(x: real)
    requires x == Scale(2047, -25)
    ensures x > 0.0 && RoundsMagnitude(Half, TiesToEven, x, 1024) && LosesCarry(Half, x, 1024)
  {
    HalfGeometry();
    Pow2Small();
    hide Pow2, Scale, Mag;
    MagOfSubnormal(Half, 1023);
    MagOfSubnormal(Half, 1024);
    ScaleShift(1023, 1, -25);
    ScaleShift(1024, 1, -25);
    ScaleShift(2047, 2, -27);
    ScaleOrder(1, 8188, -27);
    ScaleOrder(2046, 2047, -25);
    ScaleOrder(2047, 2048, -25);
    ScaleAdd(2046, 2048, -25);
    ScaleAdd(2047, 2047, -25);
    ScalePositive(2047, -25);
    InfinityIsLarge(Half);
    MagOrder(Half, 1023, Half.Infinity());
    MagOrder(Half, 1024, Half.Infinity());
    assert IsLowerNeighbour(Half, x, 1023);
    assert 1024 == Selected(Half, TiesToEven, x, 1023);
  }

  lemma HalfGeometry()
    ensures Pow2(10) == 1024 && Half.ExponentBias() == 15 && Half.MaxExponent() == 31
    ensures Half.Infinity() == 31744 && QuantumExponent(Half) == -24
    ensures Pow2(15) == 32768 && Pow2(16) == 65536
    ensures IsPowerOfTwo(1024)
  {
    Geometry(Half);
    assert Pow2(10) == 1024;
    assert Pow2(15) == 32768;
  }

  lemma HalfFactors()
    ensures IsFinite(Half, 0x3bff) && IsFinite(Half, 0x0400)
    ensures ProductOf(Half, 0x3bff, 0x0400) == Scale(2047, -25)
  {
    HalfGeometry();
    hide Pow2, Scale, Mag;
    MagOfNormal(Half, 14, 2047);
    MagOfNormal(Half, 1, 1024);
    ScaleMul(2047, 1024, -11, -24);
    ScaleShift(2047, 10, -35);
  }
}
