/**
 Fused multiply-add (crates/core/src/fp/softfloat/fused.rs).

 The product is kept exact and aligned against the addend, and the sum is rounded once.  Where
 alignment discards bits of an operand that is then subtracted, `Accumulate` does not borrow, so
 the significand and sticky bit it hands on describe a value just above the truncated difference
 while the exact sum lies just below it.  `FusedRounds` says which value is rounded, and
 `FusedCorrectIff` exactly when that makes a difference.
 */
module Fused {
  import opened Options
  import opened Powers
  import opened Formats
  import opened Rounding
  import opened Decompose
  import opened Arithmetic
  import opened MultiplyDivide
  import Nan

  datatype FusedOperands = FusedOperands(
    multiplicand: nat, multiplier: nat, addend: nat, isProductNegated: bool, isAddendNegated: bool)

  /** A product nothing has been rounded off: two significand scales wide. */
  datatype ExactProduct = ExactProduct(isNegative: bool, exponent: int, significand: nat)

  predicate OperandsFit(o: FusedOperands, f: FpFormat) {
    f.Fits(o.multiplicand) && f.Fits(o.multiplier) && f.Fits(o.addend)
  }

  function MultiplyAdd(o: FusedOperands, context: Context): FpResult
    requires OperandsFit(o, context.format)
  {
    var f := context.format;
    match Nan.Propagate([o.multiplicand, o.multiplier, o.addend], f, context.control)
    case Some(result) => result
    case None =>
      match SpecialCases(o, context)
      case Some(result) => result
      case None => Accumulate(ExactProductOf(o, f), SignedAddend(o, f), context)
  }

  function SignedAddend(o: FusedOperands, f: FpFormat): nat {
    if o.isAddendNegated then f.FlipSign(o.addend) else o.addend
  }

  predicate IsProductNegative(o: FusedOperands, f: FpFormat) {
    (f.IsNegative(o.multiplicand) != f.IsNegative(o.multiplier)) != o.isProductNegated
  }

  function SpecialCases(o: FusedOperands, context: Context): Option<FpResult> {
    var f := context.format;
    var addend := SignedAddend(o, f);
    if (f.IsInfinite(o.multiplicand) && f.IsZero(o.multiplier)) || (f.IsZero(o.multiplicand) && f.IsInfinite(o.multiplier)) then
      Some(Nan.InvalidOperation(f))
    else if f.IsInfinite(o.multiplicand) || f.IsInfinite(o.multiplier) then
      if f.IsInfinite(addend) && f.IsNegative(addend) != IsProductNegative(o, f) then Some(Nan.InvalidOperation(f))
      else Some(Exactly(f.SignedInfinity(IsProductNegative(o, f))))
    else if f.IsInfinite(addend) then Some(Exactly(addend))
    else if f.IsZero(o.multiplicand) || f.IsZero(o.multiplier) then Some(ZeroProduct(addend, IsProductNegative(o, f), context))
    else None
  }

  function ZeroProduct(addend: nat, isProductNegative: bool, context: Context): FpResult {
    var f := context.format;
    if !f.IsZero(addend) then Exactly(addend)
    else Exactly(f.ZeroBits(if f.IsNegative(addend) == isProductNegative then isProductNegative else context.rounding == Minus))
  }

  function ExactProductOf(o: FusedOperands, f: FpFormat): ExactProduct {
    var left, right := Unpack(o.multiplicand, f), Unpack(o.multiplier, f);
    WideProduct(left, right, (left.isNegative != right.isNegative) != o.isProductNegated)
  }

  function WideProduct(left: Unpacked, right: Unpacked, isNegative: bool): ExactProduct {
    ExactProduct(isNegative, left.exponent + right.exponent, left.significand * right.significand)
  }

  function Accumulate(product: ExactProduct, addend: nat, context: Context): FpResult {
    var f := context.format;
    if f.IsZero(addend) then RoundWide(product, false, context)
    else
      var u := Unpack(addend, f);
      AccumulateUnpacked(product, u, context)
  }

  function AccumulateUnpacked(product: ExactProduct, u: Unpacked, context: Context): FpResult {
    var f := context.format;
    var (sum, isSticky) := AlignedSum(product, u, f);
    if sum.significand == 0 && !isSticky then Exactly(f.ZeroBits(context.rounding == Minus))
    else RoundWide(sum, isSticky && sum.significand != 0, context)
  }

  function AlignedSum(product: ExactProduct, u: Unpacked, f: FpFormat): (ExactProduct, bool) {
    var (alignedProduct, alignedAddend, exponent, isSticky) := AlignTo(product, u, f);
    var (significand, isNegative) :=
      if product.isNegative == u.isNegative then (alignedProduct + alignedAddend, product.isNegative)
      else if alignedProduct >= alignedAddend then (alignedProduct - alignedAddend, product.isNegative)
      else (alignedAddend - alignedProduct, u.isNegative);
    (ExactProduct(isNegative, exponent, significand), isSticky)
  }

  /** The product against the addend, the latter raised to the product's scale. */
  function AlignTo(product: ExactProduct, u: Unpacked, f: FpFormat): (nat, nat, int, bool) {
    AlignWide(product.significand, product.exponent, u.significand * Pow2(SignificandScale(f)), u.exponent)
  }

  function AlignWide(product: nat, productExponent: int, addend: nat, addendExponent: int): (nat, nat, int, bool) {
    if productExponent >= addendExponent then
      var (shifted, isSticky) := ShiftRightSticky(addend, productExponent - addendExponent);
      (product, shifted, productExponent, isSticky)
    else
      var (shifted, isSticky) := ShiftRightSticky(product, addendExponent - productExponent);
      (shifted, addend, addendExponent, isSticky)
  }

  /** Shifts right in a 128-bit word. */
  function ShiftRightSticky(value: nat, shift: nat): (nat, bool) {
    if shift >= 128 then (0, value != 0)
    else (ShiftRight(value, shift), LowBits(value, shift) != 0)
  }

  function RoundWide(value: ExactProduct, isSticky: bool, context: Context): FpResult {
    var f := context.format;
    if value.significand == 0 then Exactly(f.ZeroBits(value.isNegative))
    else
      var (narrowed, sticky) := Narrowed(value, isSticky, f);
      RoundAndPack(narrowed, f, RoundingContext(context.rounding, sticky, context.control))
  }

  /** The leading bit is brought to twice the significand scale, and then one scale is dropped. */
  function Narrowed(value: ExactProduct, isSticky: bool, f: FpFormat): (Unpacked, bool)
    requires value.significand > 0
  {
    var scale := SignificandScale(f);
    var target, leading := 2 * scale, BitLength(value.significand) - 1;
    if leading > target then
      var (shifted, discarded) := ShiftRightSticky(value.significand, leading - target);
      var (narrowed, dropped) := ShiftRightSticky(shifted, scale);
      (Unpacked(value.isNegative, value.exponent + (leading - target), narrowed), isSticky || discarded || dropped)
    else
      var (narrowed, dropped) := ShiftRightSticky(value.significand * Pow2(target - leading), scale);
      (Unpacked(value.isNegative, value.exponent - (target - leading), narrowed), isSticky || dropped)
  }

  /** `RoundWide` with its significand, exponent and sticky bit updated step by step. */
  method ComputeRoundWide(value: ExactProduct, isSticky: bool, context: Context) returns (r: FpResult)
    ensures r == RoundWide(value, isSticky, context)
  {
    var f := context.format;
    if value.significand == 0 {
      return Exactly(f.ZeroBits(value.isNegative));
    }
    hide Pow2, RoundAndPack, ShiftRightSticky, BitLength, FpFormat.MantissaBits;
    var scale := SignificandScale(f);
    var target, leading := 2 * scale, BitLength(value.significand) - 1;
    var exponent, significand, sticky := value.exponent, value.significand, isSticky;
    if leading > target {
      var (shifted, discarded) := ShiftRightSticky(significand, leading - target);
      significand := shifted;
      sticky := sticky || discarded;
      exponent := exponent + (leading - target);
    } else {
      significand := significand * Pow2(target - leading);
      exponent := exponent - (target - leading);
    }
    var (narrowed, dropped) := ShiftRightSticky(significand, scale);
    r := RoundAndPack(Unpacked(value.isNegative, exponent, narrowed), f,
                      RoundingContext(context.rounding, sticky || dropped, context.control));
  }

  // ----- the wide significand is rounded once -----

  lemma StickyShiftIsShift(value: nat, shift: nat)
    requires value < Pow2(128)
    ensures ShiftRightSticky(value, shift) == (ShiftRight(value, shift), LowBits(value, shift) != 0)
  {
    hide Pow2;
    if shift >= 128 {
      Pow2Monotone(128, shift);
      DivModUnique(value, Pow2(shift), 0, value);
    }
  }

  /** Shifting up by `k` and down by `s` is shifting down by `s - k`. */
  lemma UpThenDown(n: nat, k: nat, s: nat)
    requires k <= s
    ensures ShiftRight(n * Pow2(k), s) == ShiftRight(n, s - k)
  {
    hide Pow2, ShiftRight, LowBits;
    Pow2Add(s - k, k);
    ShiftSplit(n, s - k);
    var q, r, d := ShiftRight(n, s - k), LowBits(n, s - k), Pow2(s - k);
    UpThenDownProduct(n, q, r, d, Pow2(k));
    ProductBelow(r, d, Pow2(k));
    QuotientFromSplit(n * Pow2(k), s, q, r * Pow2(k));
  }

  lemma UpThenDownProduct(n: nat, q: nat, r: nat, d: nat, p: nat)
    requires n == q * d + r
    ensures n * p == q * (d * p) + r * p
  {
    MulAssoc(q, d, p);
  }

  lemma QuotientFromSplit(n: nat, s: nat, q: nat, r: nat)
    requires n == q * Pow2(s) + r && r < Pow2(s)
    ensures ShiftRight(n, s) == q
  {
    hide Pow2;
    DivModUnique(n, Pow2(s), q, r);
  }

  /** What is known of a wide significand survives narrowing. */
  lemma NarrowedMeaning(v: real, value: ExactProduct, isSticky: bool, f: FpFormat)
    requires 0 < value.significand < Pow2(2 * SignificandScale(f) + 4)
    requires Brackets(v, value.significand, isSticky, value.exponent - 2 * SignificandScale(f))
    requires isSticky ==> value.significand >= Pow2(2 * SignificandScale(f) - 1)
    ensures var (u, sticky) := Narrowed(value, isSticky, f);
            && Brackets(v, u.significand, sticky, u.exponent - SignificandScale(f))
            && u.significand >= Pow2(SignificandScale(f)) && u.isNegative == value.isNegative
  {
    hide Pow2, Brackets, ShiftRight, LowBits, BitLength, ShiftRightSticky;
    var s, n := SignificandScale(f), value.significand;
    var target, leading := 2 * s, BitLength(n) - 1;
    var g := value.exponent - target;
    ScaleBounds(f);
    BitLengthBounds(n);
    if leading > target {
      var k := leading - target;
      Pow2Monotone(target + 4, 128);
      StickyShiftIsShift(n, k);
      BracketShift(v, n, isSticky, g, k);
      ShiftedLeading(n, k, leading, target);
      Pow2Monotone(target + 1, 128);
      StickyShiftIsShift(ShiftRight(n, k), s);
      BracketShift(v, ShiftRight(n, k), isSticky || LowBits(n, k) != 0, g + k, s);
      ShiftedLeading(ShiftRight(n, k), s, target, s);
    } else {
      var k := target - leading;
      RaisedLeading(n, k, leading, target);
      Pow2Monotone(target + 1, 128);
      StickyShiftIsShift(n * Pow2(k), s);
      ShiftedLeading(n * Pow2(k), s, target, s);
      if isSticky {
        LeadingAtLeast(n, target - 1);
        UpThenDown(n, k, s);
        BracketShift(v, n, true, g, s - k);
      } else {
        RaiseExact(v, n, g, k);
        BracketShift(v, n * Pow2(k), false, g - k, s);
      }
    }
  }

  lemma RaiseExact(v: real, n: nat, g: int, k: nat)
    requires Brackets(v, n, false, g)
    ensures Brackets(v, n * Pow2(k), false, g - k)
  {
    ScaleShift(n, k, g - k);
  }

  lemma LeadingAtLeast(n: nat, k: nat)
    requires n >= Pow2(k)
    ensures BitLength(n) - 1 >= k
  {
    hide Pow2, BitLength;
    BitLengthBounds(n);
    if BitLength(n) <= k {
      Pow2Monotone(BitLength(n), k);
    }
  }

  lemma ShiftedLeading(n: nat, k: nat, leading: nat, target: nat)
    requires Pow2(leading) <= n < Pow2(leading + 1) && leading == target + k
    ensures Pow2(target) <= ShiftRight(n, k) < Pow2(target + 1)
  {
    hide Pow2;
    Pow2Add(target, k);
    Pow2Add(target + 1, k);
    DivAtLeast(n, Pow2(k), Pow2(target));
    DivLess(n, Pow2(k), Pow2(target + 1));
  }

  lemma RaisedLeading(n: nat, k: nat, leading: nat, target: nat)
    requires Pow2(leading) <= n < Pow2(leading + 1) && leading + k == target
    ensures Pow2(target) <= n * Pow2(k) < Pow2(target + 1)
  {
    hide Pow2;
    Pow2Add(leading, k);
    Pow2Add(leading + 1, k);
    MulMonotone(Pow2(leading), n, Pow2(k));
    ProductBelow(n, Pow2(leading + 1), Pow2(k));
  }

  lemma WideIsRoundedOnce(x: real, value: ExactProduct, isSticky: bool, context: Context) returns (rounded: FpResult)
    requires x != 0.0 && value.isNegative == (x < 0.0)
    requires 0 < value.significand < Pow2(2 * SignificandScale(context.format) + 4)
    requires Brackets(Abs(x), value.significand, isSticky, value.exponent - 2 * SignificandScale(context.format))
    requires isSticky ==> value.significand >= Pow2(2 * SignificandScale(context.format) - 1)
    ensures Packs(context.format, context.rounding, x, rounded)
    ensures RoundWide(value, isSticky, context) == Finished(rounded, {}, context)
  {
    hide Pow2, Brackets, Narrowed, PackUnflushed, Packs, ApplyFlushToZero;
    var f := context.format;
    NarrowedMeaning(Abs(x), value, isSticky, f);
    var (u, sticky) := Narrowed(value, isSticky, f);
    var rc := RoundingContext(context.rounding, sticky, context.control);
    PackingOfBracketed(x, u, f, rc);
    rounded := PackUnflushed(u, f, rc);
  }

  // ----- the exact sum and what alignment keeps of it -----

  /** The magnitude a wide significand denotes. */
  ghost function WideMagnitude(product: ExactProduct, f: FpFormat): real {
    Scale(product.significand, product.exponent - 2 * SignificandScale(f))
  }

  ghost function SignedProduct(product: ExactProduct, f: FpFormat): real {
    if product.isNegative then -WideMagnitude(product, f) else WideMagnitude(product, f)
  }

  /** What the product of two normalised significands satisfies. */
  predicate IsWideNormal(product: ExactProduct, f: FpFormat) {
    && Pow2(2 * SignificandScale(f)) <= product.significand < Pow2(2 * SignificandScale(f) + 2)
    && product.significand % 64 == 0
  }

  /** Opposite signs, and alignment discarded a set bit. */
  predicate MissesBorrow(product: ExactProduct, u: Unpacked, f: FpFormat) {
    product.isNegative != u.isNegative && AlignTo(product, u, f).3
  }

  /** The difference of the aligned significands, the truncated one included. */
  function TruncatedDifference(product: ExactProduct, u: Unpacked, f: FpFormat): nat {
    var (p, a, _, _) := AlignTo(product, u, f);
    if p >= a then p - a else a - p
  }

  /** Exponent of the unit the aligned significands count. */
  function WideUnit(product: ExactProduct, u: Unpacked, f: FpFormat): int {
    AlignTo(product, u, f).2 - 2 * SignificandScale(f)
  }

  /** The value `Accumulate` rounds: the exact sum, or a point just above the truncated difference. */
  ghost function RoundedValue(product: ExactProduct, u: Unpacked, f: FpFormat): real {
    if MissesBorrow(product, u, f) then
      var g := WideUnit(product, u, f);
      var y := Scale(TruncatedDifference(product, u, f), g) + Scale(1, g - 1);
      if SignedProduct(product, f) + Signed(u, f) < 0.0 then -y else y
    else SignedProduct(product, f) + Signed(u, f)
  }

  lemma AlignedBySticky(v: real, n: nat, g: int, shift: nat)
    requires v == Scale(n, g) && n < Pow2(128)
    ensures var (shifted, isSticky) := ShiftRightSticky(n, shift); Brackets(v, shifted, isSticky, g + shift)
  {
    hide Pow2, Scale;
    StickyShiftIsShift(n, shift);
    BracketShift(v, n, false, g, shift);
  }

  /** Bits are lost only by a shift past the trailing zeroes, so the shifted operand becomes small. */
  lemma LostBitsMakeSmall(n: nat, zeroes: nat, width: nat, shift: nat)
    requires n < Pow2(width) && n < Pow2(128) && n % Pow2(zeroes) == 0 && zeroes < width
    requires ShiftRightSticky(n, shift).1
    ensures shift > zeroes && ShiftRightSticky(n, shift).0 < Pow2(width - zeroes - 1)
  {
    hide Pow2, ShiftRightSticky, ShiftRight;
    StickyShiftIsShift(n, shift);
    if shift <= zeroes {
      LowBitsDivide(n, zeroes, shift);
    }
    ShiftSplit(n, shift);
    Pow2Monotone(zeroes + 1, shift);
    Pow2Add(width - zeroes - 1, zeroes + 1);
    MulMonotone(Pow2(zeroes + 1), Pow2(shift), ShiftRight(n, shift));
    BoundFromProduct(ShiftRight(n, shift), Pow2(zeroes + 1), Pow2(width - zeroes - 1));
  }

  lemma BoundFromProduct(q: nat, d: nat, bound: nat)
    requires d > 0 && q * d < bound * d
    ensures q < bound
  {
    if q >= bound {
      MulMonotone(bound, q, d);
    }
  }

  lemma LowBitsDivide(n: nat, zeroes: nat, shift: nat)
    requires shift <= zeroes && n % Pow2(zeroes) == 0
    ensures LowBits(n, shift) == 0
  {
    hide Pow2;
    var c := n / Pow2(zeroes);
    DivBounds(n, Pow2(zeroes));
    Pow2Add(zeroes - shift, shift);
    MulAssoc(c, Pow2(zeroes - shift), Pow2(shift));
    DivModUnique(n, Pow2(shift), c * Pow2(zeroes - shift), 0);
  }

  /** The addend raised to the product's scale. */
  lemma RaisedAddend(u: Unpacked, f: FpFormat)
    requires IsNormalised(u, f) && u.significand > 0 && u.significand % 8 == 0
    ensures var n, s := u.significand * Pow2(SignificandScale(f)), SignificandScale(f);
            && Pow2(2 * s) <= n < Pow2(2 * s + 1) && n % Pow2(6) == 0
            && Scale(n, u.exponent - 2 * s) == Abs(Signed(u, f))
  {
    hide Pow2, Scale;
    var s := SignificandScale(f);
    ScaleBounds(f);
    ScaleShift(u.significand, s, u.exponent - 2 * s);
    ScalePositive(u.significand, u.exponent - s);
    Pow2Add(s, s);
    Pow2Quarter(s);
    RaisedLeading(u.significand, s, s, 2 * s);
    TrailingZeroes(u.significand, s);
  }

  lemma TrailingZeroes(n: nat, s: nat)
    requires s >= 6
    ensures n * Pow2(s) % Pow2(6) == 0
  {
    hide Pow2;
    Pow2Add(s - 6, 6);
    MulAssoc(n, Pow2(s - 6), Pow2(6));
    DivModUnique(n * Pow2(s), Pow2(6), n * Pow2(s - 6), 0);
  }

  /** Both aligned significands bracket their magnitudes; one of them exactly, and the other small if bits were lost. */
  lemma AlignToMeaning(product: ExactProduct, u: Unpacked, f: FpFormat)
    requires IsWideNormal(product, f) && IsNormalised(u, f) && u.significand > 0 && u.significand % 8 == 0
    ensures var (p, a, e, isSticky) := AlignTo(product, u, f);
            var s := SignificandScale(f);
            var isProductExact := product.exponent >= u.exponent;
            && Brackets(WideMagnitude(product, f), p, isSticky && !isProductExact, e - 2 * s)
            && Brackets(Abs(Signed(u, f)), a, isSticky && isProductExact, e - 2 * s)
            && p < Pow2(2 * s + 2) && a < Pow2(2 * s + 2)
            && (isSticky && isProductExact ==> p >= Pow2(2 * s) && a < Pow2(2 * s - 5))
            && (isSticky && !isProductExact ==> a >= Pow2(2 * s) && p < Pow2(2 * s - 5))
  {
    hide Pow2, Scale, ShiftRightSticky, Signed;
    var s := SignificandScale(f);
    var raised := u.significand * Pow2(s);
    ScaleBounds(f);
    RaisedAddend(u, f);
    Pow2Monotone(2 * s + 2, 128);
    Pow2Monotone(2 * s + 1, 2 * s + 2);
    assert Pow2(6) == 64 by { SixtyFour(); }
    if product.exponent >= u.exponent {
      var shift := product.exponent - u.exponent;
      AlignedBySticky(Abs(Signed(u, f)), raised, u.exponent - 2 * s, shift);
      ShiftNeverGrows(raised, shift);
      if ShiftRightSticky(raised, shift).1 {
        LostBitsMakeSmall(raised, 6, 2 * s + 1, shift);
        Pow2Monotone(2 * s - 6, 2 * s - 5);
      }
    } else {
      var shift := u.exponent - product.exponent;
      AlignedBySticky(WideMagnitude(product, f), product.significand, product.exponent - 2 * s, shift);
      ShiftNeverGrows(product.significand, shift);
      if ShiftRightSticky(product.significand, shift).1 {
        LostBitsMakeSmall(product.significand, 6, 2 * s + 2, shift);
      }
    }
  }

  lemma SixtyFour()
    ensures Pow2(6) == 64
  {
    Pow2Small();
    Pow2Add(3, 3);
  }

  lemma ShiftNeverGrows(n: nat, shift: nat)
    requires n < Pow2(128)
    ensures ShiftRightSticky(n, shift).0 <= n
  {
    hide Pow2;
    StickyShiftIsShift(n, shift);
    DivBounds(n, Pow2(shift));
    MulMonotone(1, Pow2(shift), n / Pow2(shift));
  }

  lemma SumOfBrackets(v: real, n: nat, isSticky: bool, w: real, a: nat, isOtherSticky: bool, g: int)
    requires Brackets(v, n, isSticky, g) && Brackets(w, a, isOtherSticky, g) && !(isSticky && isOtherSticky)
    ensures Brackets(v + w, n + a, isSticky || isOtherSticky, g)
  {
    hide Scale;
    if isSticky {
      SumBracket(a, v, n, isSticky, g);
    } else {
      SumBracket(n, w, a, isOtherSticky, g);
    }
  }

  /** Subtracting a truncated operand without a borrow overshoots the exact difference by less than a unit. */
  lemma DifferenceOvershoots(v: real, n: nat, w: real, a: nat, g: int)
    requires Brackets(v, n, false, g) && Brackets(w, a, true, g) && a < n
    ensures Scale(n - a - 1, g) < v - w < Scale(n - a, g)
    ensures v - w > 0.0
  {
    hide Scale;
    ScaleAdd(n, a, g);
    ScaleAdd(n, a + 1, g);
    ScaleZero(g);
    ScaleOrder(0, n - a, g);
    if n - a - 1 > 0 {
      ScaleOrder(0, n - a - 1, g);
    }
  }

  lemma ExactDifference(v: real, n: nat, w: real, a: nat, g: int)
    requires Brackets(v, n, false, g) && Brackets(w, a, false, g)
    ensures n >= a ==> Brackets(v - w, n - a, false, g) && v >= w
    ensures v == w <==> n == a
  {
    hide Scale;
    ScaleAdd(n, a, g);
    ScaleOrder(n, a, g);
  }

  lemma WideBounds(s: nat, p: nat, a: nat)
    requires s >= 13 && p < Pow2(2 * s + 2) && a < Pow2(2 * s + 2)
    ensures p + a < Pow2(2 * s + 4)
    ensures p >= Pow2(2 * s) && a < Pow2(2 * s - 5) ==> p - a >= Pow2(2 * s - 1) > 1
  {
    hide Pow2;
    Pow2Small();
    Pow2Double(2 * s + 2);
    Pow2Double(2 * s + 3);
    Pow2Double(2 * s - 1);
    Pow2Monotone(2 * s - 5, 2 * s - 1);
    Pow2Monotone(1, 2 * s - 1);
  }

  /** The aligned sum brackets the exact one, except where a borrow is missed: then it overshoots it. */
  lemma AlignedSumMeaning(product: ExactProduct, u: Unpacked, f: FpFormat)
    requires IsWideNormal(product, f) && IsNormalised(u, f) && u.significand > 0 && u.significand % 8 == 0
    ensures var (sum, isSticky) := AlignedSum(product, u, f);
            var x, s, n := SignedProduct(product, f) + Signed(u, f), SignificandScale(f), sum.significand;
            var g := WideUnit(product, u, f);
            && sum.exponent - 2 * s == g && n < Pow2(2 * s + 4)
            && (isSticky ==> n >= Pow2(2 * s - 1) && n > 1)
            && (x != 0.0 ==> sum.isNegative == (x < 0.0))
            && (MissesBorrow(product, u, f) ==>
                  x != 0.0 && isSticky && n == TruncatedDifference(product, u, f) && Scale(n - 1, g) < Abs(x) < Scale(n, g))
            && (!MissesBorrow(product, u, f) ==>
                  && (x == 0.0 <==> n == 0)
                  && (n == 0 ==> !isSticky)
                  && (x != 0.0 ==> Brackets(Abs(x), n, isSticky, g)))
  {
    hide Pow2, Scale, AlignTo, Signed, WideMagnitude;
    var s, g := SignificandScale(f), WideUnit(product, u, f);
    var (p, a, e, isSticky) := AlignTo(product, u, f);
    var v, w := WideMagnitude(product, f), Abs(Signed(u, f));
    var isProductExact := product.exponent >= u.exponent;
    ScaleBounds(f);
    AlignToMeaning(product, u, f);
    WideBounds(s, p, a);
    WideBounds(s, a, p);
    MagnitudesPositive(product, u, f);
    if product.isNegative == u.isNegative {
      SumOfBrackets(v, p, isSticky && !isProductExact, w, a, isSticky && isProductExact, g);
      PositiveBracket(v + w, p + a, isSticky, g);
    } else if !isSticky {
      ExactDifference(v, p, w, a, g);
      ExactDifference(w, a, v, p, g);
    } else if isProductExact {
      DifferenceOvershoots(v, p, w, a, g);
    } else {
      DifferenceOvershoots(w, a, v, p, g);
    }
  }

  /** The exact product, the raised addend and their aligned sum fit 128 bits. */
  lemma WideFitsWords(product: ExactProduct, u: Unpacked, f: FpFormat)
    requires IsWideNormal(product, f) && IsNormalised(u, f) && u.significand > 0 && u.significand % 8 == 0
    ensures product.significand < Pow2(128) && u.significand * Pow2(SignificandScale(f)) < Pow2(128)
    ensures AlignedSum(product, u, f).0.significand < Pow2(2 * SignificandScale(f) + 4) < Pow2(128)
  {
    hide Pow2, Scale, AlignedSum, Signed, SignedProduct, MissesBorrow, Brackets;
    var s := SignificandScale(f);
    ScaleBounds(f);
    AlignedSumMeaning(product, u, f);
    SignificandFitsWord(u, f);
    RaisedBelow(u.significand, s, 57);
    Pow2Monotone(57 + s, 128);
    Pow2Monotone(2 * s + 2, 127);
    Pow2Monotone(2 * s + 4, 127);
    Pow2Double(127);
  }

  /** Raising a wide significand to its leading position fits 128 bits, and what is narrowed fits 64. */
  lemma NarrowedFitsWords(value: ExactProduct, isSticky: bool, f: FpFormat)
    requires 0 < value.significand < Pow2(2 * SignificandScale(f) + 4)
    ensures var raise := 2 * SignificandScale(f) - (BitLength(value.significand) - 1);
            raise >= 0 ==> value.significand * Pow2(raise) < Pow2(128)
    ensures Narrowed(value, isSticky, f).0.significand < Pow2(64)
  {
    hide Pow2, ShiftRight, LowBits, BitLength;
    var s, n := SignificandScale(f), value.significand;
    var target, leading := 2 * s, BitLength(n) - 1;
    ScaleBounds(f);
    BitLengthBounds(n);
    Pow2Monotone(target + 1, 128);
    Pow2Monotone(s + 1, 63);
    Pow2Double(63);
    Pow2Monotone(0, s + 1);
    Pow2Small();
    if leading > target {
      ShiftedBelow(n, leading - target, target + 1);
      WordShift(n, leading - target);
      var shifted := ShiftRightSticky(n, leading - target).0;
      ShiftedBelow(shifted, s, s + 1);
      WordShift(shifted, s);
    } else {
      RaisedBelow(n, target - leading, leading + 1);
      ShiftedBelow(n * Pow2(target - leading), s, s + 1);
      WordShift(n * Pow2(target - leading), s);
    }
  }

  lemma WordShift(value: nat, shift: nat)
    ensures ShiftRightSticky(value, shift).0 <= ShiftRight(value, shift)
  {
    hide ShiftRight, LowBits;
  }

  lemma PositiveBracket(v: real, n: nat, isSticky: bool, g: int)
    requires v > 0.0 && Brackets(v, n, isSticky, g)
    ensures n == 0 ==> isSticky
  {
  }

  lemma MagnitudesPositive(product: ExactProduct, u: Unpacked, f: FpFormat)
    requires IsWideNormal(product, f) && u.significand > 0
    ensures WideMagnitude(product, f) > 0.0 && Abs(Signed(u, f)) > 0.0
    ensures u.isNegative <==> Signed(u, f) < 0.0
  {
    hide Pow2, Scale;
    ScalePositive(product.significand, product.exponent - 2 * SignificandScale(f));
    ScalePositive(u.significand, u.exponent - SignificandScale(f));
  }

  /** One rounding of `RoundedValue`, and where it lies when a borrow is missed. */
  lemma AccumulateRounds(product: ExactProduct, u: Unpacked, context: Context) returns (rounded: FpResult)
    requires IsWideNormal(product, context.format) && IsNormalised(u, context.format)
    requires u.significand > 0 && u.significand % 8 == 0
    ensures var f := context.format;
            var x, y := SignedProduct(product, f) + Signed(u, f), RoundedValue(product, u, f);
            && (x == 0.0 ==> AccumulateUnpacked(product, u, context) == Exactly(f.ZeroBits(context.rounding == Minus)))
            && (x != 0.0 ==>
                  && Packs(f, context.rounding, y, rounded)
                  && AccumulateUnpacked(product, u, context) == Finished(rounded, {}, context))
            && (x == 0.0 ==> !MissesBorrow(product, u, f))
            && (MissesBorrow(product, u, f) ==> OvershootsAt(f, x, y, TruncatedDifference(product, u, f), WideUnit(product, u, f)))
  {
    hide Pow2, Scale, AlignedSum, Signed, WideMagnitude, RoundWide, MissesBorrow, Brackets, Packs, ApplyFlushToZero, TruncatedDifference,
         WideUnit;
    var f := context.format;
    var x, y := SignedProduct(product, f) + Signed(u, f), RoundedValue(product, u, f);
    var (sum, isSticky) := AlignedSum(product, u, f);
    AlignedSumMeaning(product, u, f);
    rounded := Exactly(0);
    if MissesBorrow(product, u, f) {
      HalfUnitAbove(sum.significand, WideUnit(product, u, f));
    }
    if x != 0.0 {
      rounded := WideIsRoundedOnce(y, sum, isSticky, context);
    }
  }

  /** `x` is the exact value, just below n units, and `y`, of the same sign, is just above them. */
  ghost predicate OvershootsAt(f: FpFormat, x: real, y: real, n: nat, g: int) {
    && x != 0.0 && (y < 0.0 <==> x < 0.0)
    && n > 1 && n >= Pow2(2 * SignificandScale(f) - 1)
    && Scale(n - 1, g) < Abs(x) < Scale(n, g) < Abs(y) < Scale(n + 1, g)
  }

  // ----- near a wide difference, only the difference itself can decide rounding -----

  /** Every decision point above half the wide leading position is a whole number of wide units. */
  lemma DecisionInUnits(f: FpFormat, d: real, g: int) returns (k: int)
    requires IsDecisionPoint(f, d) && d > Scale(Pow2(2 * SignificandScale(f) - 2), g)
    ensures d == Scale(k, g)
  {
    hide Pow2, Scale, Mag;
    var q := QuantumExponent(f);
    if exists c: nat :: c <= f.Infinity() && Mag(f, c) == d {
      var c: nat :| c <= f.Infinity() && Mag(f, c) == d;
      var t, h := MagAsSignificand(f, c);
      MagOrder(f, c, c + 1);
      WideUnitIsFine(f, d, t, q + h, g);
      k := t * Pow2(q + h - g);
      ScaleShift(t, q + h - g, g);
    } else {
      var c: nat :| c < f.Infinity() && IsMidpoint(f, d, c);
      var t, h := MagAsSignificand(f, c);
      MidpointsBetween(f, c);
      WideUnitIsFine(f, d, t, q + h, g);
      HalfwaySignificand(d, t, q + h);
      k := (2 * t + 1) * Pow2(q + h - 1 - g);
      ScaleShift(2 * t + 1, q + h - 1 - g, g);
    }
  }

  lemma WideUnitIsFine(f: FpFormat, d: real, t: nat, e: int, g: int)
    requires t < 2 * Pow2(f.MantissaBits()) && d < Scale(t + 1, e)
    requires d > Scale(Pow2(2 * SignificandScale(f) - 2), g)
    ensures e - 1 >= g
  {
    hide Scale, Pow2, Pow2R, FpFormat.MantissaBits;
    var m := f.MantissaBits();
    Pow2Double(m);
    ScaleOrder(t + 1, Pow2(m + 1), e);
    OneScaled(m + 1, e);
    OneScaled(2 * SignificandScale(f) - 2, g);
    Pow2ROrder(g + 2 * SignificandScale(f) - 2, e + m + 1);
  }

  lemma OvershootCrossesOneDecision(f: FpFormat, x: real, y: real, n: nat, g: int)
    requires OvershootsAt(f, x, y, n, g)
    ensures IsOnlyDecision(f, Abs(x), Scale(n, g), Abs(y))
  {
    hide Scale, Pow2, IsDecisionPoint;
    var s := SignificandScale(f);
    ScaleBounds(f);
    Pow2Double(2 * s - 2);
    Pow2Monotone(1, 2 * s - 2);
    Pow2Small();
    ScaleOrder(Pow2(2 * s - 2), n - 1, g);
    forall d: real | IsDecisionPoint(f, d) && Abs(x) <= d <= Abs(y) ensures d == Scale(n, g) {
      var k := DecisionInUnits(f, d, g);
      ScaleOrder(n - 1, k, g);
      ScaleOrder(k, n + 1, g);
    }
  }

  // ----- the operation -----

  /** The exact product of the multiplicands, negated where the operation asks for it. */
  ghost function ProductValue(o: FusedOperands, f: FpFormat): real {
    var p := Value(f, o.multiplicand) * Value(f, o.multiplier);
    if o.isProductNegated then -p else p
  }

  ghost function AddendValue(o: FusedOperands, f: FpFormat): real {
    if o.isAddendNegated then -Value(f, o.addend) else Value(f, o.addend)
  }

  predicate OperandsFinite(o: FusedOperands, f: FpFormat) {
    IsFinite(f, o.multiplicand) && IsFinite(f, o.multiplier) && IsFinite(f, o.addend)
  }

  /** Whether this operation subtracts with bits discarded: decided by the operands before anything is rounded. */
  predicate CancelsInexactly(o: FusedOperands, f: FpFormat) {
    var addend := SignedAddend(o, f);
    !f.IsZero(addend) && MissesBorrow(ExactProductOf(o, f), Unpack(addend, f), f)
  }

  /** The truncated difference such an operation hands to the packer, as a real number. */
  ghost function TruncatedValue(o: FusedOperands, f: FpFormat): real {
    var product, u := ExactProductOf(o, f), Unpack(SignedAddend(o, f), f);
    Scale(TruncatedDifference(product, u, f), WideUnit(product, u, f))
  }

  /** The value a fused multiply-add rounds. */
  ghost function FusedValue(o: FusedOperands, f: FpFormat): real {
    if CancelsInexactly(o, f) then RoundedValue(ExactProductOf(o, f), Unpack(SignedAddend(o, f), f), f)
    else ProductValue(o, f) + AddendValue(o, f)
  }

  lemma ExactProductMeaning(o: FusedOperands, f: FpFormat)
    requires OperandsFinite(o, f) && ProductValue(o, f) != 0.0
    ensures IsWideNormal(ExactProductOf(o, f), f)
    ensures SignedProduct(ExactProductOf(o, f), f) == ProductValue(o, f)
  {
    hide Pow2, Scale, Value, Unpack, FpFormat.IsNegative;
    var a, b := Value(f, o.multiplicand), Value(f, o.multiplier);
    var left, right := Unpack(o.multiplicand, f), Unpack(o.multiplier, f);
    UnpackedValue(f, o.multiplicand);
    UnpackedValue(f, o.multiplier);
    NonZeroFactors(a, b);
    WideProductMeaning(left, right, f, ExactProductOf(o, f).isNegative);
    SignOfProduct(a, b);
    MagnitudeOfUnpacked(left, f);
    MagnitudeOfUnpacked(right, f);
  }

  lemma NonZeroFactors(a: real, b: real)
    requires a * b != 0.0
    ensures a != 0.0 && b != 0.0
  {
  }

  lemma MagnitudeOfUnpacked(u: Unpacked, f: FpFormat)
    requires u.significand > 0
    ensures Abs(Signed(u, f)) == Scale(u.significand, u.exponent - SignificandScale(f))
    ensures u.isNegative <==> Signed(u, f) < 0.0
  {
    hide Scale;
    ScalePositive(u.significand, u.exponent - SignificandScale(f));
  }

  lemma WideProductMeaning(left: Unpacked, right: Unpacked, f: FpFormat, isNegative: bool)
    requires IsNormalised(left, f) && IsNormalised(right, f) && left.significand > 0 && right.significand > 0
    requires left.significand % 8 == 0 && right.significand % 8 == 0
    ensures var product := WideProduct(left, right, isNegative);
            && IsWideNormal(product, f)
            && WideMagnitude(product, f) == Scale(left.significand, left.exponent - SignificandScale(f))
                                          * Scale(right.significand, right.exponent - SignificandScale(f))
  {
    hide Pow2, Scale;
    var s, a, b := SignificandScale(f), left.significand, right.significand;
    ScaleMul(a, b, left.exponent - s, right.exponent - s);
    WideProductRange(a, b, s);
    MultipleOfSixtyFour(a / 8, b / 8, a * b);
  }

  lemma WideProductRange(a: nat, b: nat, s: nat)
    requires Pow2(s) <= a < 2 * Pow2(s) && Pow2(s) <= b < 2 * Pow2(s)
    ensures Pow2(2 * s) <= a * b < Pow2(2 * s + 2)
  {
    hide Pow2;
    Pow2Add(s, s);
    Pow2Add(s + 1, s + 1);
    Pow2Double(s);
    MulMonotone(Pow2(s), a, Pow2(s));
    MulMonotone(Pow2(s), b, a);
    ProductBound(a, b, Pow2(s + 1), Pow2(s + 1));
  }

  lemma MultipleOfSixtyFour(c: nat, d: nat, n: nat)
    requires n == (8 * c) * (8 * d)
    ensures n % 64 == 0
  {
    assert (8 * c) * (8 * d) == 64 * (c * d);
  }

  /** What the operands' classes decide before the significand arithmetic. */
  lemma FusedDispatch(o: FusedOperands, context: Context)
    requires OperandsFinite(o, context.format)
    ensures var f := context.format;
            var addend := SignedAddend(o, f);
            && IsFinite(f, addend) && Value(f, addend) == AddendValue(o, f)
            && (f.IsZero(addend) <==> AddendValue(o, f) == 0.0)
            && (ProductValue(o, f) == 0.0 ==>
                  MultiplyAdd(o, context) == ZeroProduct(addend, IsProductNegative(o, f), context))
            && (ProductValue(o, f) != 0.0 ==>
                  MultiplyAdd(o, context) == Accumulate(ExactProductOf(o, f), addend, context))
  {
    hide Pow2, FpFormat.IsNan, FpFormat.IsInfinite, FpFormat.Magnitude, FpFormat.Fits, FpFormat.FlipSign, Mag, Accumulate,
         Nan.Propagate, ExactProductOf;
    var f := context.format;
    NotSpecialIsFinite(f, o.multiplicand);
    NotSpecialIsFinite(f, o.multiplier);
    NotSpecialIsFinite(f, o.addend);
    FlippedOperand(f, o.addend);
    var addend := SignedAddend(o, f);
    NotSpecialIsFinite(f, addend);
    MagNonNegative(f, f.Magnitude(addend));
    MagNonNegative(f, f.Magnitude(o.multiplicand));
    MagNonNegative(f, f.Magnitude(o.multiplier));
    ZeroProductFactors(Value(f, o.multiplicand), Value(f, o.multiplier));
  }

  lemma ZeroProductFactors(a: real, b: real)
    ensures a * b == 0.0 <==> a == 0.0 || b == 0.0
  {
  }

  /**
   Fused multiply-add rounds once.  The value rounded is the exact sum, except that an inexact
   cancellation rounds a value on the other side of its truncated difference, less than two units
   of the wide significand away.
   */
  lemma FusedRounds(o: FusedOperands, context: Context) returns (rounded: FpResult)
    requires OperandsFinite(o, context.format)
    ensures var f := context.format;
            var x, y := ProductValue(o, f) + AddendValue(o, f), FusedValue(o, f);
            && (ProductValue(o, f) != 0.0 && x != 0.0 ==>
                  Packs(f, context.rounding, y, rounded) && MultiplyAdd(o, context) == Finished(rounded, {}, context))
            && (ProductValue(o, f) != 0.0 && x == 0.0 ==>
                  MultiplyAdd(o, context) == Exactly(f.ZeroBits(context.rounding == Minus)))
            && (ProductValue(o, f) == 0.0 ==>
                  MultiplyAdd(o, context) == ZeroProduct(SignedAddend(o, f), IsProductNegative(o, f), context))
            && (!CancelsInexactly(o, f) ==> y == x)
            && (ProductValue(o, f) != 0.0 && CancelsInexactly(o, f) ==>
                  var product, u := ExactProductOf(o, f), Unpack(SignedAddend(o, f), f);
                  OvershootsAt(f, x, y, TruncatedDifference(product, u, f), WideUnit(product, u, f)))
  {
    hide Pow2, Scale, Mag, Value, Unpack, ExactProductOf, SignedAddend, AccumulateUnpacked, RoundWide, Packs, ApplyFlushToZero,
         Signed, SignedProduct, ProductValue, AddendValue, MissesBorrow, OvershootsAt, FpFormat.Magnitude,
         TruncatedDifference, WideUnit, IsWideNormal, MultiplyAdd, ZeroProduct, IsProductNegative, FpFormat.ZeroBits;
    var f := context.format;
    var addend := SignedAddend(o, f);
    rounded := Exactly(0);
    FusedDispatch(o, context);
    if ProductValue(o, f) != 0.0 {
      ExactProductMeaning(o, f);
      var product := ExactProductOf(o, f);
      UnpackedValue(f, addend);
      if f.IsZero(addend) {
        rounded := LoneProductRounds(product, context);
      } else {
        rounded := AccumulateRounds(product, Unpack(addend, f), context);
      }
    }
  }

  lemma LoneProductRounds(product: ExactProduct, context: Context) returns (rounded: FpResult)
    requires IsWideNormal(product, context.format)
    ensures Packs(context.format, context.rounding, SignedProduct(product, context.format), rounded)
    ensures RoundWide(product, false, context) == Finished(rounded, {}, context)
  {
    hide Pow2, Scale, RoundWide, Packs, ApplyFlushToZero;
    var s := SignificandScale(context.format);
    ScalePositive(product.significand, product.exponent - 2 * s);
    Pow2Monotone(2 * s + 2, 2 * s + 4);
    rounded := WideIsRoundedOnce(SignedProduct(product, context.format), product, false, context);
  }

  /** Whether a difference lies where flags change: at the smallest normal or where the rule starts to overflow. */
  ghost predicate IsFlagBoundary(f: FpFormat, rule: Rule, w: real) {
    w == MinNormal(f) || w == OverflowThreshold(f, rule)
  }

  /**
   When a fused multiply-add is correctly rounded, and when it raises the flags of section 7.
   Without an inexact cancellation: the pattern exactly when the packer keeps its carry, the flags
   always.  With one: the pattern exactly when the truncated difference is not a breakpoint of the
   rounding rule and the packer keeps its carry, or when both go wrong below two quanta and cancel
   out; the flags exactly when the truncated difference is not where they change.
   */
  lemma FusedCorrectIff(o: FusedOperands, context: Context)
    requires OperandsFinite(o, context.format) && !IsFlushing(context.format, context.control)
    requires ProductValue(o, context.format) != 0.0
    ensures var f, mode := context.format, context.rounding;
            var x, y := ProductValue(o, f) + AddendValue(o, f), FusedValue(o, f);
            var r := MultiplyAdd(o, context);
            var isCorrect := RoundsTo(f, mode, x, r.bits);
            x != 0.0 ==>
              && (!CancelsInexactly(o, f) ==> (isCorrect <==> !CarryLost(f, mode, x)) && r.raised == FlagsOf(f, mode, x))
              && (CancelsInexactly(o, f) ==>
                    && (isCorrect <==>
                          if IsBreakpoint(f, RuleFor(mode, x < 0.0), TruncatedValue(o, f))
                          then CarryLost(f, mode, y) && Abs(y) < Mag(f, 2)
                          else !CarryLost(f, mode, y))
                    && (r.raised == FlagsOf(f, mode, x)
                        <==> !IsFlagBoundary(f, RuleFor(mode, x < 0.0), TruncatedValue(o, f))))
  {
    hide Pow2, Scale, Mag, Packs, ApplyFlushToZero, CarryLost, RoundsTo, IsBreakpoint, ProductValue, AddendValue, FusedValue,
         CancelsInexactly, MultiplyAdd, OvershootsAt, TruncatedDifference, WideUnit, ExactProductOf, SignedAddend, Unpack,
         FlagsOf, IsFlagBoundary;
    var f, mode := context.format, context.rounding;
    var x, y := ProductValue(o, f) + AddendValue(o, f), FusedValue(o, f);
    var rounded := FusedRounds(o, context);
    if x != 0.0 {
      NoFlush(rounded, context);
      if CancelsInexactly(o, f) {
        var product, u := ExactProductOf(o, f), Unpack(SignedAddend(o, f), f);
        var n, g := TruncatedDifference(product, u, f), WideUnit(product, u, f);
        OvershootCorrectIff(f, mode, x, y, n, g, rounded);
        OvershootFlagsIff(f, mode, x, y, n, g);
        OvershootIsNonZero(f, x, y, n, g);
        PacksMeaning(f, mode, y, rounded);
      } else {
        PacksMeaning(f, mode, x, rounded);
      }
    }
  }

  lemma OvershootIsNonZero(f: FpFormat, x: real, y: real, n: nat, g: int)
    requires OvershootsAt(f, x, y, n, g)
    ensures y != 0.0 && 0.0 <= Abs(x) < Scale(n, g) < Abs(y)
  {
    hide Pow2, Scale;
    ScaleOrder(0, n, g);
    ScaleZero(g);
  }

  /** The flags of the value that is rounded are those of the exact one, except across a boundary. */
  lemma OvershootFlagsIff(f: FpFormat, mode: FpRounding, x: real, y: real, n: nat, g: int)
    requires OvershootsAt(f, x, y, n, g)
    ensures FlagsOf(f, mode, y) == FlagsOf(f, mode, x) <==> !IsFlagBoundary(f, RuleFor(mode, x < 0.0), Scale(n, g))
  {
    hide Pow2, Scale, Mag, OvershootsAt, IsDecisionPoint, IsOnlyDecision, RoundsMagnitude, FpFormat.Infinity;
    OvershootSigns(f, x, y, n, g);
    OvershootIsNonZero(f, x, y, n, g);
    OvershootCrossesOneDecision(f, x, y, n, g);
    AcrossFlags(f, RuleFor(mode, x < 0.0), Abs(x), Scale(n, g), Abs(y));
  }

  lemma OvershootSigns(f: FpFormat, x: real, y: real, n: nat, g: int)
    requires OvershootsAt(f, x, y, n, g)
    ensures y < 0.0 <==> x < 0.0
  {
    hide Pow2, Scale;
  }

  lemma NoFlush(r: FpResult, context: Context)
    requires !IsFlushing(context.format, context.control)
    ensures Finished(r, {}, context) == r
  {
  }

  lemma OvershootCorrectIff(f: FpFormat, mode: FpRounding, x: real, y: real, n: nat, g: int, r: FpResult)
    requires OvershootsAt(f, x, y, n, g) && Packs(f, mode, y, r)
    ensures RoundsTo(f, mode, x, r.bits) <==>
              if IsBreakpoint(f, RuleFor(mode, x < 0.0), Scale(n, g)) then CarryLost(f, mode, y) && Abs(y) < Mag(f, 2)
              else !CarryLost(f, mode, y)
  {
    hide Pow2, Scale, Mag, IsBreakpoint, RoundsMagnitude, IsOnlyDecision, FlagsFor, LosesCarry, FpFormat.Infinity, CarryLost, RoundsTo,
         FpFormat.Encode;
    var rule, w := RuleFor(mode, x < 0.0), Scale(n, g);
    OvershootCrossesOneDecision(f, x, y, n, g);
    var a := RoundingExists(f, rule, Abs(x));
    var b: nat :| IsPackingOf(f, rule, y < 0.0, Abs(y), b, r);
    AcrossDecision(f, rule, Abs(x), w, Abs(y), a, b);
    RoundingInRange(f, rule, Abs(y), b);
    LostCarryIsSmall(f, rule, Abs(y), b);
    CarryLostAt(f, mode, y, b);
    RoundsToPattern(f, mode, x, a, PackedPattern(f, Abs(y), b));
  }

  lemma RoundsToPattern(f: FpFormat, mode: FpRounding, x: real, a: nat, packed: nat)
    requires RoundsMagnitude(f, RuleFor(mode, x < 0.0), Abs(x), a) && packed <= f.Infinity()
    ensures RoundsTo(f, mode, x, f.Encode(x < 0.0, packed)) <==> packed == a
  {
    hide Pow2, RoundsMagnitude, FpFormat.Infinity;
    Layout(f);
    SignAndMagnitude(f, x < 0.0, packed);
    if RoundsTo(f, mode, x, f.Encode(x < 0.0, packed)) {
      RoundingUnique(f, RuleFor(mode, x < 0.0), Abs(x), a, packed);
    }
  }

  /** A lost carry below two quanta is one of the patterns 1 and 2. */
  lemma LostCarryIsSmall(f: FpFormat, rule: Rule, v: real, b: nat)
    requires v > 0.0 && RoundsMagnitude(f, rule, v, b)
    ensures LosesCarry(f, v, b) ==> b > 0 && (v < Mag(f, 2) <==> b <= 2)
  {
    hide Pow2, Mag, FpFormat.Infinity, IsPowerOfTwo;
    if LosesCarry(f, v, b) {
      InfinityIsLarge(f);
      MagNonNegative(f, b);
      MagOrder(f, b, 2);
      MagOrder(f, Pow2(f.MantissaBits()), f.Infinity());
      var lo: nat :| IsLowerNeighbour(f, v, lo) && b == Selected(f, rule, v, lo);
      MagOrder(f, 2, lo);
      PowersAroundTwo(b);
    }
  }

  lemma PowersAroundTwo(b: nat)
    ensures IsPowerOfTwo(b) ==> b != 3
  {
    if IsPowerOfTwo(b) {
      var j: nat :| b == Pow2(j);
      Pow2Small();
      if j >= 2 {
        Pow2Monotone(2, j);
      }
    }
  }

  // ----- operands the missing borrow goes wrong on -----

  /** A normal half-precision power of two. */
  lemma HalfPower(biased: nat)
    requires 0 < biased < 31
    ensures IsFinite(Half, biased * 1024) && !Half.IsNegative(biased * 1024)
    ensures Unpack(biased * 1024, Half) == Unpacked(false, biased - 15, 8192)
    ensures Value(Half, biased * 1024) == Pow2R(biased - 15)
  {
    HalfGeometry();
    hide Pow2, Scale, Mag, Pow2R, BitLength;
    MagOfNormal(Half, biased, 1024);
    OneScaled(10, biased - 25);
  }

  /** The smallest positive half-precision number and its negation. */
  lemma LeastHalf()
    ensures IsFinite(Half, 0x0001) && Value(Half, 0x0001) == Pow2R(-24) && Half.FlipSign(0x0001) == 0x8001
    ensures Unpack(0x0001, Half) == Unpacked(false, -24, 8192) && Unpack(0x8001, Half) == Unpacked(true, -24, 8192)
  {
    HalfGeometry();
    LeadingOne();
    hide Pow2, Scale, Mag, Pow2R, BitLength;
    MagOfSubnormal(Half, 1);
    ScaleOne(-24);
  }

  lemma LeadingOne()
    ensures BitLength(1) == 1 && Pow2(13) == 8192 && Pow2(14) == 16384
  {
    assert BitLength(0) == 0;
  }

  /** Powers of two of opposite signs, too far apart: the smaller one is truncated away entirely. */
  lemma PowersCancelInexactly(o: FusedOperands, a: int, b: int, c: int)
    requires OperandsFinite(o, Half) && AddendValue(o, Half) != 0.0
    requires Unpack(o.multiplicand, Half) == Unpacked(false, a, 8192) && Unpack(o.multiplier, Half) == Unpacked(false, b, 8192)
    requires Unpack(SignedAddend(o, Half), Half) == Unpacked(!o.isProductNegated, c, 8192)
    requires a + b - c > 26 || c - a - b > 26
    ensures CancelsInexactly(o, Half) && TruncatedValue(o, Half) == Pow2R(if a + b > c then a + b else c)
  {
    hide Scale, Unpack, Pow2, FpFormat.IsZero, SignedAddend, ShiftRight, LowBits, Pow2R, OperandsFinite, AddendValue, Value,
         MultiplyAdd, Accumulate;
    HalfGeometry();
    SquaredScale(a + b - c);
    SquaredScale(c - a - b);
    OneScaled(26, a + b - 26);
    OneScaled(26, c - 26);
    FusedDispatch(o, Context(Half, Nearest, FpControl(false, false, false)));
  }

  lemma SquaredScale(k: int)
    ensures 8192 * 8192 == Pow2(26) && 8192 * Pow2(13) == Pow2(26)
    ensures k > 26 ==> ShiftRight(Pow2(26), k) == 0 && LowBits(Pow2(26), k) == Pow2(26) != 0
  {
    LeadingOne();
    Pow2Add(13, 13);
    hide Pow2;
    if k > 26 {
      Pow2Monotone(27, k);
      Pow2Double(26);
      DivModUnique(Pow2(26), Pow2(k), 0, Pow2(26));
    }
  }

  /** What is right and what is wrong where an inexact cancellation meets a flag boundary. */
  lemma AtFlagBoundary(o: FusedOperands, context: Context)
    requires OperandsFinite(o, context.format) && !IsFlushing(context.format, context.control)
    requires ProductValue(o, context.format) != 0.0 && CancelsInexactly(o, context.format)
    ensures var f, mode := context.format, context.rounding;
            var x, w := ProductValue(o, f) + AddendValue(o, f), TruncatedValue(o, f);
            var rule, r := RuleFor(mode, x < 0.0), MultiplyAdd(o, context);
            && (w >= MinNormal(f) && !IsBreakpoint(f, rule, w) ==> RoundsTo(f, mode, x, r.bits))
            && (w == OverflowThreshold(f, rule) ==> FlagsOf(f, mode, x) == {Inexact} && r.raised == {Overflow, Inexact})
            && (w == MinNormal(f) ==> FlagsOf(f, mode, x) == {Underflow, Inexact} && r.raised == {Inexact})
  {
    hide Pow2, Scale, Mag, Packs, ApplyFlushToZero, CarryLost, RoundsTo, IsBreakpoint, ProductValue, AddendValue, FusedValue,
         CancelsInexactly, MultiplyAdd, TruncatedDifference, WideUnit, ExactProductOf, SignedAddend, Unpack, FlagsFor,
         MinNormal, OverflowThreshold, IsOnlyDecision;
    var f, mode := context.format, context.rounding;
    var x, y := ProductValue(o, f) + AddendValue(o, f), FusedValue(o, f);
    var product, u := ExactProductOf(o, f), Unpack(SignedAddend(o, f), f);
    var n, g := TruncatedDifference(product, u, f), WideUnit(product, u, f);
    var rounded := FusedRounds(o, context);
    NoFlush(rounded, context);
    OvershootIsNonZero(f, x, y, n, g);
    OvershootCrossesOneDecision(f, x, y, n, g);
    hide OvershootsAt;
    PacksMeaning(f, mode, y, rounded);
    AcrossFlags(f, RuleFor(mode, x < 0.0), Abs(x), Scale(n, g), Abs(y));
    FusedCorrectIff(o, context);
    if Abs(y) >= MinNormal(f) {
      NormalsKeepCarry(f, mode, y);
    }
  }

  /**
   A missed borrow: in half precision 1 - 2^-14 * 2^-14, rounded toward zero, must be the number
   below one, but the truncated difference is one itself, a breakpoint of that rule.
   */
  lemma FusedMissesBorrow() returns (o: FusedOperands, context: Context)
    ensures o == FusedOperands(0x0400, 0x0400, 0x3c00, true, false)
    ensures context == Context(Half, Zero, FpControl(false, false, false))
    ensures OperandsFinite(o, Half)
    ensures ProductValue(o, Half) + AddendValue(o, Half) == 1.0 - Pow2R(-28)
    ensures !RoundsTo(Half, Zero, 1.0 - Pow2R(-28), MultiplyAdd(o, context).bits)
  {
    hide RoundsTo, MultiplyAdd, Pow2R, Unpack, Value, IsFinite, FpFormat.IsNegative, CancelsInexactly, TruncatedValue, Pow2;
    o := FusedOperands(0x0400, 0x0400, 0x3c00, true, false);
    context := Context(Half, Zero, FpControl(false, false, false));
    HalfPower(1);
    HalfPower(15);
    Pow2RAdd(-14, -14);
    Pow2RZero();
    PowersCancelInexactly(o, -14, -14, 0);
    BorrowMissed(o, context);
  }

  lemma BorrowMissed(o: FusedOperands, context: Context)
    requires context == Context(Half, Zero, FpControl(false, false, false)) && OperandsFinite(o, Half)
    requires ProductValue(o, Half) == -Pow2R(-28) && AddendValue(o, Half) == 1.0
    requires CancelsInexactly(o, Half) && TruncatedValue(o, Half) == 1.0
    ensures !RoundsTo(Half, Zero, 1.0 - Pow2R(-28), MultiplyAdd(o, context).bits)
  {
    hide Pow2, Mag, Scale, Pow2R, ProductValue, AddendValue, MultiplyAdd, CancelsInexactly, TruncatedValue, FusedValue, CarryLost,
         RoundsTo, OperandsFinite, IsRepresentable, FlagsOf, IsFlagBoundary;
    JustBelowOne();
    FusedCorrectIff(o, context);
    OvershotBound(o, context);
    OneIsRepresentable();
    TwoQuantaAreSmall();
  }

  lemma JustBelowOne()
    ensures 0.0 < Pow2R(-28) < 1.0
  {
    Pow2ROrder(-28, 0);
    Pow2RZero();
  }

  /** What an inexact cancellation rounds lies above the truncated difference. */
  lemma OvershotBound(o: FusedOperands, context: Context)
    requires OperandsFinite(o, context.format) && ProductValue(o, context.format) != 0.0
    requires CancelsInexactly(o, context.format)
    ensures TruncatedValue(o, context.format) < Abs(FusedValue(o, context.format))
  {
    hide Pow2, Scale, Mag, ProductValue, AddendValue, MultiplyAdd, CancelsInexactly, TruncatedValue, FusedValue, Packs,
         OperandsFinite, TruncatedDifference, WideUnit, ExactProductOf, SignedAddend, Unpack, OvershootsAt, Finished, ZeroProduct;
    var f := context.format;
    var product, u := ExactProductOf(o, f), Unpack(SignedAddend(o, f), f);
    var _ := FusedRounds(o, context);
    TruncatedIsOvershot(o, f);
    OvershootIsNonZero(f, ProductValue(o, f) + AddendValue(o, f), FusedValue(o, f), TruncatedDifference(product, u, f),
                       WideUnit(product, u, f));
  }

  lemma TruncatedIsOvershot(o: FusedOperands, f: FpFormat)
    ensures TruncatedValue(o, f) == Scale(TruncatedDifference(ExactProductOf(o, f), Unpack(SignedAddend(o, f), f), f),
                                          WideUnit(ExactProductOf(o, f), Unpack(SignedAddend(o, f), f), f))
  {
  }

  lemma OneIsRepresentable()
    ensures IsRepresentable(Half, 1.0)
  {
    HalfGeometry();
    Pow2RZero();
    hide Pow2, Scale, Mag, Pow2R;
    MagOfNormal(Half, 15, 1024);
    OneScaled(10, -10);
    assert Mag(Half, 15360) == 1.0;
  }

  lemma TwoQuantaAreSmall()
    ensures Mag(Half, 2) < 1.0
  {
    HalfGeometry();
    Pow2RZero();
    Pow2Small();
    hide Pow2, Scale, Mag, Pow2R;
    MagOfSubnormal(Half, 2);
    OneScaled(1, -24);
    Pow2ROrder(-23, 0);
  }

  /**
   A spurious overflow: in half precision 256 * 256 - 2^-24, rounded toward zero, is the largest
   finite number and merely inexact.  The pattern is right, but overflow is raised as well.
   */
  lemma FusedOverflowsSpuriously() returns (o: FusedOperands, context: Context)
    ensures o == FusedOperands(0x5c00, 0x5c00, 0x0001, false, true)
    ensures context == Context(Half, Zero, FpControl(false, false, false)) && OperandsFinite(o, Half)
    ensures var x := ProductValue(o, Half) + AddendValue(o, Half);
            && x == Pow2R(16) - Pow2R(-24)
            && RoundsTo(Half, Zero, x, MultiplyAdd(o, context).bits)
            && FlagsOf(Half, Zero, x) == {Inexact} && MultiplyAdd(o, context).raised == {Overflow, Inexact}
  {
    hide RoundsTo, MultiplyAdd, Pow2R, Unpack, Value, IsFinite, FpFormat.IsNegative, CancelsInexactly, TruncatedValue, Pow2, FpFormat.FlipSign,
         FlagsOf, IsBreakpoint, MinNormal, OverflowThreshold;
    o := FusedOperands(0x5c00, 0x5c00, 0x0001, false, true);
    context := Context(Half, Zero, FpControl(false, false, false));
    HalfPower(23);
    LeastHalf();
    Pow2RAdd(8, 8);
    Pow2ROrder(-24, 16);
    PowersCancelInexactly(o, 8, 8, -24);
    HalfBoundaries();
    AtFlagBoundary(o, context);
  }

  /**
   A missing underflow: in half precision 2^-14 - 2^-48 is below the smallest normal number and
   rounds to it, so underflow is due with inexact.  The pattern is right, but only inexact is raised.
   */
  lemma FusedMissesUnderflow() returns (o: FusedOperands, context: Context)
    ensures o == FusedOperands(0x0001, 0x0001, 0x0400, true, false)
    ensures context == Context(Half, Nearest, FpControl(false, false, false)) && OperandsFinite(o, Half)
    ensures var x := ProductValue(o, Half) + AddendValue(o, Half);
            && x == Pow2R(-14) - Pow2R(-48)
            && RoundsTo(Half, Nearest, x, MultiplyAdd(o, context).bits)
            && FlagsOf(Half, Nearest, x) == {Underflow, Inexact} && MultiplyAdd(o, context).raised == {Inexact}
  {
    hide RoundsTo, MultiplyAdd, Pow2R, Unpack, Value, IsFinite, FpFormat.IsNegative, CancelsInexactly, TruncatedValue, Pow2, FpFormat.FlipSign,
         FlagsOf, IsBreakpoint, MinNormal, OverflowThreshold;
    o := FusedOperands(0x0001, 0x0001, 0x0400, true, false);
    context := Context(Half, Nearest, FpControl(false, false, false));
    HalfPower(1);
    LeastHalf();
    Pow2RAdd(-24, -24);
    Pow2ROrder(-48, -14);
    PowersCancelInexactly(o, -24, -24, -14);
    HalfBoundaries();
    AtFlagBoundary(o, context);
  }

  /** Half precision: where directed rounding toward zero overflows, and the smallest normal number. */
  lemma HalfBoundaries()
    ensures OverflowThreshold(Half, TowardZero) == Pow2R(16) && MinNormal(Half) == Pow2R(-14) < Pow2R(16)
    ensures !IsBreakpoint(Half, TowardZero, Pow2R(16)) && !IsBreakpoint(Half, TiesToEven, Pow2R(-14))
  {
    Geometry(Half);
    hide Mag, Pow2, Pow2R, FpFormat.Infinity;
    InfinityValue(Half);
    Pow2ROrder(-14, 16);
    if IsRepresentable(Half, Pow2R(16)) {
      var c: nat :| c < Half.Infinity() && Mag(Half, c) == Pow2R(16);
      MagOrder(Half, c, Half.Infinity());
    }
    if exists c: nat :: c < Half.Infinity() && IsMidpoint(Half, Pow2R(-14), c) {
      var c: nat :| c < Half.Infinity() && IsMidpoint(Half, Pow2R(-14), c);
      MidpointsBetween(Half, c);
      MagOrder(Half, c, Pow2(10));
      MagOrder(Half, Pow2(10), c + 1);
    }
  }
}
