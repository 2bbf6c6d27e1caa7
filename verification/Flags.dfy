/**
 NZCV: how an add or subtract produces the flags and what the condition codes read back from them
 (crates/core/src/interp/flags.rs).
 */
module Flags {
  import opened Powers
  import opened Bits
  import opened Registers
  import opened Instructions

  datatype FlaggedResult = FlaggedResult(value: Word, flags: Nzcv)

  function SignBit(width: RegWidth): Word {
    width.Modulus() / 2
  }

  /** `left + right + carry` at `width`; subtraction passes `!right` and a carry of one. */
  function AddWithCarry(left: Word, right: Word, carryIn: bool, width: RegWidth): FlaggedResult {
    var l := Wrap(left, width);
    var r := Wrap(right, width);
    var unsigned := l + r + Flag(carryIn);
    var value := Wrap(unsigned % WORD_LIMIT, width);
    var overflow := BitAnd(BitAnd(BitXor(l, value), BitXor(r, value)), SignBit(width)) != 0;
    FlaggedResult(value, Nzcv(BitAnd(value, SignBit(width)) != 0, value == 0, unsigned / width.Modulus() != 0, overflow))
  }

  function LogicalFlags(value: Word, width: RegWidth): Nzcv {
    var masked := Wrap(value, width);
    Nzcv(BitAnd(masked, SignBit(width)) != 0, masked == 0, false, false)
  }

  predicate IsConditionMet(cond: Cond, flags: Nzcv) {
    match cond
    case Eq => flags.z
    case Ne => !flags.z
    case Cs => flags.c
    case Cc => !flags.c
    case Mi => flags.n
    case Pl => !flags.n
    case Vs => flags.v
    case Vc => !flags.v
    case Hi => flags.c && !flags.z
    case Ls => !(flags.c && !flags.z)
    case Ge => flags.n == flags.v
    case Lt => flags.n != flags.v
    case Gt => !flags.z && flags.n == flags.v
    case Le => !(!flags.z && flags.n == flags.v)
    case Al | Nv => true
  }

  // ----- what the flags mean -----

  /** The operand as a two's-complement integer at its own width. */
  function SignedAt(x: Word, width: RegWidth): int {
    Signed(x, width.Bits())
  }

  lemma WidthPowers(width: RegWidth)
    ensures Pow2(width.Bits()) == width.Modulus()
    ensures Pow2(width.Bits() - 1) == SignBit(width)
  {
    WordLimit();
    hide Pow2;
    Pow2Double(31);
    Pow2Double(63);
  }

  lemma SignedAtIs(x: Word, width: RegWidth)
    ensures SignedAt(x, width) == if x >= SignBit(width) then x - width.Modulus() else x
  {
    WidthPowers(width);
  }

  /** Masking a word in range with the sign bit reads its sign. */
  lemma SignTest(x: Word, width: RegWidth)
    requires x < width.Modulus()
    ensures BitAnd(x, SignBit(width)) != 0 <==> SignedAt(x, width) < 0
    ensures Bit(x, width.Bits() - 1) <==> SignedAt(x, width) < 0
  {
    hide Pow2, Bitwise, Bit;
    WidthPowers(width);
    AndSingleBit(x, width.Bits() - 1, WORD_BITS);
    TopBit(x, width.Bits());
  }

  /** The exclusive-or test is true exactly when both operands' signs differ from the result's. */
  lemma XorTest(l: Word, r: Word, value: Word, width: RegWidth)
    requires l < width.Modulus() && r < width.Modulus() && value < width.Modulus()
    ensures BitAnd(BitAnd(BitXor(l, value), BitXor(r, value)), SignBit(width)) != 0
         <==> ((SignedAt(l, width) < 0) != (SignedAt(value, width) < 0)
               && (SignedAt(r, width) < 0) != (SignedAt(value, width) < 0))
  {
    hide Pow2, Bitwise, Bit, SignedAt;
    WidthPowers(width);
    var k := width.Bits() - 1;
    SignTest(l, width);
    SignTest(r, width);
    SignTest(value, width);
    BitwiseBit(XorOp, l, value, WORD_BITS, k);
    BitwiseBit(XorOp, r, value, WORD_BITS, k);
    BitwiseBit(AndOp, BitXor(l, value), BitXor(r, value), WORD_BITS, k);
    AndSingleBit(BitAnd(BitXor(l, value), BitXor(r, value)), k, WORD_BITS);
  }

  /** The residue of a sum is the sum of the residues, less the modulus when it wraps. */
  lemma ResidueOfSum(x: int, y: int, carry: nat, m: nat)
    requires m > 1 && carry <= 1
    ensures (x + y + carry) % m
         == if x % m + y % m + carry < m then x % m + y % m + carry else x % m + y % m + carry - m
  {
    var p, q := x / m, y / m;
    assert (p + q) * m == p * m + q * m;
    assert (p + q + 1) * m == p * m + q * m + m;
    if x % m + y % m + carry < m {
      DivModUnique(x + y + carry, m, p + q, x % m + y % m + carry);
    } else {
      DivModUnique(x + y + carry, m, p + q + 1, x % m + y % m + carry - m);
    }
  }

  lemma ResidueOfDifference(x: int, y: int, m: nat)
    requires m > 1
    ensures (x - y) % m == if x % m >= y % m then x % m - y % m else x % m - y % m + m
  {
    var p, q := x / m, y / m;
    assert (p - q) * m == p * m - q * m;
    assert (p - q - 1) * m == p * m - q * m - m;
    if x % m >= y % m {
      DivModUnique(x - y, m, p - q, x % m - y % m);
    } else {
      DivModUnique(x - y, m, p - q - 1, x % m - y % m + m);
    }
  }

  lemma WrapOfSum(x: int, y: int, carry: nat, width: RegWidth)
    requires carry <= 1
    ensures
      var total := Wrap(x, width) + Wrap(y, width) + carry;
      Wrap(x + y + carry, width) == if total < width.Modulus() then total else total - width.Modulus()
  {
    ResidueOfSum(x, y, carry, width.Modulus());
  }

  lemma WrapOfDifference(x: int, y: int, width: RegWidth)
    ensures
      var difference := Wrap(x, width) - Wrap(y, width);
      Wrap(x - y, width) == if difference >= 0 then difference else difference + width.Modulus()
  {
    ResidueOfDifference(x, y, width.Modulus());
  }

  lemma WrapOnce(unsigned: nat, width: RegWidth)
    requires unsigned < 2 * width.Modulus()
    ensures Wrap(unsigned % WORD_LIMIT, width)
         == if unsigned < width.Modulus() then unsigned else unsigned - width.Modulus()
    ensures unsigned / width.Modulus() != 0 <==> unsigned >= width.Modulus()
  {
  }

  /** Whether an integer is in the signed range of the width. */
  predicate SignedFits(i: int, width: RegWidth) {
    0 <= i + SignBit(width) < width.Modulus()
  }

  /**
   The flags of an addition: N is the sign of the result, C says the unsigned sum left the unsigned
   range, and V, computed by exclusive-or, says the signed sum left the signed range.
   */
  lemma AdditionFlags(left: Word, right: Word, carryIn: bool, width: RegWidth)
    ensures
      var l, r := Wrap(left, width), Wrap(right, width);
      var result := AddWithCarry(left, right, carryIn, width);
      && result.value == Wrap(left + right + Flag(carryIn), width)
      && (result.flags.n <==> SignedAt(result.value, width) < 0)
      && (result.flags.z <==> result.value == 0)
      && (result.flags.c <==> l + r + Flag(carryIn) >= width.Modulus())
      && (result.flags.v <==> !SignedFits(SignedAt(l, width) + SignedAt(r, width) + Flag(carryIn), width))
  {
    hide BitAnd, BitXor, SignedAt, SignedFits, SignBit, Wrap, RegWidth.Modulus;
    var l, r := Wrap(left, width), Wrap(right, width);
    WrapOfSum(left, right, Flag(carryIn), width);
    WrapOnce(l + r + Flag(carryIn), width);
    var value := AddWithCarry(left, right, carryIn, width).value;
    SignTest(value, width);
    XorTest(l, r, value, width);
    SignsAfterSum(l, r, Flag(carryIn), value, width);
  }

  /** The signed sum leaves its range exactly when both operands' signs differ from the result's. */
  lemma SignsAfterSum(l: Word, r: Word, carry: nat, value: Word, width: RegWidth)
    requires l < width.Modulus() && r < width.Modulus() && carry <= 1
    requires value == if l + r + carry < width.Modulus() then l + r + carry else l + r + carry - width.Modulus()
    ensures !SignedFits(SignedAt(l, width) + SignedAt(r, width) + carry, width)
         <==> ((SignedAt(l, width) < 0) != (SignedAt(value, width) < 0)
               && (SignedAt(r, width) < 0) != (SignedAt(value, width) < 0))
  {
    SignedAtIs(l, width);
    SignedAtIs(r, width);
    SignedAtIs(value, width);
    hide SignedAt;
  }

  /** The relation each condition names, between the operands of a compare. */
  predicate Relation(cond: Cond, a: Word, b: Word, width: RegWidth) {
    match cond
    case Eq => a == b
    case Ne => a != b
    case Cs => a >= b
    case Cc => a < b
    case Hi => a > b
    case Ls => a <= b
    case Ge => SignedAt(a, width) >= SignedAt(b, width)
    case Lt => SignedAt(a, width) < SignedAt(b, width)
    case Gt => SignedAt(a, width) > SignedAt(b, width)
    case Le => SignedAt(a, width) <= SignedAt(b, width)
    case Vs => !SignedFits(SignedAt(a, width) - SignedAt(b, width), width)
    case Vc => SignedFits(SignedAt(a, width) - SignedAt(b, width), width)
    case Mi => Wrap(a - b, width) >= SignBit(width)
    case Pl => Wrap(a - b, width) < SignBit(width)
    case Al | Nv => true
  }

  /** After `left - right` sets the flags, every condition code holds exactly when its relation does. */
  lemma SubtractOrdersOperands(left: Word, right: Word, width: RegWidth, cond: Cond)
    ensures
      var result := AddWithCarry(left, BitNot(right), true, width);
      && result.value == Wrap(left - right, width)
      && (IsConditionMet(cond, result.flags) <==> Relation(cond, Wrap(left, width), Wrap(right, width), width))
  {
    CompareFlags(left, right, width);
    hide AddWithCarry, Wrap;
    ConditionFromFlags(cond, AddWithCarry(left, BitNot(right), true, width).flags,
                       Wrap(left, width), Wrap(right, width), width);
  }

  /** What each flag says about the operands of a subtraction. */
  predicate FlagsCompare(flags: Nzcv, a: Word, b: Word, width: RegWidth) {
    && (flags.z <==> a == b)
    && (flags.c <==> a >= b)
    && (flags.n <==> Wrap(a - b, width) >= SignBit(width))
    && (flags.v <==> !SignedFits(SignedAt(a, width) - SignedAt(b, width), width))
    && (flags.n != flags.v <==> SignedAt(a, width) < SignedAt(b, width))
    && (SignedAt(a, width) == SignedAt(b, width) <==> a == b)
  }

  lemma ConditionFromFlags(cond: Cond, flags: Nzcv, a: Word, b: Word, width: RegWidth)
    requires FlagsCompare(flags, a, b, width)
    ensures IsConditionMet(cond, flags) <==> Relation(cond, a, b, width)
  {
    hide SignedAt, SignedFits, Wrap;
  }

  lemma CompareFlags(left: Word, right: Word, width: RegWidth)
    ensures
      var result := AddWithCarry(left, BitNot(right), true, width);
      && result.value == Wrap(left - right, width)
      && FlagsCompare(result.flags, Wrap(left, width), Wrap(right, width), width)
  {
    hide AddWithCarry, SignedAt, SignedFits, SignBit, Wrap, RegWidth.Modulus;
    var a, b := Wrap(left, width), Wrap(right, width);
    ComplementSubtracts(left, right, width);
    AdditionFlags(left, BitNot(right), true, width);
    ComplementSigned(b, width);
    OrderFromSigns(a, b, Wrap(a as int - b as int, width), width);
  }

  /** Adding the complement and one subtracts, borrowing exactly when the subtrahend is larger. */
  lemma ComplementSubtracts(left: Word, right: Word, width: RegWidth)
    ensures
      var a, b := Wrap(left, width), Wrap(right, width);
      && Wrap(BitNot(right), width) == width.Modulus() - 1 - b
      && Wrap(left + BitNot(right) + 1, width) == Wrap(left - right, width)
      && Wrap(left - right, width) == Wrap(a - b, width)
      && Wrap(a - b, width) == (if a >= b then a - b else a - b + width.Modulus())
  {
    WrapAllOnes(width);
    hide Wrap, RegWidth.Modulus;
    WrapOfDifference(WORD_LIMIT - 1, right, width);
    WrapOfSum(left, BitNot(right), 1, width);
    WrapOfDifference(left, right, width);
    WrapOfDifference(Wrap(left, width), Wrap(right, width), width);
    WrapWord(Wrap(left, width), width);
    WrapWord(Wrap(right, width), width);
  }

  lemma WrapAllOnes(width: RegWidth)
    ensures Wrap(WORD_LIMIT - 1, width) == width.Modulus() - 1
  {
  }

  /** Complementing a word negates it less one. */
  lemma ComplementSigned(b: Word, width: RegWidth)
    requires b < width.Modulus()
    ensures SignedAt(width.Modulus() - 1 - b, width) == -1 - SignedAt(b, width)
  {
    SignedAtIs(b, width);
    SignedAtIs(width.Modulus() - 1 - b, width);
  }

  /** For signed operands, "less" is "negative xor overflowed". */
  lemma OrderFromSigns(a: Word, b: Word, value: Word, width: RegWidth)
    requires a < width.Modulus() && b < width.Modulus()
    requires value == if a >= b then a - b else a - b + width.Modulus()
    ensures (value == 0) <==> a == b
    ensures value >= SignBit(width) <==> SignedAt(value, width) < 0
    ensures (SignedAt(value, width) < 0) == SignedFits(SignedAt(a, width) - SignedAt(b, width), width)
         <==> SignedAt(a, width) < SignedAt(b, width)
    ensures SignedAt(a, width) == SignedAt(b, width) <==> a == b
  {
    SignedAtIs(a, width);
    SignedAtIs(b, width);
    SignedAtIs(value, width);
    hide SignedAt;
  }

  /** Inverting a condition negates it, except for the two that are always true. */
  lemma InvertNegates(cond: Cond, flags: Nzcv)
    ensures cond.Invert().Invert() == cond
    ensures IsConditionMet(cond.Invert(), flags) == (if cond.Al? || cond.Nv? then true else !IsConditionMet(cond, flags))
  {
  }
}
