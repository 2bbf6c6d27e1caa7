/**
 Bitwise operations on machine words carried as natural numbers, and two's complement.

 `Bitwise` computes a word from its operands one bit at a time; the lemmas say what every bit of
 the result is, so that nothing else has to look at the recursion.
 */
module Bits {
  import opened Powers

  /** Bit `k` of `x`, counting from the least significant. */
  predicate Bit(x: nat, k: nat) {
    if k == 0 then x % 2 == 1 else Bit(x / 2, k - 1)
  }

  datatype BitOp = AndOp | OrOp | XorOp {

    predicate Apply(p: bool, q: bool) {
      match this
      case AndOp => p && q
      case OrOp => p || q
      case XorOp => p != q
    }
  }

  function Bitwise(op: BitOp, a: nat, b: nat, width: nat): nat {
    if width == 0 then 0
    else (if op.Apply(a % 2 == 1, b % 2 == 1) then 1 else 0) + 2 * Bitwise(op, a / 2, b / 2, width - 1)
  }

  const WORD_BITS: nat := 64
  const WORD_LIMIT: nat := 0x1_0000_0000_0000_0000

  /** An unsigned 64-bit word. */
  type Word = n: nat | n < WORD_LIMIT

  function BitAnd(a: nat, b: nat): Word {
    BitwiseFits(AndOp, a, b);
    Bitwise(AndOp, a, b, WORD_BITS)
  }

  function BitOr(a: nat, b: nat): Word {
    BitwiseFits(OrOp, a, b);
    Bitwise(OrOp, a, b, WORD_BITS)
  }

  function BitXor(a: nat, b: nat): Word {
    BitwiseFits(XorOp, a, b);
    Bitwise(XorOp, a, b, WORD_BITS)
  }

  function BitNot(a: Word): Word {
    WORD_LIMIT - 1 - a
  }

  lemma Pow2Eight()
    ensures Pow2(8) == 0x100
  {
  }

  lemma WordLimit()
    ensures Pow2(32) == 0x1_0000_0000
    ensures Pow2(64) == WORD_LIMIT
  {
    Pow2Eight();
    hide Pow2;
    Pow2Add(8, 8);
    Pow2Add(16, 16);
    Pow2Add(32, 32);
  }

  lemma {:induction false} BitwiseBound(op: BitOp, a: nat, b: nat, width: nat)
    ensures Bitwise(op, a, b, width) < Pow2(width)
  {
    if width > 0 {
      BitwiseBound(op, a / 2, b / 2, width - 1);
    }
  }

  lemma BitwiseFits(op: BitOp, a: nat, b: nat)
    ensures Bitwise(op, a, b, WORD_BITS) < WORD_LIMIT
  {
    WordLimit();
    BitwiseBound(op, a, b, WORD_BITS);
  }

  /** Each bit of the result is the operation on the operands' bits at that place. */
  lemma {:induction false} BitwiseBit(op: BitOp, a: nat, b: nat, width: nat, k: nat)
    requires k < width
    ensures Bit(Bitwise(op, a, b, width), k) == op.Apply(Bit(a, k), Bit(b, k))
  {
    var rest := Bitwise(op, a / 2, b / 2, width - 1);
    var whole := Bitwise(op, a, b, width);
    assert whole / 2 == rest;
    if k > 0 {
      BitwiseBit(op, a / 2, b / 2, width - 1, k - 1);
    }
  }

  /** Two words of one width with the same bits are the same word. */
  lemma {:induction false} SameBits(a: nat, b: nat, width: nat)
    requires a < Pow2(width) && b < Pow2(width)
    requires forall k: nat :: k < width ==> Bit(a, k) == Bit(b, k)
    ensures a == b
  {
    if width > 0 {
      assert Bit(a, 0) == Bit(b, 0);
      forall k: nat | k < width - 1 ensures Bit(a / 2, k) == Bit(b / 2, k) {
        assert Bit(a, k + 1) == Bit(b, k + 1);
      }
      SameBits(a / 2, b / 2, width - 1);
    }
  }

  lemma {:induction false} ZeroHasNoBits(k: nat)
    ensures !Bit(0, k)
  {
    if k > 0 {
      ZeroHasNoBits(k - 1);
    }
  }

  lemma {:induction false} AndZero(x: nat, width: nat)
    ensures Bitwise(AndOp, x, 0, width) == 0
  {
    if width > 0 {
      AndZero(x / 2, width - 1);
    }
  }

  /** Testing a word against a one-bit mask reads that bit. */
  lemma {:induction false} AndSingleBit(x: nat, k: nat, width: nat)
    requires k < width
    ensures Bitwise(AndOp, x, Pow2(k), width) != 0 <==> Bit(x, k)
  {
    if k == 0 {
      AndZero(x / 2, width - 1);
    } else {
      Pow2Double(k - 1);
      AndSingleBit(x / 2, k - 1, width - 1);
    }
  }

  /** Bit `k` is the parity of the quotient by 2^k. */
  lemma {:induction false} BitIsQuotientParity(x: nat, k: nat)
    ensures Bit(x, k) <==> ShiftRight(x, k) % 2 == 1
  {
    if k > 0 {
      BitIsQuotientParity(x / 2, k - 1);
      HalveThenShift(x, k);
    }
  }

  lemma HalveThenShift(x: nat, k: nat)
    requires k > 0
    ensures ShiftRight(x / 2, k - 1) == ShiftRight(x, k)
  {
    hide Pow2;
    var p := Pow2(k - 1);
    var q := x / 2 / p;
    var r := x / 2 % p;
    DivBounds(x / 2, p);
    Pow2Double(k - 1);
    assert x == q * (2 * p) + (2 * r + x % 2) by {
      MulAssoc(q, 2, p);
    }
    DivModUnique(x, 2 * p, q, 2 * r + x % 2);
  }

  /** The top bit of a word of `width` bits says whether it reaches half its range. */
  lemma {:induction false} TopBit(x: nat, width: nat)
    requires width > 0 && x < Pow2(width)
    ensures Bit(x, width - 1) <==> x >= Pow2(width - 1)
  {
    if width > 1 {
      TopBit(x / 2, width - 1);
    }
  }

  /** A right shift moves every bit down. */
  lemma {:induction false} ShiftRightBit(x: nat, places: nat, k: nat)
    ensures Bit(ShiftRight(x, places), k) == Bit(x, places + k)
  {
    if places > 0 {
      HalveThenShift(x, places);
      ShiftRightBit(x / 2, places - 1, k);
    }
  }

  /** A left shift moves every bit up and brings in zeroes. */
  lemma {:induction false} ShiftLeftBit(x: nat, places: nat, k: nat)
    ensures Bit(x * Pow2(places), k) == (places <= k && Bit(x, k - places))
  {
    if places > 0 {
      MulAssoc(x, Pow2(places - 1), 2);
      assert x * Pow2(places) == 2 * (x * Pow2(places - 1));
      if k > 0 {
        ShiftLeftBit(x, places - 1, k - 1);
      }
    }
  }

  lemma NoLowBits(x: nat)
    ensures Pow2(0) == 1 && LowBits(x, 0) == 0
  {
  }

  /** Keeping the low `width` bits leaves those bits alone and clears the rest. */
  lemma {:induction false} LowBitsBit(x: nat, width: nat, k: nat)
    ensures Bit(LowBits(x, width), k) == (k < width && Bit(x, k))
  {
    hide Pow2, LowBits;
    if width == 0 {
      NoLowBits(x);
      ZeroHasNoBits(k);
    } else {
      HalveLowBits(x, width);
      if k > 0 {
        LowBitsBit(x / 2, width - 1, k - 1);
      }
    }
  }

  lemma HalveLowBits(x: nat, width: nat)
    requires width > 0
    ensures LowBits(x, width) == 2 * LowBits(x / 2, width - 1) + x % 2
  {
    hide Pow2;
    var p := Pow2(width - 1);
    var q := x / 2 / p;
    var r := x / 2 % p;
    DivBounds(x / 2, p);
    Pow2Double(width - 1);
    assert x == q * (2 * p) + (2 * r + x % 2) by {
      MulAssoc(q, 2, p);
    }
    DivModUnique(x, 2 * p, q, 2 * r + x % 2);
  }

  // ----- two's complement -----

  /** The integer a word of `width` bits stands for when its top bit counts negatively. */
  function Signed(x: nat, width: nat): int
    requires width > 0
  {
    if x >= Pow2(width - 1) then x - Pow2(width) else x
  }

  lemma SignedRange(x: nat, width: nat)
    requires width > 0 && x < Pow2(width)
    ensures 0 <= Signed(x, width) + Pow2(width - 1) < Pow2(width)
    ensures Signed(x, width) % Pow2(width) == x
  {
    Pow2Double(width - 1);
    if x >= Pow2(width - 1) {
      DivModUnique(x - Pow2(width), Pow2(width), -1, x);
    } else {
      DivModUnique(x, Pow2(width), 0, x);
    }
  }
}
