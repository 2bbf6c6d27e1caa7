/**
 Operand values: shifted registers, extended registers and effective addresses
 (crates/core/src/interp/fetch.rs).
 */
module Operands {
  import opened Options
  import opened Powers
  import opened Bits
  import opened Registers
  import opened Instructions

  function ReadGpr(regs: RegFile, reg: Gpr, width: RegWidth): Word {
    Wrap(ReadX(regs, reg), width)
  }

  /** An integer reduced to 64 bits: a wrapping sum or a cast from a signed word. */
  function ToWord(x: int): Word {
    x % WORD_LIMIT
  }

  /** `value << amount` on 64 bits. */
  function ShiftLeft(value: Word, amount: nat): Word {
    ToWord(value * Pow2(amount))
  }

  /** `value >> amount` on signed 64 bits. */
  function ArithmeticShiftRight(value: Word, amount: nat): Word {
    ToWord(FloorDivide(Signed(value, WORD_BITS), Pow2(amount)))
  }

  function FloorDivide(x: int, d: nat): int
    requires d > 0
  {
    x / d
  }

  /** Replicates bit `bits - 1` through the upper bits by shifting it to the top and back. */
  function SignExtendTo64(value: Word, bits: nat): Word {
    if bits >= WORD_BITS then value
    else ArithmeticShiftRight(ShiftLeft(value, WORD_BITS - bits), WORD_BITS - bits)
  }

  function MaskTo(value: Word, bits: nat): Word {
    if bits >= WORD_BITS then value else BitAnd(value, Pow2(bits) - 1)
  }

  function RotateRight(value: Word, amount: nat): Word
    requires amount < WORD_BITS
  {
    if amount == 0 then value else BitOr(ShiftRight(value, amount), ShiftLeft(value, WORD_BITS - amount))
  }

  /** What a 64-bit rotation leaves above bit 31 and a 32-bit one needs below it. */
  function RotateCarry(value: Word, amount: nat, bits: nat): Word
    requires amount < bits
  {
    if bits >= WORD_BITS || amount == 0 then 0 else ShiftLeft(value, bits - amount % bits)
  }

  function ReadShifted(regs: RegFile, operand: ShiftedReg, width: RegWidth): Word
    requires operand.amount < width.Bits()
  {
    var value := ReadGpr(regs, operand.reg, width);
    var shifted: nat :=
      match operand.kind
      case Lsl => ShiftLeft(value, operand.amount)
      case Lsr => ShiftRight(value, operand.amount)
      case Asr => ArithmeticShiftRight(SignExtendTo64(value, width.Bits()), operand.amount)
      case Ror => BitOr(RotateRight(value, operand.amount), RotateCarry(value, operand.amount, width.Bits()));
    Wrap(shifted, width)
  }

  function ReadExtended(regs: RegFile, operand: ExtendedReg): Word {
    var raw := ReadX(regs, operand.reg);
    var bits := operand.kind.SourceBits();
    var extended := if operand.kind.IsSigned() then SignExtendTo64(raw, bits) else MaskTo(raw, bits);
    ShiftLeft(extended, operand.amount)
  }

  datatype BaseUpdate = BaseUpdate(base: Gpr, value: Word)

  datatype EffectiveAddress = EffectiveAddress(address: Word, writeback: Option<BaseUpdate>)

  /** The updated base is part of the result; applying it is left to whoever performs the access. */
  function IndexedAddress(regs: RegFile, base: Gpr, offset: int, writeback: WriteBack): EffectiveAddress {
    var baseValue := ReadX(regs, base);
    var updated := ToWord(baseValue + offset);
    EffectiveAddress(if writeback.Post? then baseValue else updated,
                     if writeback.NoWriteBack? then None else Some(BaseUpdate(base, updated)))
  }

  function AddressOf(regs: RegFile, addr: AddrMode, pc: Word): EffectiveAddress {
    match addr
    case Immediate(base, offset, writeback) => IndexedAddress(regs, base, offset, writeback)
    case Register(base, index, writeback) =>
      IndexedAddress(regs, base, Signed(ReadExtended(regs, index), WORD_BITS), writeback)
    case BaseOnly(base) => IndexedAddress(regs, base, 0, NoWriteBack)
    case PcRelative(offset) => EffectiveAddress(ToWord(pc + offset), None)
  }

  // ----- what the operands are -----

  lemma {:induction false} HighBitsClear(x: nat, width: nat, k: nat)
    requires x < Pow2(width) && width <= k
    ensures !Bit(x, k)
  {
    if k == 0 {
    } else if width == 0 {
      ZeroHasNoBits(k);
    } else {
      HighBitsClear(x / 2, width - 1, k - 1);
    }
  }

  /** A product's residue needs only the residues of its factors. */
  lemma ResidueOfProduct(x: int, p: nat, m: nat)
    requires m > 0
    ensures (x % m) * p % m == x * p % m
  {
    var q, r := x / m, x % m;
    var s, t := r * p / m, r * p % m;
    assert x * p == (q * p + s) * m + t by {
      assert x == q * m + r;
      assert (q * m + r) * p == q * m * p + r * p;
      assert q * m * p == q * p * m;
      assert (q * p + s) * m == q * p * m + s * m;
      DivBounds(r * p, m);
    }
    DivModUnique(x * p, m, q * p + s, t);
  }

  /** Shifting left by `s` keeps the low `bits` bits, where `bits + s` fills the word. */
  lemma ShiftLeftKeepsLow(value: Word, bits: nat)
    requires 0 < bits < WORD_BITS
    ensures ShiftLeft(value, WORD_BITS - bits) == LowBits(value, bits) * Pow2(WORD_BITS - bits)
  {
    hide Pow2;
    WordLimit();
    Pow2Add(bits, WORD_BITS - bits);
    ResidueOfScaled(value, Pow2(bits), Pow2(WORD_BITS - bits));
  }

  /** The extended word stands for the signed value of the low bits. */
  lemma SignExtensionMeaning(value: Word, bits: nat)
    requires 0 < bits <= WORD_BITS
    ensures SignExtendTo64(value, bits) == ToWord(Signed(LowBits(value, bits), bits))
  {
    hide Pow2;
    WordLimit();
    if bits == WORD_BITS {
      DivModUnique(value, WORD_LIMIT, 0, value);
      SignedRange(value, bits);
    } else {
      var s := WORD_BITS - bits;
      var low := LowBits(value, bits);
      ShiftSplit(value, bits);
      ShiftLeftKeepsLow(value, bits);
      SignedOfShifted(low, bits);
      var i := Signed(low, bits);
      DivModUnique(i * Pow2(s), Pow2(s), i, 0);
    }
  }

  lemma SignedOfShifted(low: nat, bits: nat)
    requires 0 < bits < WORD_BITS && low < Pow2(bits)
    ensures Signed(low * Pow2(WORD_BITS - bits), WORD_BITS) == Signed(low, bits) * Pow2(WORD_BITS - bits)
  {
    hide Pow2;
    var s := Pow2(WORD_BITS - bits);
    Pow2Add(bits - 1, WORD_BITS - bits);
    Pow2Add(bits, WORD_BITS - bits);
    var half := Pow2(bits - 1);
    if low >= half {
      MulMonotone(half, low, s);
      assert (low - Pow2(bits)) * s == low * s - Pow2(bits) * s;
    } else {
      MulMonotone(low + 1, half, s);
      assert (low + 1) * s == low * s + s;
    }
  }

  lemma AndOdd(x: nat, m: nat, width: nat)
    requires width > 0
    ensures Bitwise(AndOp, x, 2 * m + 1, width) == 2 * Bitwise(AndOp, x / 2, m, width - 1) + x % 2
  {
    assert (2 * m + 1) / 2 == m && (2 * m + 1) % 2 == 1;
  }

  /** Masking with 2^k - 1 keeps the low `k` bits. */
  lemma {:induction false} AndMask(x: nat, k: nat, width: nat)
    requires k <= width
    ensures Bitwise(AndOp, x, Pow2(k) - 1, width) == LowBits(x, k)
  {
    hide Pow2, LowBits, Bitwise;
    if k == 0 {
      NoLowBits(x);
      AndZero(x, width);
    } else {
      AndMask(x / 2, k - 1, width - 1);
      Pow2Double(k - 1);
      AndOdd(x, Pow2(k - 1) - 1, width);
      HalveLowBits(x, k);
    }
  }

  lemma MaskToMeaning(value: Word, bits: nat)
    requires 0 < bits <= WORD_BITS
    ensures MaskTo(value, bits) == LowBits(value, bits)
  {
    if bits == WORD_BITS {
      WordLimit();
      hide Pow2;
      DivModUnique(value, WORD_LIMIT, 0, value);
    } else {
      AndMask(value, bits, WORD_BITS);
    }
  }

  /** The integer an extended operand names before scaling. */
  function ExtendedValue(raw: Word, kind: ExtendKind): int {
    var low := LowBits(raw, kind.SourceBits());
    if kind.IsSigned() then Signed(low, kind.SourceBits()) else low
  }

  /** An extended operand is the signed or unsigned low part of its register, times 2^amount, wrapped. */
  lemma ExtendedMeaning(regs: RegFile, operand: ExtendedReg)
    ensures ReadExtended(regs, operand)
         == ToWord(ExtendedValue(ReadX(regs, operand.reg), operand.kind) * Pow2(operand.amount))
  {
    hide Pow2, BitAnd, SignExtendTo64, MaskTo, Signed, LowBits;
    var raw := ReadX(regs, operand.reg);
    var bits := operand.kind.SourceBits();
    SignExtensionMeaning(raw, bits);
    MaskToMeaning(raw, bits);
    var value := ExtendedValue(raw, operand.kind);
    if !operand.kind.IsSigned() {
      LowBitsFit(raw, bits);
    }
    ResidueOfProduct(value, Pow2(operand.amount), WORD_LIMIT);
  }

  lemma LowBitsFit(raw: Word, bits: nat)
    ensures ToWord(LowBits(raw, bits)) == LowBits(raw, bits) <= raw
  {
    hide Pow2, LowBits;
    ShiftSplit(raw, bits);
    MulMonotone(0, ShiftRight(raw, bits), Pow2(bits));
    hide ShiftRight;
  }

  /** Each shift kind: multiply and wrap, divide, divide the signed value, or move every bit around. */
  lemma ShiftedMeaning(regs: RegFile, operand: ShiftedReg, width: RegWidth)
    requires operand.amount < width.Bits()
    ensures
      var v := ReadGpr(regs, operand.reg, width);
      var r := ReadShifted(regs, operand, width);
      match operand.kind
      case Lsl => r == Wrap(v * Pow2(operand.amount), width)
      case Lsr => r == ShiftRight(v, operand.amount)
      case Asr => r == Wrap(FloorDivide(Signed(v, width.Bits()), Pow2(operand.amount)), width)
      case Ror => forall k: nat :: k < width.Bits() ==> Bit(r, k) == Bit(v, (k + operand.amount) % width.Bits())
  {
    hide Pow2, BitOr, Signed, ShiftRight, ArithmeticShiftRight, SignExtendTo64, ShiftLeft, RotateRight, RotateCarry, Bit;
    var v := ReadGpr(regs, operand.reg, width);
    match operand.kind {
      case Lsl => ShiftLeftWraps(v, operand.amount, width);
      case Lsr => ShiftRightFits(v, operand.amount, width);
      case Asr => ArithmeticShiftMeaning(v, operand.amount, width);
      case Ror =>
        forall k: nat | k < width.Bits()
          ensures Bit(ReadShifted(regs, operand, width), k) == Bit(v, (k + operand.amount) % width.Bits())
        {
          RotateBit(v, operand.amount, width, k);
        }
    }
  }

  /** `value` is `v` shifted at the operand width: for a rotation, the word with every bit moved around. */
  ghost predicate IsShifted(value: Word, v: Word, kind: ShiftKind, amount: nat, width: RegWidth)
    requires amount < width.Bits()
  {
    && value < width.Modulus()
    && match kind
       case Lsl => value == v * Pow2(amount) % width.Modulus()
       case Lsr => value == v / Pow2(amount)
       case Asr => value == FloorDivide(Signed(v, width.Bits()), Pow2(amount)) % width.Modulus()
       case Ror => forall k: nat :: k < width.Bits() ==> Bit(value, k) == Bit(v, (k + amount) % width.Bits())
  }

  lemma ReadShiftedIsShifted(regs: RegFile, operand: ShiftedReg, width: RegWidth)
    requires operand.amount < width.Bits()
    ensures IsShifted(ReadShifted(regs, operand, width), ReadX(regs, operand.reg) % width.Modulus(), operand.kind,
                      operand.amount, width)
  {
    hide Pow2, Bit, Signed, ReadX, FloorDivide;
    ShiftedMeaning(regs, operand, width);
    hide RegWidth.Bits, ReadShifted;
  }

  /** The definition leaves no choice, rotations included. */
  lemma ShiftedIsUnique(a: Word, b: Word, v: Word, kind: ShiftKind, amount: nat, width: RegWidth)
    requires amount < width.Bits()
    requires IsShifted(a, v, kind, amount, width) && IsShifted(b, v, kind, amount, width)
    ensures a == b
  {
    if kind.Ror? {
      WordLimit();
      hide Pow2, Bit;
      SameBits(a, b, width.Bits());
    }
  }

  // ----- where an access goes -----

  /** The address and the moved base of an access, mode by mode, in the integers modulo 2^64. */
  function Addressed(regs: RegFile, addr: AddrMode, pc: Word): EffectiveAddress {
    match addr
    case Immediate(base, offset, writeback) => FromBase(base, ReadX(regs, base), offset, writeback)
    case Register(base, index, writeback) =>
      FromBase(base, ReadX(regs, base), ExtendedValue(ReadX(regs, index.reg), index.kind) * Pow2(index.amount), writeback)
    case BaseOnly(base) => EffectiveAddress(ReadX(regs, base), None)
    case PcRelative(offset) => EffectiveAddress((pc + offset) % WORD_LIMIT, None)
  }

  /** Post-indexing uses the old base, the other modes the moved one; only indexed modes keep the move. */
  function FromBase(base: Gpr, start: Word, distance: int, writeback: WriteBack): EffectiveAddress {
    var moved := (start + distance) % WORD_LIMIT;
    match writeback
    case NoWriteBack => EffectiveAddress(moved, None)
    case Pre => EffectiveAddress(moved, Some(BaseUpdate(base, moved)))
    case Post => EffectiveAddress(start, Some(BaseUpdate(base, moved)))
  }

  lemma AddResidue(b: int, y: int)
    ensures (b + ToWord(y)) % WORD_LIMIT == (b + y) % WORD_LIMIT
    ensures (b + ToWord(y) - WORD_LIMIT) % WORD_LIMIT == (b + y) % WORD_LIMIT
  {
  }

  /** Adding the signed reading of a wrapped distance is adding the distance. */
  lemma AddSignedResidue(b: Word, y: int)
    ensures ToWord(b + Signed(ToWord(y), WORD_BITS)) == (b + y) % WORD_LIMIT
  {
    WordLimit();
    hide Pow2;
    AddResidue(b, y);
  }

  /**
   Every addressing mode: base plus signed offset, base plus scaled extended index, the base, PC plus
   offset, each modulo 2^64; and the base moves exactly for the pre- and post-indexed forms, to the
   same sum whether or not the access used it.
   */
  lemma AddressMeaning(regs: RegFile, addr: AddrMode, pc: Word)
    ensures AddressOf(regs, addr, pc) == Addressed(regs, addr, pc)
    ensures
      var computed := AddressOf(regs, addr, pc);
      match addr
      case Immediate(base, offset, writeback) =>
        && computed.address == (if writeback.Post? then ReadX(regs, base) else (ReadX(regs, base) + offset) % WORD_LIMIT)
        && (computed.writeback.None? <==> writeback.NoWriteBack?)
        && (computed.writeback.Some? ==>
              computed.writeback.value == BaseUpdate(base, (ReadX(regs, base) + offset) % WORD_LIMIT))
      case Register(base, index, writeback) =>
        var moved := (ReadX(regs, base)
                      + ExtendedValue(ReadX(regs, index.reg), index.kind) * Pow2(index.amount)) % WORD_LIMIT;
        && computed.address == (if writeback.Post? then ReadX(regs, base) else moved)
        && (computed.writeback.None? <==> writeback.NoWriteBack?)
        && (computed.writeback.Some? ==> computed.writeback.value == BaseUpdate(base, moved))
      case BaseOnly(base) => computed == EffectiveAddress(ReadX(regs, base), None)
      case PcRelative(offset) => computed == EffectiveAddress((pc + offset) % WORD_LIMIT, None)
  {
    hide Pow2, Signed, ReadX, ReadExtended, ExtendedValue;
    if addr.Register? {
      ExtendedMeaning(regs, addr.index);
      AddSignedResidue(ReadX(regs, addr.base),
                       ExtendedValue(ReadX(regs, addr.index.reg), addr.index.kind) * Pow2(addr.index.amount));
    }
  }

  lemma WrapOfWord(x: int, width: RegWidth)
    ensures Wrap(ToWord(x), width) == Wrap(x, width)
  {
    if width.W32? {
      assert x % WORD_LIMIT % 0x1_0000_0000 == x % 0x1_0000_0000;
    }
  }

  lemma ShiftLeftWraps(v: Word, amount: nat, width: RegWidth)
    ensures Wrap(ShiftLeft(v, amount), width) == Wrap(v * Pow2(amount), width)
  {
    hide Pow2;
    WrapOfWord(v * Pow2(amount), width);
  }

  lemma ShiftRightFits(v: Word, amount: nat, width: RegWidth)
    requires v < width.Modulus()
    ensures Wrap(ShiftRight(v, amount), width) == ShiftRight(v, amount)
  {
    hide Pow2, Wrap, DivideNat;
    QuotientAtMost(v, Pow2(amount));
    WrapWord(ShiftRight(v, amount), width);
  }

  lemma QuotientAtMost(n: nat, d: nat)
    requires d > 0
    ensures DivideNat(n, d) <= n
  {
    MulMonotone(1, d, n + 1);
    DivLess(n, d, n + 1);
  }

  lemma ArithmeticShiftMeaning(v: Word, amount: nat, width: RegWidth)
    requires v < width.Modulus()
    ensures Wrap(ArithmeticShiftRight(SignExtendTo64(v, width.Bits()), amount), width)
         == Wrap(FloorDivide(Signed(v, width.Bits()), Pow2(amount)), width)
  {
    WordLimit();
    hide Pow2, SignExtendTo64, FloorDivide, Signed;
    SignExtensionMeaning(v, width.Bits());
    DivModUnique(v, Pow2(width.Bits()), 0, v);
    SignedOfWord(v, width);
    WrapOfWord(FloorDivide(Signed(v, width.Bits()), Pow2(amount)), width);
  }

  lemma SignedOfWord(v: Word, width: RegWidth)
    requires v < width.Modulus()
    ensures Signed(ToWord(Signed(v, width.Bits())), WORD_BITS) == Signed(v, width.Bits())
  {
    WordLimit();
    hide Pow2;
    Pow2Double(31);
    Pow2Double(63);
  }

  lemma WrapIndex(i: nat, bits: nat)
    requires 0 < bits && i < 2 * bits
    ensures i % bits == if i < bits then i else i - bits
  {
    DivModUnique(i, bits, if i < bits then 0 else 1, if i < bits then i else i - bits);
  }

  /** Rotating right by `amount` moves bit `k + amount`, modulo the width, to bit `k`. */
  lemma RotateBit(v: Word, amount: nat, width: RegWidth, k: nat)
    requires v < width.Modulus() && amount < width.Bits() && k < width.Bits()
    ensures Bit(Wrap(BitOr(RotateRight(v, amount), RotateCarry(v, amount, width.Bits())), width), k)
         == Bit(v, (k + amount) % width.Bits())
  {
    hide Pow2, Bit, Bitwise, ShiftLeft, ShiftRight, RotateRight, RotateCarry, Wrap;
    var rotated, carry := RotateRight(v, amount), RotateCarry(v, amount, width.Bits());
    WrapBit(BitOr(rotated, carry), width, k);
    BitwiseBit(OrOp, rotated, carry, WORD_BITS, k);
    RotateRightBit(v, amount, k);
    RotateCarryBit(v, amount, width.Bits(), k);
    WrapIndex(k + amount, width.Bits());
    WordLimit();
    if amount > 0 && k + amount >= width.Bits() {
      HighBitsClear(v, width.Bits(), k + amount);
    }
  }

  lemma RotateRightBit(v: Word, amount: nat, k: nat)
    requires amount < WORD_BITS && k < WORD_BITS
    ensures Bit(RotateRight(v, amount), k)
         == (Bit(v, amount + k) || (amount > 0 && WORD_BITS - amount <= k && Bit(v, k - (WORD_BITS - amount))))
  {
    hide Pow2, Bit, Bitwise, ShiftLeft, ShiftRight;
    if amount > 0 {
      BitwiseBit(OrOp, ShiftRight(v, amount), ShiftLeft(v, WORD_BITS - amount), WORD_BITS, k);
      ShiftRightBit(v, amount, k);
      ShiftLeftWordBit(v, WORD_BITS - amount, k);
    }
  }

  lemma RotateCarryBit(v: Word, amount: nat, bits: nat, k: nat)
    requires amount < bits && k < WORD_BITS
    ensures Bit(RotateCarry(v, amount, bits), k)
         == (bits < WORD_BITS && amount > 0 && bits - amount <= k && Bit(v, k - (bits - amount)))
  {
    hide Pow2, Bit, ShiftLeft;
    ZeroHasNoBits(k);
    WrapIndex(amount, bits);
    if bits < WORD_BITS && amount > 0 {
      ShiftLeftWordBit(v, bits - amount, k);
    }
  }

  lemma WrapBit(x: nat, width: RegWidth, k: nat)
    requires k < width.Bits()
    ensures Bit(Wrap(x, width), k) == Bit(x, k)
  {
    WordLimit();
    hide Pow2, Bit;
    LowBitsBit(x, width.Bits(), k);
  }

  lemma ShiftLeftWordBit(v: Word, amount: nat, k: nat)
    requires k < WORD_BITS
    ensures Bit(ShiftLeft(v, amount), k) == (amount <= k && Bit(v, k - amount))
  {
    WordLimit();
    hide Pow2, Bit;
    LowBitsBit(v * Pow2(amount), WORD_BITS, k);
    ShiftLeftBit(v, amount, k);
  }
}
