/**
 Decoded instructions (crates/core/src/decode): the opcodes and operand shapes the interpreter
 executes.  Every other opcode is `Unimplemented` and every other shape is `OtherForm`.
 */
module Instructions {
  import opened Bits
  import opened Options
  import opened Registers

  datatype RegWidth = W32 | X64 {

    function Bits(): nat {
      if W32? then 32 else 64
    }

    /** One past the largest operand: the mask plus one. */
    function Modulus(): nat {
      if W32? then 0x1_0000_0000 else WORD_LIMIT
    }
  }

  /** `x` reduced to the operand width: what masking leaves of a word or of a wrapping sum. */
  function Wrap(x: int, width: RegWidth): (r: Word)
    ensures r < width.Modulus()
  {
    x % width.Modulus()
  }

  /** Words in range are their own residues. */
  lemma WrapWord(x: Word, width: RegWidth)
    requires x < width.Modulus()
    ensures Wrap(x, width) == x
  {
  }

  datatype ShiftKind = Lsl | Lsr | Asr | Ror

  datatype ShiftedReg = ShiftedReg(reg: Gpr, kind: ShiftKind, amount: nat)

  datatype ExtendKind = Uxtb | Uxth | Uxtw | Uxtx | Sxtb | Sxth | Sxtw | Sxtx {

    function SourceBits(): nat {
      match this
      case Uxtb | Sxtb => 8
      case Uxth | Sxth => 16
      case Uxtw | Sxtw => 32
      case Uxtx | Sxtx => 64
    }

    predicate IsSigned() {
      Sxtb? || Sxth? || Sxtw? || Sxtx?
    }
  }

  datatype ExtendedReg = ExtendedReg(reg: Gpr, kind: ExtendKind, amount: nat)

  /** Condition codes, ordered as the architecture numbers them. */
  datatype Cond = Eq | Ne | Cs | Cc | Mi | Pl | Vs | Vc | Hi | Ls | Ge | Lt | Gt | Le | Al | Nv {

    function Invert(): Cond {
      match this
      case Eq => Ne
      case Ne => Eq
      case Cs => Cc
      case Cc => Cs
      case Mi => Pl
      case Pl => Mi
      case Vs => Vc
      case Vc => Vs
      case Hi => Ls
      case Ls => Hi
      case Ge => Lt
      case Lt => Ge
      case Gt => Le
      case Le => Gt
      case Al => Al
      case Nv => Nv
    }
  }

  datatype WriteBack = NoWriteBack | Pre | Post

  datatype AddrMode =
    | Immediate(base: Gpr, offset: int, writeback: WriteBack)
    | Register(base: Gpr, index: ExtendedReg, writeback: WriteBack)
    | BaseOnly(base: Gpr)
    | PcRelative(offset: int)

  datatype AccessSize = AccessSize(bytes: nat, isSigned: bool)

  datatype Op =
    | Add | Sub
    | And | Orr | Eor | Bic | Orn | Eon
    | B | Bl | Br | Blr | Ret
    | Nop
    | Ldr | Str
    | Svc | Brk
    | Unimplemented

  datatype Form =
    | RegImm(rd: Gpr, rn: Gpr, imm: Word)
    | RegShifted(rd: Gpr, rn: Gpr, rmShifted: ShiftedReg)
    | RegExtended(rd: Gpr, rn: Gpr, rmExtended: ExtendedReg)
    | Branch(offset: int)
    | BranchIndirect(rn: Gpr)
    | LoadStore(rt: Gpr, rt2: Option<Gpr>, addr: AddrMode, size: AccessSize)
    | Imm(imm: Word)
    | OtherForm

  datatype DecodedWord = DecodedWord(op: Op, form: Form, width: RegWidth, setsFlags: bool, encoding: nat) {

    /**
     What the decoder guarantees of its output: shift amounts are below the operand width, extension
     shifts are at most 4 and a single-register transfer moves 1, 2, 4 or 8 bytes.
     */
    predicate WellFormed() {
      match form
      case RegShifted(_, _, rm) => rm.amount < width.Bits()
      case RegExtended(_, _, rm) => rm.amount <= 4
      case LoadStore(_, _, addr, size) =>
        size.bytes in {1, 2, 4, 8} && (addr.Register? ==> addr.index.amount <= 4)
      case _ => true
    }
  }

  const NOP := DecodedWord(Nop, OtherForm, X64, false, 0xd503_201f)

  type Instruction = i: DecodedWord | i.WellFormed() witness NOP

  const INSN_BYTES: Word := 4

  /** A decoder: a total function from instruction words. */
  type Decoder = nat -> Instruction
}
