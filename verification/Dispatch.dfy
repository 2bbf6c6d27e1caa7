/**
 What one decoded instruction does to the machine (crates/core/src/interp/dispatch.rs), as a function
 of the registers and memory it starts from.
 */
module Dispatch {
  import opened Options
  import opened Powers
  import opened Bits
  import opened Registers
  import opened Instructions
  import opened Flags
  import opened Operands
  import opened Memory

  const LINK := X(30)

  datatype Machine = Machine(regs: RegFile, memory: Image)

  /** How PC moves after an instruction that did not trap. */
  datatype Flow = Next | Branched

  datatype Executed = Ran(flow: Flow, machine: Machine) | Raised(trap: Trap)

  function Undefined(pc: Word, insn: Instruction): Trap {
    UndefinedInstruction(pc, insn.encoding)
  }

  function WriteResult(regs: RegFile, rd: Gpr, value: Word, width: RegWidth): RegFile {
    WriteX(regs, rd, Wrap(value, width))
  }

  function WithFlags(regs: RegFile, setsFlags: bool, flags: Nzcv): (r: RegFile)
    ensures forall reg: Gpr :: ReadX(r, reg) == ReadX(regs, reg)
  {
    if setsFlags then regs.(pstate := regs.pstate.(nzcv := flags)) else regs
  }

  function WithPc(regs: RegFile, pc: Word): (r: RegFile)
    ensures forall reg: Gpr :: ReadX(r, reg) == ReadX(regs, reg)
  {
    regs.(pc := pc)
  }

  function NextPc(pc: Word): Word {
    ToWord(pc + INSN_BYTES)
  }

  /** The second source of an add or subtract, for the shapes that have one. */
  function ArithmeticOperand(regs: RegFile, insn: Instruction): Option<Word> {
    match insn.form
    case RegImm(_, _, imm) => Some(imm)
    case RegShifted(_, _, rm) => Some(ReadShifted(regs, rm, insn.width))
    case RegExtended(_, _, rm) => Some(ReadExtended(regs, rm))
    case _ => None
  }

  function ArithmeticResult(regs: RegFile, insn: Instruction, operand: Word): FlaggedResult
    requires insn.form.RegImm? || insn.form.RegShifted? || insn.form.RegExtended?
  {
    var isSub := insn.op == Sub;
    AddWithCarry(ReadGpr(regs, insn.form.rn, insn.width), if isSub then BitNot(operand) else operand, isSub, insn.width)
  }

  function Arithmetic(m: Machine, insn: Instruction): Executed {
    match ArithmeticOperand(m.regs, insn)
    case None => Raised(Undefined(m.regs.pc, insn))
    case Some(operand) =>
      var result := ArithmeticResult(m.regs, insn, operand);
      var written := WriteResult(m.regs, insn.form.rd, result.value, insn.width);
      Ran(Next, m.(regs := WithFlags(written, insn.setsFlags, result.flags)))
  }

  function LogicalOperand(regs: RegFile, insn: Instruction): Option<Word> {
    match insn.form
    case RegImm(_, _, imm) => Some(imm)
    case RegShifted(_, _, rm) => Some(ReadShifted(regs, rm, insn.width))
    case _ => None
  }

  function LogicalValue(op: Op, left: Word, operand: Word): Word {
    match op
    case And => BitAnd(left, operand)
    case Bic => BitAnd(left, BitNot(operand))
    case Orr => BitOr(left, operand)
    case Orn => BitOr(left, BitNot(operand))
    case Eor => BitXor(left, operand)
    case _ => BitXor(left, BitNot(operand))
  }

  function Logical(m: Machine, insn: Instruction): Executed {
    match LogicalOperand(m.regs, insn)
    case None => Raised(Undefined(m.regs.pc, insn))
    case Some(operand) =>
      var value := LogicalValue(insn.op, ReadGpr(m.regs, insn.form.rn, insn.width), operand);
      var written := WriteResult(m.regs, insn.form.rd, value, insn.width);
      Ran(Next, m.(regs := WithFlags(written, insn.setsFlags, LogicalFlags(value, insn.width))))
  }

  function BranchImmediate(m: Machine, insn: Instruction, pc: Word): Executed {
    match insn.form
    case Branch(offset) =>
      var linked := if insn.op == Bl then WriteX(m.regs, LINK, NextPc(pc)) else m.regs;
      Ran(Branched, m.(regs := WithPc(linked, ToWord(pc + offset))))
    case _ => Raised(Undefined(pc, insn))
  }

  /** The target is read before the link register is written. */
  function BranchRegister(m: Machine, insn: Instruction, pc: Word): Executed {
    match insn.form
    case BranchIndirect(rn) =>
      var target := ReadX(m.regs, rn);
      var linked := if insn.op == Blr then WriteX(m.regs, LINK, NextPc(pc)) else m.regs;
      Ran(Branched, m.(regs := WithPc(linked, target)))
    case _ => Raised(Undefined(pc, insn))
  }

  /** One register stored to, or loaded from, `address`. */
  function Transfer(m: Machine, rt: Gpr, address: Word, isWrite: bool, width: RegWidth, size: AccessSize): Access<Machine>
    requires size.bytes in {1, 2, 4, 8}
  {
    if isWrite then
      match WriteUint(m.memory, address, size.bytes, ReadGpr(m.regs, rt, width))
      case Fault(a, w) => Fault(a, w)
      case Done(memory) => Done(m.(memory := memory))
    else
      match ReadUint(m.memory, address, size.bytes)
      case Fault(a, w) => Fault(a, w)
      case Done(raw) =>
        var value := if size.isSigned then SignExtendTo64(raw, size.bytes * 8) else raw;
        Done(m.(regs := WriteResult(m.regs, rt, value, width)))
  }

  function ApplyWriteBack(regs: RegFile, writeback: Option<BaseUpdate>): RegFile {
    match writeback
    case None => regs
    case Some(update) => WriteX(regs, update.base, update.value)
  }

  /** Write-back follows a completed access: a fault leaves the base register alone. */
  function Move(m: Machine, insn: Instruction, pc: Word): Executed {
    match insn.form
    case LoadStore(rt, None, addr, size) =>
      var computed := AddressOf(m.regs, addr, pc);
      var isWrite := insn.op == Str;
      (match Transfer(m, rt, computed.address, isWrite, insn.width, size)
       case Fault(_, _) => Raised(DataAbort(pc, computed.address, isWrite))
       case Done(moved) => Ran(Next, moved.(regs := ApplyWriteBack(moved.regs, computed.writeback))))
    case _ => Raised(Undefined(pc, insn))
  }

  function SupervisorCallTrap(insn: Instruction, pc: Word): Trap {
    if insn.form.Imm? then SupervisorCall(pc, insn.form.imm % 0x1_0000) else Undefined(pc, insn)
  }

  function BreakpointTrap(insn: Instruction, pc: Word): Trap {
    if insn.form.Imm? then Breakpoint(pc, insn.form.imm % 0x1_0000) else Undefined(pc, insn)
  }

  /** One instruction, at its own address `pc`. */
  function Execute(m: Machine, insn: Instruction, pc: Word): Executed {
    match insn.op
    case Add | Sub => Arithmetic(m, insn)
    case And | Orr | Eor | Bic | Orn | Eon => Logical(m, insn)
    case B | Bl => BranchImmediate(m, insn, pc)
    case Br | Blr | Ret => BranchRegister(m, insn, pc)
    case Nop => Ran(Next, m)
    case Ldr | Str => Move(m, insn, pc)
    case Svc => Raised(SupervisorCallTrap(insn, pc))
    case Brk => Raised(BreakpointTrap(insn, pc))
    case Unimplemented => Raised(Undefined(pc, insn))
  }

  // ----- what instructions mean -----

  /** Everything but general-purpose register `rd` and the condition flags is as it was. */
  ghost predicate OnlyWrites(before: Machine, after: Machine, rd: Gpr) {
    && after.memory == before.memory
    && (forall reg: Gpr :: reg != rd ==> ReadX(after.regs, reg) == ReadX(before.regs, reg))
    && after.regs.pc == before.regs.pc && after.regs.v == before.regs.v
    && after.regs.fpcr == before.regs.fpcr && after.regs.fpsr == before.regs.fpsr
    && after.regs.pstate == before.regs.pstate.(nzcv := after.regs.pstate.nzcv)
  }

  predicate Holds(regs: RegFile, rd: Gpr, value: Word) {
    ReadX(regs, rd) == if rd.ZR? then 0 else value
  }

  predicate HasOperand(form: Form) {
    form.RegImm? || form.RegShifted? || form.RegExtended?
  }

  /** What the second source supplies at the operand width: the immediate, or a register shifted or extended. */
  ghost predicate Supplies(regs: RegFile, insn: Instruction, value: Word) {
    match insn.form
    case RegImm(_, _, imm) => value == imm % insn.width.Modulus()
    case RegShifted(_, _, rm) =>
      IsShifted(value, ReadX(regs, rm.reg) % insn.width.Modulus(), rm.kind, rm.amount, insn.width)
    case RegExtended(_, _, rm) =>
      value == ExtendedValue(ReadX(regs, rm.reg), rm.kind) * Pow2(rm.amount) % insn.width.Modulus()
    case _ => false
  }

  /** An instruction's second source is one word. */
  lemma SuppliedIsUnique(regs: RegFile, insn: Instruction, a: Word, b: Word)
    requires Supplies(regs, insn, a) && Supplies(regs, insn, b)
    ensures a == b
  {
    hide Pow2, ExtendedValue, ReadX, IsShifted;
    if insn.form.RegShifted? {
      var rm := insn.form.rmShifted;
      ShiftedIsUnique(a, b, ReadX(regs, rm.reg) % insn.width.Modulus(), rm.kind, rm.amount, insn.width);
    }
  }

  /** The operand an add or subtract fetches is, at its width, what its shape supplies. */
  lemma ArithmeticOperandMeaning(regs: RegFile, insn: Instruction)
    ensures ArithmeticOperand(regs, insn).Some? <==> HasOperand(insn.form)
    ensures HasOperand(insn.form) ==> Supplies(regs, insn, Wrap(ArithmeticOperand(regs, insn).value, insn.width))
  {
    hide Pow2, ExtendedValue, ReadX, ReadShifted, ReadExtended, IsShifted;
    match insn.form {
      case RegShifted(_, _, rm) =>
        ReadShiftedIsShifted(regs, rm, insn.width);
        ShiftedFits(regs, rm, insn.width);
      case RegExtended(_, _, rm) =>
        ExtendedMeaning(regs, rm);
        WrapOfWord(ExtendedValue(ReadX(regs, rm.reg), rm.kind) * Pow2(rm.amount), insn.width);
      case _ =>
    }
  }

  lemma ShiftedFits(regs: RegFile, rm: ShiftedReg, width: RegWidth)
    requires rm.amount < width.Bits()
    ensures Wrap(ReadShifted(regs, rm, width), width) == ReadShifted(regs, rm, width)
  {
    hide Pow2, Bit, ReadX, ReadShifted;
    ReadShiftedIsShifted(regs, rm, width);
    WrapWord(ReadShifted(regs, rm, width), width);
  }

  /**
   A subtract leaves the wrapped difference in its destination and, when it sets flags, leaves every
   condition code holding exactly when its relation holds between the operands.
   */
  lemma SubtractMeaning(m: Machine, insn: Instruction, pc: Word, cond: Cond) returns (right: Word)
    requires insn.op == Sub && HasOperand(insn.form)
    ensures Supplies(m.regs, insn, right)
    ensures
      var left := ReadX(m.regs, insn.form.rn) % insn.width.Modulus();
      var after := Execute(m, insn, pc);
      && after.Ran? && after.flow.Next?
      && OnlyWrites(m, after.machine, insn.form.rd)
      && Holds(after.machine.regs, insn.form.rd, Wrap(left - right, insn.width))
      && (insn.setsFlags ==>
            (IsConditionMet(cond, after.machine.regs.pstate.nzcv) <==> Relation(cond, left, right, insn.width)))
      && (!insn.setsFlags ==> after.machine.regs.pstate == m.regs.pstate)
  {
    hide AddWithCarry, ReadX, ReadShifted, ReadExtended, WriteX, Relation, IsConditionMet, BitNot, Supplies;
    ArithmeticOperandMeaning(m.regs, insn);
    var left := ReadGpr(m.regs, insn.form.rn, insn.width);
    assert left == ReadX(m.regs, insn.form.rn) % insn.width.Modulus();
    hide Wrap;
    var operand := ArithmeticOperand(m.regs, insn).value;
    right := Wrap(operand, insn.width);
    SubtractOrdersOperands(left, operand, insn.width, cond);
    WrapWord(left, insn.width);
    WrapOfDifference(left, operand, insn.width);
    WrapOfDifference(left, Wrap(operand, insn.width), insn.width);
    WrapWord(Wrap(operand, insn.width), insn.width);
    WrapWord(Wrap(left as int - operand as int, insn.width), insn.width);
  }

  /** An add leaves the wrapped sum; its flags say whether the signed and unsigned sums fitted. */
  lemma AddMeaning(m: Machine, insn: Instruction, pc: Word) returns (right: Word)
    requires insn.op == Add && HasOperand(insn.form)
    ensures Supplies(m.regs, insn, right)
    ensures
      var left := ReadX(m.regs, insn.form.rn) % insn.width.Modulus();
      var sum := Wrap(left + right, insn.width);
      var after := Execute(m, insn, pc);
      && after.Ran? && after.flow.Next?
      && OnlyWrites(m, after.machine, insn.form.rd)
      && Holds(after.machine.regs, insn.form.rd, sum)
      && (insn.setsFlags ==>
            after.machine.regs.pstate.nzcv
            == Nzcv(SignedAt(sum, insn.width) < 0, sum == 0, left + right >= insn.width.Modulus(),
                    !SignedFits(SignedAt(left, insn.width) + SignedAt(right, insn.width), insn.width)))
      && (!insn.setsFlags ==> after.machine.regs.pstate == m.regs.pstate)
  {
    hide AddWithCarry, ReadX, ReadShifted, ReadExtended, WriteX, SignedAt, SignedFits, Supplies;
    ArithmeticOperandMeaning(m.regs, insn);
    var left := ReadGpr(m.regs, insn.form.rn, insn.width);
    assert left == ReadX(m.regs, insn.form.rn) % insn.width.Modulus();
    hide Wrap;
    var operand := ArithmeticOperand(m.regs, insn).value;
    right := Wrap(operand, insn.width);
    AdditionFlags(left, operand, false, insn.width);
    WrapWord(left, insn.width);
    WrapOfSum(left, operand, 0, insn.width);
    WrapOfSum(left, Wrap(operand, insn.width), 0, insn.width);
    WrapWord(Wrap(operand, insn.width), insn.width);
    WrapWord(Wrap(left as int + operand as int, insn.width), insn.width);
  }

  predicate LogicalBit(op: Op, p: bool, q: bool) {
    match op
    case And => p && q
    case Bic => p && !q
    case Orr => p || q
    case Orn => p || !q
    case Eor => p != q
    case _ => p == q
  }

  predicate IsLogical(op: Op) {
    op == And || op == Orr || op == Eor || op == Bic || op == Orn || op == Eon
  }

  lemma {:induction false} ComplementBit(x: nat, width: nat, k: nat)
    requires x < Pow2(width) && k < width
    ensures Bit(Pow2(width) - 1 - x, k) == !Bit(x, k)
  {
    Pow2Double(width - 1);
    ComplementHalves(x, Pow2(width - 1));
    if k > 0 {
      ComplementBit(x / 2, width - 1, k - 1);
    }
  }

  lemma ComplementHalves(x: nat, half: nat)
    requires x < 2 * half
    ensures (2 * half - 1 - x) / 2 == half - 1 - x / 2
    ensures (2 * half - 1 - x) % 2 == 1 - x % 2
  {
  }

  /** Every bit of a logical result is the operation on the operands' bits. */
  lemma LogicalBits(op: Op, left: Word, operand: Word, k: nat)
    requires IsLogical(op) && k < WORD_BITS
    ensures Bit(LogicalValue(op, left, operand), k) == LogicalBit(op, Bit(left, k), Bit(operand, k))
  {
    WordLimit();
    hide Bit, Bitwise, Pow2;
    ComplementBit(operand, WORD_BITS, k);
    var right := if op == Bic || op == Orn || op == Eon then BitNot(operand) else operand;
    var kind := if op == And || op == Bic then AndOp else if op == Orr || op == Orn then OrOp else XorOp;
    BitwiseBit(kind, left, right, WORD_BITS, k);
  }

  /** The word whose every bit, within the width, is the logical operation on the operands' bits. */
  ghost predicate IsLogicalResult(result: Word, op: Op, left: Word, operand: Word, width: RegWidth) {
    && result < width.Modulus()
    && forall k: nat :: k < width.Bits() ==> Bit(result, k) == LogicalBit(op, Bit(left, k), Bit(operand, k))
  }

  /** A logical instruction works bit by bit; N and Z describe the result and C and V are cleared. */
  lemma LogicalMeaning(m: Machine, insn: Instruction, pc: Word) returns (right: Word, result: Word)
    requires IsLogical(insn.op) && (insn.form.RegImm? || insn.form.RegShifted?)
    ensures Supplies(m.regs, insn, right)
    ensures IsLogicalResult(result, insn.op, ReadX(m.regs, insn.form.rn), right, insn.width)
    ensures
      var after := Execute(m, insn, pc);
      && after.Ran? && after.flow.Next?
      && OnlyWrites(m, after.machine, insn.form.rd)
      && Holds(after.machine.regs, insn.form.rd, result)
      && after.machine.regs.pstate.nzcv
         == if insn.setsFlags then Nzcv(SignedAt(result, insn.width) < 0, result == 0, false, false)
            else m.regs.pstate.nzcv
  {
    hide Bit, LogicalValue, Wrap, ReadX, ReadShifted, WriteX, SignedAt, LogicalBit, Supplies;
    ArithmeticOperandMeaning(m.regs, insn);
    var left := ReadGpr(m.regs, insn.form.rn, insn.width);
    var operand := LogicalOperand(m.regs, insn).value;
    var value := LogicalValue(insn.op, left, operand);
    right, result := Wrap(operand, insn.width), Wrap(value, insn.width);
    forall k: nat | k < insn.width.Bits()
      ensures Bit(result, k) == LogicalBit(insn.op, Bit(ReadX(m.regs, insn.form.rn), k), Bit(right, k))
    {
      WrapBit(operand, insn.width, k);
      LogicalBits(insn.op, left, operand, k);
      WrapBit(ReadX(m.regs, insn.form.rn), insn.width, k);
      WrapBit(value, insn.width, k);
    }
    SignTest(result, insn.width);
  }

  /** A branch goes to its own target, read before the link is written, and changes nothing but PC and the link. */
  lemma BranchMeaning(m: Machine, insn: Instruction, pc: Word)
    requires ((insn.op == B || insn.op == Bl) && insn.form.Branch?)
          || ((insn.op == Br || insn.op == Blr || insn.op == Ret) && insn.form.BranchIndirect?)
    ensures
      var after := Execute(m, insn, pc);
      && after.Ran? && after.flow.Branched?
      && after.machine.memory == m.memory
      && after.machine.regs.pc
         == (if insn.form.Branch? then (pc + insn.form.offset) % WORD_LIMIT else ReadX(m.regs, insn.form.rn))
      && (forall reg: Gpr :: reg != X(30) ==> ReadX(after.machine.regs, reg) == ReadX(m.regs, reg))
      && ReadX(after.machine.regs, X(30))
         == (if insn.op == Bl || insn.op == Blr then (pc + 4) % WORD_LIMIT else ReadX(m.regs, X(30)))
      && after.machine.regs
         == m.regs.(x := after.machine.regs.x, sp := after.machine.regs.sp, pc := after.machine.regs.pc)
  {
  }

  /** The shapes each opcode can execute. */
  predicate Suits(op: Op, form: Form) {
    match op
    case Add | Sub => form.RegImm? || form.RegShifted? || form.RegExtended?
    case And | Orr | Eor | Bic | Orn | Eon => form.RegImm? || form.RegShifted?
    case B | Bl => form.Branch?
    case Br | Blr | Ret => form.BranchIndirect?
    case Nop => true
    case Ldr | Str => form.LoadStore? && form.rt2.None?
    case Svc | Brk => form.Imm?
    case Unimplemented => false
  }

  /**
   When an instruction traps, and with what: a form its opcode cannot execute is undefined and reports
   the encoding, a supervisor call and a breakpoint carry their low 16 immediate bits, a transfer aborts
   on the address it could not reach, and nothing else traps.
   */
  lemma TrapMeaning(m: Machine, insn: Instruction, pc: Word)
    requires m.regs.pc == pc
    ensures
      var executed := Execute(m, insn, pc);
      && (executed == Raised(UndefinedInstruction(pc, insn.encoding)) <==> !Suits(insn.op, insn.form))
      && (Suits(insn.op, insn.form) && insn.op == Svc ==>
            executed == Raised(SupervisorCall(pc, insn.form.imm % 0x1_0000)))
      && (Suits(insn.op, insn.form) && insn.op == Brk ==>
            executed == Raised(Breakpoint(pc, insn.form.imm % 0x1_0000)))
      && (Suits(insn.op, insn.form) && (insn.op == Ldr || insn.op == Str) ==>
            (executed.Raised? <==> !IsMapped(m.memory, Addressed(m.regs, insn.form.addr, pc).address, insn.form.size.bytes))
            && (executed.Raised? ==>
                  executed.trap == DataAbort(pc, Addressed(m.regs, insn.form.addr, pc).address, insn.op == Str)))
      && (Suits(insn.op, insn.form) && insn.op != Svc && insn.op != Brk && insn.op != Ldr && insn.op != Str ==>
            executed.Ran?)
      && (insn.op == Nop ==> executed == Ran(Next, m))
  {
    hide ArithmeticResult, LogicalValue, AddressOf, Addressed, ReadX, WriteX, ReadShifted, ReadExtended, Move, IsMapped, Wrap;
    if Suits(insn.op, insn.form) && (insn.op == Ldr || insn.op == Str) {
      MoveTrapsIffUnmapped(m, insn, pc);
    } else if insn.op == Ldr || insn.op == Str {
      UnsuitedMove(m, insn, pc);
    }
  }

  lemma UnsuitedMove(m: Machine, insn: Instruction, pc: Word)
    requires !(insn.form.LoadStore? && insn.form.rt2.None?)
    ensures Move(m, insn, pc) == Raised(UndefinedInstruction(pc, insn.encoding))
  {
    hide Transfer, AddressOf;
  }

  /**
   A call records the following address even when it jumps through the link register itself, and a
   return through the link register comes back there with nothing but PC and the link changed.
   */
  lemma CallThenReturn(m: Machine, call: Instruction, ret: Instruction, pc: Word, retPc: Word)
    requires (call.op == Bl && call.form.Branch?) || (call.op == Blr && call.form.BranchIndirect?)
    requires ret.op == Ret && ret.form == BranchIndirect(LINK)
    ensures
      var called := Execute(m, call, pc);
      && called.Ran? && called.flow.Branched?
      && called.machine.regs.pc
         == (if call.op == Bl then ToWord(pc + call.form.offset) else ReadX(m.regs, call.form.rn))
      && Execute(called.machine, ret, retPc)
         == Ran(Branched, m.(regs := WithPc(WriteX(m.regs, LINK, NextPc(pc)), NextPc(pc))))
  {
  }

  // ----- loads and stores -----

  /** A load or store traps exactly when the bytes it addresses are not all mapped. */
  lemma MoveTrapsIffUnmapped(m: Machine, insn: Instruction, pc: Word)
    requires (insn.op == Ldr || insn.op == Str) && insn.form.LoadStore? && insn.form.rt2.None?
    ensures
      var address := Addressed(m.regs, insn.form.addr, pc).address;
      && (Execute(m, insn, pc).Ran? <==> IsMapped(m.memory, address, insn.form.size.bytes))
      && (Execute(m, insn, pc).Raised? ==> Execute(m, insn, pc) == Raised(DataAbort(pc, address, insn.op == Str)))
  {
    hide ToLe, FromLe, AddressOf, Addressed, ReadX, WriteX, Wrap, SignExtendTo64;
    AddressMeaning(m.regs, insn.form.addr, pc);
  }

  predicate IsWrittenBack(writeback: Option<BaseUpdate>, reg: Gpr) {
    writeback.Some? && writeback.value.base == reg
  }

  /**
   A load: its register gets the little-endian integer at the address, extended from its size, and
   the base its write-back.  Where both are the same register the write-back wins.
   */
  lemma LoadMeaning(m: Machine, insn: Instruction, pc: Word)
    requires insn.op == Ldr && insn.form.LoadStore? && insn.form.rt2.None?
    requires IsMapped(m.memory, Addressed(m.regs, insn.form.addr, pc).address, insn.form.size.bytes)
    ensures
      var computed := Addressed(m.regs, insn.form.addr, pc);
      var raw := FromLe(m.memory.bytes[computed.address - m.memory.base..][..insn.form.size.bytes]);
      var value := if insn.form.size.isSigned then Signed(raw, 8 * insn.form.size.bytes) else raw;
      var rt, writeback := insn.form.rt, computed.writeback;
      var after := Execute(m, insn, pc);
      && after.Ran? && after.flow.Next? && after.machine.memory == m.memory
      && (!IsWrittenBack(writeback, rt) ==> Holds(after.machine.regs, rt, Wrap(value, insn.width)))
      && (writeback.Some? ==> Holds(after.machine.regs, writeback.value.base, writeback.value.value))
      && (forall reg: Gpr :: reg != rt && !IsWrittenBack(writeback, reg) ==>
            ReadX(after.machine.regs, reg) == ReadX(m.regs, reg))
      && after.machine.regs == m.regs.(x := after.machine.regs.x, sp := after.machine.regs.sp)
  {
    hide Pow2, Bit, FromLe, AddressOf, Addressed, ReadX, Wrap, SignExtendTo64, Signed, LowBits;
    AddressMeaning(m.regs, insn.form.addr, pc);
    var address := Addressed(m.regs, insn.form.addr, pc).address;
    var size := insn.form.size;
    var start := address - m.memory.base;
    var bytes := m.memory.bytes[start..start + size.bytes];
    assert m.memory.bytes[start..][..size.bytes] == bytes;
    FromLePadded(bytes, 8 - size.bytes);
    FromLeBound(bytes);
    FromLeWord(bytes);
    SignExtensionMeaning(FromLe(bytes), size.bytes * 8);
    LowBitsOfSmall(FromLe(bytes), size.bytes * 8);
    WrapOfWord(Signed(FromLe(bytes), 8 * size.bytes), insn.width);
  }

  /** `after` is `before` with the low `count` bytes of `value` at `address`, least significant first. */
  ghost predicate IsStored(before: Image, after: Image, address: Word, count: nat, value: Word) {
    && after.base == before.base && |after.bytes| == |before.bytes|
    && forall i: nat :: i < |after.bytes| ==>
         after.bytes[i]
         == if address <= before.base + i < address + count then ShiftRight(value, 8 * (before.base + i - address)) % 0x100
            else before.bytes[i]
  }

  /**
   A store: the low bytes of its register, least significant first, at the address and nowhere else,
   and then the write-back; a register that is both source and base is stored as it was.
   */
  lemma StoreMeaning(m: Machine, insn: Instruction, pc: Word)
    requires insn.op == Str && insn.form.LoadStore? && insn.form.rt2.None?
    requires IsMapped(m.memory, Addressed(m.regs, insn.form.addr, pc).address, insn.form.size.bytes)
    ensures
      var computed := Addressed(m.regs, insn.form.addr, pc);
      var value := ReadX(m.regs, insn.form.rt) % insn.width.Modulus();
      var writeback := computed.writeback;
      var after := Execute(m, insn, pc);
      && after.Ran? && after.flow.Next?
      && IsStored(m.memory, after.machine.memory, computed.address, insn.form.size.bytes, value)
      && (writeback.Some? ==> Holds(after.machine.regs, writeback.value.base, writeback.value.value))
      && (forall reg: Gpr :: !IsWrittenBack(writeback, reg) ==>
            ReadX(after.machine.regs, reg) == ReadX(m.regs, reg))
      && after.machine.regs == m.regs.(x := after.machine.regs.x, sp := after.machine.regs.sp)
  {
    hide ToLe, AddressOf, Addressed, ReadX, ShiftRight, IsStored, WriteUint;
    AddressMeaning(m.regs, insn.form.addr, pc);
    var address := Addressed(m.regs, insn.form.addr, pc).address;
    var count, value := insn.form.size.bytes, ReadX(m.regs, insn.form.rt) % insn.width.Modulus();
    CompletesIffMapped(m.memory, address, count, value);
    StoredBytes(m.memory, address, count, value);
  }

  lemma StoredBytes(m: Image, address: Word, count: nat, value: Word)
    requires count <= 8 && IsMapped(m, address, count)
    ensures WriteUint(m, address, count, value).Done?
    ensures IsStored(m, WriteUint(m, address, count, value).value, address, count, value)
  {
    hide ToLe, ShiftRight;
    CompletesIffMapped(m, address, count, value);
    forall k: nat | k < count ensures ToLe(value, 8)[k] == ShiftRight(value, 8 * k) % 0x100 {
      ToLeByte(value, 8, k);
    }
    var start := address - m.base;
    var data := ToLe(value, 8)[..count];
    var after := Splice(m.bytes, start, data);
    forall i: nat | i < |after|
      ensures after[i] == if start <= i < start + count then data[i - start] else m.bytes[i]
    {
    }
  }

  /** A register pushed by a pre-indexed store comes back, with the base, from the matching pop. */
  lemma PushThenPop(m: Machine, push: Instruction, pop: Instruction, pc: Word, popPc: Word)
    requires push.op == Str && pop.op == Ldr && push.form.LoadStore? && pop.form.LoadStore?
    requires push.form.rt2.None? && pop.form.rt2.None? && push.width == X64 && pop.width == X64
    requires push.form.rt == pop.form.rt && push.form.size == pop.form.size == AccessSize(8, false)
    requires push.form.addr.Immediate? && push.form.addr.writeback == Pre
    requires pop.form.addr == Immediate(push.form.addr.base, -push.form.addr.offset, Post)
    requires push.form.rt != push.form.addr.base && !push.form.addr.base.ZR?
    requires Execute(m, push, pc).Ran?
    ensures
      var pushed := Execute(m, push, pc).machine;
      var popped := Execute(pushed, pop, popPc);
      && popped.Ran? && popped.flow.Next?
      && popped.machine == Machine(m.regs, pushed.memory)
  {
    hide Pow2, LowBits, ToLe, FromLe, ReadUint, WriteUint;
    var base := push.form.addr.base;
    var rt := push.form.rt;
    var address := ToWord(ReadX(m.regs, base) + push.form.addr.offset);
    var value := ReadX(m.regs, rt);
    WordBounds(value);
    CompletesIffMapped(m.memory, address, 8, value);
    ReadAfterWrite(m.memory, address, 8, value, 8);
    ThereAndBack(ReadX(m.regs, base), push.form.addr.offset);
    WriteBackSame(m.regs, base, rt, address);
  }

  lemma WordBounds(value: Word)
    ensures LowBits(value, 8 * 8) == value
    ensures Wrap(value, X64) == value
  {
    WordLimit();
    hide Pow2;
    LowBitsOfSmall(value, 64);
  }

  lemma ThereAndBack(base: Word, offset: int)
    ensures ToWord(ToWord(base + offset) + -offset) == base
  {
  }

  /** Restoring a base and reloading an untouched register rebuilds the register file. */
  lemma WriteBackSame(regs: RegFile, base: Gpr, rt: Gpr, moved: Word)
    requires base != rt && !base.ZR?
    ensures WriteX(WriteX(WriteX(regs, base, moved), rt, ReadX(regs, rt)), base, ReadX(regs, base)) == regs
  {
    var a := WriteX(regs, base, moved);
    var b := WriteX(a, rt, ReadX(regs, rt));
    var c := WriteX(b, base, ReadX(regs, base));
    assert forall i: nat :: i < NUM_GPR ==> ReadX(c, X(i)) == ReadX(regs, X(i));
    assert ReadX(c, SP) == ReadX(regs, SP);
    assert forall i: nat :: i < NUM_GPR ==> c.x[i] == ReadX(c, X(i)) && regs.x[i] == ReadX(regs, X(i));
    assert c.x == regs.x;
  }

  // ----- traps -----

  function TrapPc(trap: Trap): Word {
    trap.pc
  }

  /** A trap names the instruction that raised it. */
  lemma TrapsNameTheInstruction(m: Machine, insn: Instruction, pc: Word)
    requires m.regs.pc == pc && Execute(m, insn, pc).Raised?
    ensures TrapPc(Execute(m, insn, pc).trap) == pc
  {
    hide ArithmeticResult, LogicalValue, AddressOf, ReadX, WriteX, Wrap, SignExtendTo64, ReadUint, WriteUint;
  }

  /** Only a fetch can raise an instruction abort. */
  lemma ExecutionNeverAborts(m: Machine, insn: Instruction, pc: Word)
    requires Execute(m, insn, pc).Raised?
    ensures !Execute(m, insn, pc).trap.InstructionAbort?
  {
    hide ArithmeticResult, LogicalValue, AddressOf, ReadX, WriteX, Wrap, SignExtendTo64, ReadUint, WriteUint;
  }

  /** No instruction moves or resizes the memory window. */
  lemma WindowIsFixed(m: Machine, insn: Instruction, pc: Word)
    requires Execute(m, insn, pc).Ran?
    ensures
      var after := Execute(m, insn, pc).machine.memory;
      after.base == m.memory.base && |after.bytes| == |m.memory.bytes|
  {
    hide ArithmeticResult, LogicalValue, AddressOf, ReadX, WriteX, Wrap, SignExtendTo64, ToLe;
  }
}
