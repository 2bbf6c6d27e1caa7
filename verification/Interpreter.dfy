/**
 The CPU object: registers, memory, decode cache and trace shadow state updated in place
 (crates/core/src/interp/mod.rs, crates/core/src/interp/dispatch.rs), proved against the functions
 of modules Dispatch and Stepping.
 */
module Interpreter {
  import opened Options
  import opened Bits
  import opened Registers
  import opened Instructions
  import opened Flags
  import opened Operands
  import opened Memory
  import D = Dispatch
  import opened DecodeCaching
  import opened TraceSink
  import S = Stepping

  /** What an arm reports to the loop: how PC moves, or the trap it raises. */
  datatype Outcome = Flows(flow: D.Flow) | Traps(trap: Trap)

  function OutcomeOf(executed: D.Executed): Outcome {
    match executed
    case Ran(flow, _) => Flows(flow)
    case Raised(trap) => Traps(trap)
  }

  /** The machine after an arm: a trap leaves it alone. */
  function Resulting(before: D.Machine, executed: D.Executed): D.Machine {
    if executed.Ran? then executed.machine else before
  }

  class Cpu {
    var regs: RegFile
    const memory: FlatMemory
    const cache: DecodeCache
    var icount: nat
    var previous: Option<RegFile>
    const deltas: DeltaBuffer
    /** Whether the sink records anything, and the calls made on it. */
    const tracing: bool
    var emitted: seq<Event>

    ghost function Repr(): set<object>
      reads this
    {
      {this, memory, cache, cache.tags, cache.entries, deltas, deltas.deltas}
    }

    ghost predicate Valid()
      reads Repr()
    {
      memory.Valid() && cache.Valid() && deltas.Valid()
    }

    function State(): D.Machine
      requires memory.Valid()
      reads this, memory
    {
      D.Machine(regs, memory.Image())
    }

    function Snapshot(): S.Core
      requires memory.Valid()
      reads this, memory
    {
      S.Core(State(), icount, previous, emitted)
    }

    function Setup(): S.Setup
      reads this, cache
    {
      S.Setup(cache.decode, tracing)
    }

    constructor (memory: FlatMemory, decode: Decoder, tracing: bool)
      requires memory.Valid()
      ensures Valid() && fresh(Repr() - {memory})
      ensures this.memory == memory && Setup() == S.Setup(decode, tracing)
      ensures Snapshot() == S.Core(D.Machine(RESET_REGISTERS, old(memory.Image())), 0, None, [])
    {
      regs := RESET_REGISTERS;
      this.memory := memory;
      var c := new DecodeCache(decode);
      cache := c;
      icount, previous := 0, None;
      var d := new DeltaBuffer();
      deltas := d;
      this.tracing := tracing;
      emitted := [];
    }

    // ----- the arms -----

    method WriteResult(rd: Gpr, value: Word, width: RegWidth)
      modifies this`regs
      ensures regs == D.WriteResult(old(regs), rd, value, width)
    {
      match width {
        case W32 => regs := WriteX(regs, rd, value % 0x1_0000_0000);
        case X64 =>
          WrapWord(value, X64);
          regs := WriteX(regs, rd, value);
      }
    }

    method SetFlags(flags: Nzcv)
      modifies this`regs
      ensures regs == D.WithFlags(old(regs), true, flags)
    {
      regs := regs.(pstate := regs.pstate.(nzcv := flags));
    }

    method Arithmetic(insn: Instruction) returns (outcome: Outcome)
      requires memory.Valid()
      modifies this`regs
      ensures outcome == OutcomeOf(D.Arithmetic(old(State()), insn))
      ensures State() == Resulting(old(State()), D.Arithmetic(old(State()), insn))
    {
      var width := insn.width;
      var operand: Word;
      match insn.form {
        case RegImm(_, _, imm) => operand := imm;
        case RegShifted(_, _, rm) => operand := ReadShifted(regs, rm, width);
        case RegExtended(_, _, rm) => operand := ReadExtended(regs, rm);
        case _ => return Traps(D.Undefined(regs.pc, insn));
      }
      var left := ReadGpr(regs, insn.form.rn, width);
      var isSub := insn.op == Sub;
      var right := if isSub then BitNot(operand) else operand;
      var result := AddWithCarry(left, right, isSub, width);
      WriteResult(insn.form.rd, result.value, width);
      if insn.setsFlags {
        SetFlags(result.flags);
      }
      outcome := Flows(D.Next);
    }

    method Logical(insn: Instruction) returns (outcome: Outcome)
      requires memory.Valid()
      modifies this`regs
      ensures outcome == OutcomeOf(D.Logical(old(State()), insn))
      ensures State() == Resulting(old(State()), D.Logical(old(State()), insn))
    {
      var width := insn.width;
      var operand: Word;
      match insn.form {
        case RegImm(_, _, imm) => operand := imm;
        case RegShifted(_, _, rm) => operand := ReadShifted(regs, rm, width);
        case _ => return Traps(D.Undefined(regs.pc, insn));
      }
      var left := ReadGpr(regs, insn.form.rn, width);
      var value := D.LogicalValue(insn.op, left, operand);
      WriteResult(insn.form.rd, value, width);
      if insn.setsFlags {
        SetFlags(LogicalFlags(value, width));
      }
      outcome := Flows(D.Next);
    }

    method BranchImmediate(insn: Instruction, pc: Word) returns (outcome: Outcome)
      requires memory.Valid()
      modifies this`regs
      ensures outcome == OutcomeOf(D.BranchImmediate(old(State()), insn, pc))
      ensures State() == Resulting(old(State()), D.BranchImmediate(old(State()), insn, pc))
    {
      if !insn.form.Branch? {
        return Traps(D.Undefined(pc, insn));
      }
      if insn.op == Bl {
        regs := WriteX(regs, D.LINK, D.NextPc(pc));
      }
      regs := regs.(pc := ToWord(pc + insn.form.offset));
      outcome := Flows(D.Branched);
    }

    method BranchRegister(insn: Instruction, pc: Word) returns (outcome: Outcome)
      requires memory.Valid()
      modifies this`regs
      ensures outcome == OutcomeOf(D.BranchRegister(old(State()), insn, pc))
      ensures State() == Resulting(old(State()), D.BranchRegister(old(State()), insn, pc))
    {
      if !insn.form.BranchIndirect? {
        return Traps(D.Undefined(pc, insn));
      }
      var target := ReadX(regs, insn.form.rn);
      if insn.op == Blr {
        regs := WriteX(regs, D.LINK, D.NextPc(pc));
      }
      regs := regs.(pc := target);
      outcome := Flows(D.Branched);
    }

    /** Moves one register's worth of data; on a fault neither side changes. */
    method Transfer(rt: Gpr, address: Word, isWrite: bool, width: RegWidth, size: AccessSize) returns (r: Access<()>)
      requires memory.Valid() && size.bytes in {1, 2, 4, 8}
      modifies this`regs, memory
      ensures memory.Valid()
      ensures
        var moved := D.Transfer(old(State()), rt, address, isWrite, width, size);
        && r == (match moved case Fault(a, w) => Fault(a, w) case Done(_) => Done(()))
        && State() == (match moved case Fault(_, _) => old(State()) case Done(machine) => machine)
    {
      if isWrite {
        var value := ReadGpr(regs, rt, width);
        r := memory.StoreUint(address, size.bytes, value);
        return;
      }
      var loaded := memory.LoadUint(address, size.bytes);
      match loaded {
        case Fault(a, w) => r := Fault(a, w);
        case Done(raw) =>
          var value := if size.isSigned then SignExtendTo64(raw, size.bytes * 8) else raw;
          WriteResult(rt, value, width);
          r := Done(());
      }
    }

    method LoadStoreArm(insn: Instruction, pc: Word) returns (outcome: Outcome)
      requires memory.Valid()
      modifies this`regs, memory
      ensures memory.Valid()
      ensures outcome == OutcomeOf(D.Move(old(State()), insn, pc))
      ensures State() == Resulting(old(State()), D.Move(old(State()), insn, pc))
    {
      if !insn.form.LoadStore? || insn.form.rt2.Some? {
        return Traps(D.Undefined(pc, insn));
      }
      var computed := AddressOf(regs, insn.form.addr, pc);
      var isWrite := insn.op == Str;
      var moved := Transfer(insn.form.rt, computed.address, isWrite, insn.width, insn.form.size);
      if moved.Fault? {
        return Traps(DataAbort(pc, computed.address, isWrite));
      }
      if computed.writeback.Some? {
        regs := WriteX(regs, computed.writeback.value.base, computed.writeback.value.value);
      }
      outcome := Flows(D.Next);
    }

    /** One decoded instruction.  A trap, from whichever arm, leaves registers and memory untouched. */
    method Execute(insn: Instruction, pc: Word) returns (outcome: Outcome)
      requires memory.Valid()
      modifies this`regs, memory
      ensures memory.Valid()
      ensures outcome == OutcomeOf(D.Execute(old(State()), insn, pc))
      ensures State() == Resulting(old(State()), D.Execute(old(State()), insn, pc))
      ensures outcome.Traps? ==> State() == old(State())
    {
      match insn.op {
        case Add | Sub => outcome := Arithmetic(insn);
        case And | Orr | Eor | Bic | Orn | Eon => outcome := Logical(insn);
        case B | Bl => outcome := BranchImmediate(insn, pc);
        case Br | Blr | Ret => outcome := BranchRegister(insn, pc);
        case Nop => outcome := Flows(D.Next);
        case Ldr | Str => outcome := LoadStoreArm(insn, pc);
        case Svc => outcome := Traps(D.SupervisorCallTrap(insn, pc));
        case Brk => outcome := Traps(D.BreakpointTrap(insn, pc));
        case Unimplemented => outcome := Traps(D.Undefined(pc, insn));
      }
    }

    // ----- the loop -----

    method Fetch(pc: Word) returns (word: Option<nat>)
      requires memory.Valid()
      ensures word == S.FetchWord(memory.Image(), pc)
    {
      var read := memory.Read(pc, 4);
      word := if read.Done? then Some(FromLe(read.value)) else None;
    }

    /** Emits the record of the state entering a block and makes that state the shadow state. */
    method EmitBlock()
      requires Valid()
      modifies this`emitted, this`previous, deltas, deltas.deltas
      ensures Valid()
      ensures Snapshot() == S.EmitBlock(old(Snapshot()), Setup())
    {
      if tracing {
        deltas.DeltasBetween(previous, regs);
        emitted := emitted + [Block(regs.pc, icount, deltas.Contents())];
        previous := Some(regs);
      }
    }

    /**
     Exactly one instruction, through the cache: the same as the reference step, which decodes afresh,
     whatever was cached and whatever the guest has since written over its code.
     */
    method Step() returns (trap: Option<Trap>)
      requires Valid()
      modifies Repr()
      ensures Valid()
      ensures S.StepResult(Snapshot(), trap) == S.Step(old(Snapshot()), Setup())
      ensures trap.Some? ==> State() == old(State()) && icount == old(icount)
      ensures trap.None? ==> S.Retires(old(State()), State(), cache.decode) && icount == old(icount) + 1
    {
      hide D.Execute, S.FetchWord, S.EmitBlock, S.Retires;
      S.StepMeaning(Snapshot(), Setup());
      var pc := regs.pc;
      var word := Fetch(pc);
      if word.None? {
        return Some(InstructionAbort(pc));
      }
      var insn := cache.Decoded(pc, word.value);
      EmitBlock();
      var outcome := Execute(insn, pc);
      match outcome {
        case Flows(Next) => regs := regs.(pc := D.NextPc(pc));
        case Flows(Branched) =>
        case Traps(t) => return Some(t);
      }
      icount := icount + 1;
      trap := None;
    }

    /** At most `budget` steps, fewer if one traps: the reference run exactly. */
    method Run(budget: nat) returns (stop: S.Stop)
      requires Valid()
      modifies Repr()
      ensures Valid()
      ensures S.RunResult(stop, Snapshot()) == S.Run(old(Snapshot()), Setup(), budget)
    {
      hide S.Step;
      for i := 0 to budget
        invariant Valid()
        invariant S.Run(old(Snapshot()), Setup(), budget) == S.Run(Snapshot(), Setup(), budget - i)
      {
        var trap := Step();
        if trap.Some? {
          return S.Trapped(trap.value);
        }
      }
      stop := S.BudgetExhausted;
    }

    /** Appends an exception event; the next block starts from no shadow state. */
    method OnException(fromPc: Word, toPc: Word, discon: DisconType)
      requires Valid()
      modifies this`emitted, this`previous
      ensures Valid()
      ensures Snapshot() == S.AfterException(old(Snapshot()), Setup(), fromPc, toPc, discon)
      ensures State() == old(State()) && icount == old(icount)
      ensures tracing ==>
        previous.None? && emitted == old(emitted) + [ExceptionEntry(icount, fromPc, toPc, discon, regs)]
      ensures !tracing ==> previous == old(previous) && emitted == old(emitted)
    {
      if tracing {
        emitted := emitted + [ExceptionEntry(icount, fromPc, toPc, discon, regs)];
        previous := None;
      }
    }
  }
}
