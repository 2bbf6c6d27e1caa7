/**
 Stepping and running the machine (crates/core/src/interp/mod.rs) as functions of its whole state,
 decoding every word afresh: the reference the cached, in-place interpreter is proved against.
 */
module Stepping {
  import opened Options
  import opened Powers
  import opened Bits
  import opened Registers
  import opened Instructions
  import opened Memory
  import opened Dispatch
  import opened TraceSink

  /** The machine, its retired-instruction count, the trace shadow state and the events emitted. */
  datatype Core = Core(machine: Machine, icount: nat, previous: Option<RegFile>, emitted: seq<Event>)

  datatype StepResult = StepResult(core: Core, trap: Option<Trap>)

  datatype Stop = BudgetExhausted | Trapped(trap: Trap)

  datatype RunResult = RunResult(stop: Stop, core: Core)

  /** What a run is configured with: a decoder, and whether the sink records anything. */
  datatype Setup = Setup(decode: Decoder, tracing: bool)

  function FetchWord(m: Image, pc: Word): Option<nat> {
    match ReadBytes(m, pc, 4)
    case Fault(_, _) => None
    case Done(bytes) => Some(FromLe(bytes))
  }

  /** The block record describes the state entering the block, so it is emitted before executing. */
  function EmitBlock(core: Core, setup: Setup): Core {
    if setup.tracing then
      var regs := core.machine.regs;
      core.(previous := Some(regs),
      emitted := core.emitted + [Block(regs.pc, core.icount, Deltas(core.previous, regs))])
    else core
  }

  function Advanced(flow: Flow, machine: Machine, pc: Word): Machine {
    if flow.Next? then machine.(regs := WithPc(machine.regs, NextPc(pc))) else machine
  }

  /** Exactly one instruction. */
  function Step(core: Core, setup: Setup): StepResult {
    var pc := core.machine.regs.pc;
    match FetchWord(core.machine.memory, pc)
    case None => StepResult(core, Some(InstructionAbort(pc)))
    case Some(word) =>
      var traced := EmitBlock(core, setup);
      (match Execute(core.machine, setup.decode(word), pc)
       case Raised(trap) => StepResult(traced, Some(trap))
       case Ran(flow, machine) =>
         StepResult(traced.(machine := Advanced(flow, machine, pc), icount := core.icount + 1), None))
  }

  /** At most `budget` steps, ending early at the first trap. */
  function Run(core: Core, setup: Setup, budget: nat): RunResult
    decreases budget
  {
    if budget == 0 then RunResult(BudgetExhausted, core)
    else
      var stepped := Step(core, setup);
      if stepped.trap.Some? then RunResult(Trapped(stepped.trap.value), stepped.core)
      else Run(stepped.core, setup, budget - 1)
  }

  function AfterException(core: Core, setup: Setup, fromPc: Word, toPc: Word, discon: DisconType): Core {
    if setup.tracing then
      core.(previous := None,
      emitted := core.emitted + [ExceptionEntry(core.icount, fromPc, toPc, discon, core.machine.regs)])
    else core
  }

  /** Code the guest stores at an address is what the next fetch there sees. */
  lemma StoredCodeIsFetched(m: Image, pc: Word, value: Word)
    requires WriteUint(m, pc, 4, value).Done?
    ensures FetchWord(WriteUint(m, pc, 4, value).value, pc) == Some(LowBits(value, 32))
  {
    hide LowBits, ToLe, FromLe, WriteUint;
    ReadAfterWrite(m, pc, 4, value, 4);
    var written := WriteUint(m, pc, 4, value).value;
    FromLePadded(ReadBytes(written, pc, 4).value, 4);
  }

  // ----- one step -----

  /** Where PC ends up: at a branch's own target, and otherwise four on. */
  predicate GoesTo(before: RegFile, insn: Instruction, pc: Word) {
    match insn.op
    case B | Bl => insn.form.Branch? && pc == (before.pc + insn.form.offset) % WORD_LIMIT
    case Br | Blr | Ret => insn.form.BranchIndirect? && pc == ReadX(before, insn.form.rn)
    case _ => pc == (before.pc + 4) % WORD_LIMIT
  }

  /** `after` is `before` once the instruction its PC points at has retired. */
  ghost predicate Retires(before: Machine, after: Machine, decode: Decoder) {
    var pc := before.regs.pc;
    && IsMapped(before.memory, pc, 4)
    && var insn := decode(FromLe(before.memory.bytes[pc - before.memory.base..][..4]));
       && Execute(before, insn, pc).Ran?
       && var executed := Execute(before, insn, pc).machine;
          && GoesTo(before.regs, insn, after.regs.pc)
          && after == executed.(regs := executed.regs.(pc := after.regs.pc))
  }

  /**
   A step that retires leaves what executing the fetched word leaves, with PC four on or, after a
   branch, at its target.  A step aborts exactly when the word at PC is not mapped, and traps otherwise
   exactly when executing the word does.
   */
  lemma StepMeaning(core: Core, setup: Setup)
    ensures
      var stepped := Step(core, setup);
      && (stepped.trap.None? ==> Retires(core.machine, stepped.core.machine, setup.decode))
      && (stepped.trap == Some(InstructionAbort(core.machine.regs.pc))
          <==> !IsMapped(core.machine.memory, core.machine.regs.pc, 4))
  {
    hide FromLe, Execute, GoesTo, Advanced, Deltas;
    var m := core.machine;
    var pc := m.regs.pc;
    if IsMapped(m.memory, pc, 4) {
      var start := pc - m.memory.base;
      assert m.memory.bytes[start..][..4] == m.memory.bytes[start..start + 4];
      var insn := setup.decode(FromLe(m.memory.bytes[start..][..4]));
      if Execute(m, insn, pc).Raised? {
        ExecutionNeverAborts(m, insn, pc);
      } else {
        TargetReached(m, insn);
      }
    }
  }

  /** Only branches set PC, and they set it to their target. */
  lemma TargetReached(m: Machine, insn: Instruction)
    requires Execute(m, insn, m.regs.pc).Ran?
    ensures
      var executed := Execute(m, insn, m.regs.pc);
      var after := Advanced(executed.flow, executed.machine, m.regs.pc);
      GoesTo(m.regs, insn, after.regs.pc) && after == executed.machine.(regs := executed.machine.regs.(pc := after.regs.pc))
  {
    hide ArithmeticResult, LogicalValue, ReadX, WriteX, Wrap, ReadUint, WriteUint;
  }

  /** What a step adds to the trace: the block entered, before it executes, and nothing when it aborts. */
  lemma StepTraces(core: Core, setup: Setup)
    ensures
      var stepped := Step(core, setup).core;
      if setup.tracing && IsMapped(core.machine.memory, core.machine.regs.pc, 4) then
        stepped.previous == Some(core.machine.regs)
        && stepped.emitted == core.emitted + [Block(core.machine.regs.pc, core.icount, Deltas(core.previous, core.machine.regs))]
      else stepped.previous == core.previous && stepped.emitted == core.emitted
  {
    hide Execute, Deltas, FromLe;
  }

  /**
   A reported exception is one event, naming both addresses, the cause, the count and the registers as
   they are; it drops the shadow state, so that the next block entered, whatever the host does first,
   carries all 100 values.
   */
  lemma ExceptionMeaning(core: Core, setup: Setup, fromPc: Word, toPc: Word, discon: DisconType, machine: Machine)
    ensures !setup.tracing ==> AfterException(core, setup, fromPc, toPc, discon) == core
    ensures setup.tracing ==>
      var after := AfterException(core, setup, fromPc, toPc, discon);
      && after.machine == core.machine && after.icount == core.icount && after.previous.None?
      && |after.emitted| == |core.emitted| + 1 && after.emitted[..|core.emitted|] == core.emitted
      && (var event := after.emitted[|core.emitted|];
          && event.ExceptionEntry? && event.icount == core.icount && event.fromPc == fromPc && event.toPc == toPc
          && event.discon == discon && event.regs == core.machine.regs)
      && (IsMapped(machine.memory, machine.regs.pc, 4) ==>
            var emitted := Step(after.(machine := machine), setup).core.emitted;
            && |emitted| == |core.emitted| + 2
            && emitted[|core.emitted| + 1].Block? && |emitted[|core.emitted| + 1].deltas| == 100)
  {
    hide Step, Deltas, IsMapped;
    var after := AfterException(core, setup, fromPc, toPc, discon).(machine := machine);
    if setup.tracing {
      StepTraces(after, setup);
    }
    FullSetWithoutSnapshot(machine.regs);
  }

  // ----- precise traps and resumable runs -----

  predicate SameWindow(a: Image, b: Image) {
    a.base == b.base && |a.bytes| == |b.bytes|
  }

  /** A trap leaves registers, memory and the count as they were and names the instruction at PC. */
  lemma StepTrapsPrecisely(core: Core, setup: Setup)
    ensures
      var stepped := Step(core, setup);
      && (stepped.trap.Some? ==>
            stepped.core.machine == core.machine && stepped.core.icount == core.icount
            && TrapPc(stepped.trap.value) == core.machine.regs.pc)
      && (stepped.trap.None? ==> stepped.core.icount == core.icount + 1)
      && SameWindow(stepped.core.machine.memory, core.machine.memory)
  {
    hide Execute, TrapPc, Deltas;
    var pc := core.machine.regs.pc;
    var word := FetchWord(core.machine.memory, pc);
    if word.Some? {
      var executed := Execute(core.machine, setup.decode(word.value), pc);
      if executed.Raised? {
        TrapsNameTheInstruction(core.machine, setup.decode(word.value), pc);
      } else {
        WindowIsFixed(core.machine, setup.decode(word.value), pc);
      }
    } else {
      AbortNames(pc);
    }
  }

  lemma AbortNames(pc: Word)
    ensures TrapPc(InstructionAbort(pc)) == pc
  {
  }

  /**
   A run retires its whole budget exactly when it exhausts it; otherwise it stops short, at a state
   whose next step is the trap, with PC on the trapping instruction.
   */
  lemma {:induction false} RunRetires(core: Core, setup: Setup, budget: nat)
    ensures
      var run := Run(core, setup, budget);
      && core.icount <= run.core.icount <= core.icount + budget
      && (run.stop.BudgetExhausted? <==> run.core.icount == core.icount + budget)
      && (run.stop.Trapped? ==> TrapPc(run.stop.trap) == run.core.machine.regs.pc)
      && (run.stop.Trapped? && run.core.icount == core.icount ==> run.core.machine == core.machine)
      && SameWindow(run.core.machine.memory, core.machine.memory)
    decreases budget
  {
    hide Step, TrapPc;
    if budget == 0 {
    } else {
      StepTrapsPrecisely(core, setup);
      if Step(core, setup).trap.None? {
        RunRetires(Step(core, setup).core, setup, budget - 1);
      }
    }
  }

  /** Running for `m` and then for `n` is running for `m + n`, unless the first run trapped. */
  lemma {:induction false} RunsCompose(core: Core, setup: Setup, m: nat, n: nat)
    ensures Run(core, setup, m + n)
         == if Run(core, setup, m).stop.BudgetExhausted? then Run(Run(core, setup, m).core, setup, n)
            else Run(core, setup, m)
    decreases m
  {
    hide Step;
    if m == 0 {
    } else if Step(core, setup).trap.None? {
      RunsCompose(Step(core, setup).core, setup, m - 1, n);
    }
  }

  /** Whether and how a step traps depends on the machine alone. */
  lemma TrapsFollowTheMachine(a: Core, b: Core, setup: Setup)
    requires a.machine == b.machine
    ensures Step(a, setup).trap == Step(b, setup).trap
  {
    hide Execute, Deltas;
  }

  /** Stepping again from where a run trapped raises the same trap. */
  lemma {:induction false} TrapsAreRepeatable(core: Core, setup: Setup, budget: nat)
    requires Run(core, setup, budget).stop.Trapped?
    ensures
      var run := Run(core, setup, budget);
      Step(run.core, setup).trap == Some(run.stop.trap)
    decreases budget
  {
    hide Step;
    if Step(core, setup).trap.None? {
      TrapsAreRepeatable(Step(core, setup).core, setup, budget - 1);
    } else {
      StepTrapsPrecisely(core, setup);
      TrapsFollowTheMachine(core, Step(core, setup).core, setup);
    }
  }

  /** Tracing observes a run without changing it. */
  lemma {:induction false} TracingIsInvisible(traced: Core, quiet: Core, decode: Decoder, budget: nat)
    requires traced.machine == quiet.machine && traced.icount == quiet.icount
    ensures
      var a, b := Run(traced, Setup(decode, true), budget), Run(quiet, Setup(decode, false), budget);
      a.stop == b.stop && a.core.machine == b.core.machine && a.core.icount == b.core.icount
    decreases budget
  {
    hide Execute, Deltas;
    if budget == 0 {
    } else {
      var a, b := Step(traced, Setup(decode, true)), Step(quiet, Setup(decode, false));
      assert a.trap == b.trap && a.core.machine == b.core.machine && a.core.icount == b.core.icount;
      if a.trap.None? {
        TracingIsInvisible(a.core, b.core, decode, budget - 1);
      }
    }
  }

  // ----- replaying a trace -----

  /** What can happen between two blocks: a step, a host's write to the machine, an exception report. */
  datatype Action =
    | TakeStep
    | HostWrite(machine: Machine)
    | ReportException(fromPc: Word, toPc: Word, discon: DisconType)

  function Perform(core: Core, decode: Decoder, action: Action): Core {
    var setup := Setup(decode, true);
    match action
    case TakeStep => Step(core, setup).core
    case HostWrite(machine) => core.(machine := machine)
    case ReportException(fromPc, toPc, discon) => AfterException(core, setup, fromPc, toPc, discon)
  }

  function PerformAll(core: Core, decode: Decoder, actions: seq<Action>): Core {
    if actions == [] then core
    else Perform(PerformAll(core, decode, actions[..|actions| - 1]), decode, actions[|actions| - 1])
  }

  /** The registers and count on entry to a block. */
  datatype Entry = Entry(regs: RegFile, icount: nat)

  /** What an action enters: a step whose fetch succeeds enters a block. */
  function Entered(core: Core, action: Action): seq<Entry> {
    if action.TakeStep? && FetchWord(core.machine.memory, core.machine.regs.pc).Some? then
      [Entry(core.machine.regs, core.icount)]
    else []
  }

  /** The true state on entry to each block. */
  function Entries(core: Core, decode: Decoder, actions: seq<Action>): seq<Entry> {
    if actions == [] then []
    else
      var before := PerformAll(core, decode, actions[..|actions| - 1]);
      Entries(core, decode, actions[..|actions| - 1]) + Entered(before, actions[|actions| - 1])
  }

  function Blocks(events: seq<Event>): seq<Event> {
    if events == [] then []
    else
      var last := events[|events| - 1];
      Blocks(events[..|events| - 1]) + if last.Block? then [last] else []
  }

  /** A reader that starts knowing nothing, after the deltas of a sequence of block records. */
  function Replay(blocks: seq<Event>): TraceState {
    if blocks == [] then map[]
    else
      var before, last := Replay(blocks[..|blocks| - 1]), blocks[|blocks| - 1];
      if last.Block? then Apply(before, last.deltas) else before
  }

  lemma BlocksOfAppend(events: seq<Event>, event: Event)
    ensures Blocks(events + [event]) == Blocks(events) + if event.Block? then [event] else []
  {
    assert (events + [event])[..|events|] == events;
  }

  /** Whether a stop came from an instruction that was fetched, and so recorded, but did not retire. */
  predicate StoppedExecuting(stop: Stop) {
    stop.Trapped? && !stop.trap.InstructionAbort?
  }

  lemma StepRecords(core: Core, setup: Setup)
    requires setup.tracing
    ensures
      var stepped := Step(core, setup);
      var isRecordedOnly := stepped.trap.Some? && !stepped.trap.value.InstructionAbort?;
      |Blocks(stepped.core.emitted)| - |Blocks(core.emitted)|
      == stepped.core.icount - core.icount + if isRecordedOnly then 1 else 0
  {
    hide Execute, Deltas, Blocks;
    var regs := core.machine.regs;
    BlocksOfAppend(core.emitted, Block(regs.pc, core.icount, Deltas(core.previous, regs)));
    var word := FetchWord(core.machine.memory, regs.pc);
    if word.Some? && Execute(core.machine, setup.decode(word.value), regs.pc).Raised? {
      ExecutionNeverAborts(core.machine, setup.decode(word.value), regs.pc);
    }
  }

  /**
   A traced run emits one block record for each instruction it retires, and one more if it stops on
   an instruction that was fetched but trapped.
   */
  lemma {:induction false} RecordsOfRun(core: Core, setup: Setup, budget: nat)
    requires setup.tracing
    ensures
      var run := Run(core, setup, budget);
      |Blocks(run.core.emitted)| - |Blocks(core.emitted)|
      == run.core.icount - core.icount + if StoppedExecuting(run.stop) then 1 else 0
    decreases budget
  {
    hide Step, Blocks;
    if budget == 0 {
    } else {
      StepRecords(core, setup);
      StepTrapsPrecisely(core, setup);
      if Step(core, setup).trap.None? {
        RecordsOfRun(Step(core, setup).core, setup, budget - 1);
      }
    }
  }

  /** Records and retired instructions correspond one to one exactly when no instruction trapped while executing. */
  lemma OneRecordPerRetiredIff(core: Core, setup: Setup, budget: nat)
    requires setup.tracing
    ensures
      var run := Run(core, setup, budget);
      |Blocks(run.core.emitted)| - |Blocks(core.emitted)| == run.core.icount - core.icount
      <==> !StoppedExecuting(run.stop)
  {
    hide Run, Blocks;
    RecordsOfRun(core, setup, budget);
  }

  /** A record of an instruction that never retires: the first word of memory decodes to nothing executable. */
  lemma TrappedInstructionIsRecorded() returns (core: Core, setup: Setup)
    ensures setup.tracing && core.icount == 0 && core.emitted == []
    ensures
      var run := Run(core, setup, 1);
      run.stop.Trapped? && run.core.icount == 0 && |Blocks(run.core.emitted)| == 1
  {
    hide FromLe, Deltas;
    var undefined: Instruction := DecodedWord(Unimplemented, OtherForm, X64, false, 0);
    setup := Setup(_ => undefined, true);
    var regs: RegFile := RESET_REGISTERS.(pc := PHYS_RAM_BASE);
    core := Core(Machine(regs, Contents(PHYS_RAM_BASE, Zeros(4))), 0, None, []);
    assert FetchWord(core.machine.memory, PHYS_RAM_BASE).Some?;
    RecordsOfRun(core, setup, 1);
    NoEventsNoBlocks();
  }

  /** Block records up to each point replay to the true state at that point. */
  ghost predicate Faithful(blocks: seq<Event>, entries: seq<Entry>) {
    && |blocks| == |entries|
    && (forall k: nat :: k < |blocks| ==> Replay(blocks[..k + 1]) == Visible(entries[k].regs))
    && (forall k: nat :: k < |blocks| ==>
          blocks[k].Block? && blocks[k].pc == entries[k].regs.pc && blocks[k].icount == entries[k].icount)
  }

  /** The shadow state, when there is one, is the state at the last block entered. */
  predicate Shadows(previous: Option<RegFile>, entries: seq<Entry>) {
    previous.Some? ==> entries != [] && entries[|entries| - 1].regs == previous.value
  }

  lemma VisibleIsKnown(regs: RegFile)
    ensures Knows(Visible(regs), Some(regs))
    ensures forall other: RegFile :: Visible(other) + Visible(regs) == Visible(regs)
    ensures map[] + Visible(regs) == Visible(regs)
  {
    hide TraceValue;
  }

  /** Emitting a block extends a faithful trace faithfully. */
  lemma EmissionIsFaithful(blocks: seq<Event>, entries: seq<Entry>, previous: Option<RegFile>, entry: Entry)
    requires Faithful(blocks, entries) && Shadows(previous, entries)
    ensures Faithful(blocks + [Block(entry.regs.pc, entry.icount, Deltas(previous, entry.regs))], entries + [entry])
  {
    hide Deltas, Apply, Visible, Knows;
    var block := Block(entry.regs.pc, entry.icount, Deltas(previous, entry.regs));
    var n := |blocks|;
    var all := blocks + [block];
    assert all[..n] == blocks && all[..n + 1] == all;
    VisibleIsKnown(entry.regs);
    if n > 0 {
      assert blocks[..n] == blocks;
      assert Replay(blocks) == Visible(entries[n - 1].regs);
      VisibleIsKnown(entries[n - 1].regs);
    }
    NothingKnown(Replay(blocks));
    ReplayIsExact(Replay(blocks), previous, entry.regs);
    forall k: nat | k < n ensures Replay(all[..k + 1]) == Visible(entries[k].regs) {
      assert all[..k + 1] == blocks[..k + 1];
    }
  }

  lemma NothingKnown(state: TraceState)
    ensures Knows(state, None)
  {
  }

  /** Each action keeps the trace faithful. */
  lemma ActionIsFaithful(core: Core, decode: Decoder, action: Action, entries: seq<Entry>)
    requires Faithful(Blocks(core.emitted), entries) && Shadows(core.previous, entries)
    ensures
      var after := Perform(core, decode, action);
      && Faithful(Blocks(after.emitted), entries + Entered(core, action))
      && Shadows(after.previous, entries + Entered(core, action))
  {
    hide Faithful, FetchWord, Execute, Deltas, Blocks;
    assert Blocks(core.emitted) + [] == Blocks(core.emitted) && entries + [] == entries;
    match action {
      case TakeStep =>
        var regs := core.machine.regs;
        if FetchWord(core.machine.memory, regs.pc).Some? {
          EmissionIsFaithful(Blocks(core.emitted), entries, core.previous, Entry(regs, core.icount));
          BlocksOfAppend(core.emitted, Block(regs.pc, core.icount, Deltas(core.previous, regs)));
        }
      case HostWrite(_) =>
      case ReportException(fromPc, toPc, discon) =>
        BlocksOfAppend(core.emitted, ExceptionEntry(core.icount, fromPc, toPc, discon, core.machine.regs));
    }
  }

  /**
   Over any run mixing steps, host writes and exception reports, from a CPU with no shadow state,
   there is one block record for each block entered, and applying the records' deltas in order gives
   exactly the visible state on entry to each.
   */
  lemma {:induction false} ReplayReconstructs(core: Core, decode: Decoder, actions: seq<Action>)
    requires core.previous.None? && Blocks(core.emitted) == []
    ensures
      var final := PerformAll(core, decode, actions);
      var entries := Entries(core, decode, actions);
      Faithful(Blocks(final.emitted), entries) && Shadows(final.previous, entries)
  {
    hide Faithful, Perform, Entered, Blocks;
    if actions == [] {
      EmptyIsFaithful();
    } else {
      var n := |actions| - 1;
      ReplayReconstructs(core, decode, actions[..n]);
      ActionIsFaithful(PerformAll(core, decode, actions[..n]), decode, actions[n], Entries(core, decode, actions[..n]));
    }
  }

  lemma NoEventsNoBlocks()
    ensures Blocks([]) == []
  {
  }

  lemma EmptyIsFaithful()
    ensures Faithful([], [])
  {
  }
}
