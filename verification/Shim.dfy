/**
 The supervisor-call resume loop (crates/core/src/shim/mod.rs).

 What a system call does is a parameter: a function from the host's state, guest memory, the call
 number and its arguments to a reply.  A reply changes guest memory only by writes through the
 bounds check, so it can neither move nor resize the mapped window, and it never touches PC or the
 instruction count.
 */
module SyscallShim {
  import opened Options
  import opened Bits
  import opened Registers
  import opened Instructions
  import opened Memory
  import D = Dispatch
  import S = Stepping
  import opened Interpreter

  const UNHANDLED_CAPACITY: nat := 32

  datatype GuestWrite = GuestWrite(address: Word, data: seq<Byte>)

  datatype Reply<H> =
    | Returned(host: H, writes: seq<GuestWrite>, value: Word, isImplemented: bool)
    | Exits(host: H, status: int)

  /** A personality: what each call does, given the host, memory, the number and six arguments. */
  type Personality<!H> = (H, Image, Word, seq<Word>) -> Reply<H>

  datatype ShimExit = Exited(status: int) | ShimTrapped(trap: Trap) | ShimBudgetExhausted

  datatype ShimState<H> = ShimState(core: S.Core, host: H, unhandled: seq<Word>)

  datatype Serviced<H> = Serviced(exit: Option<int>, state: ShimState<H>)

  datatype ShimResult<H> = ShimResult(exit: ShimExit, state: ShimState<H>)

  function ApplyWrites(m: Image, writes: seq<GuestWrite>): Image {
    if writes == [] then m
    else
      var before, last := ApplyWrites(m, writes[..|writes| - 1]), writes[|writes| - 1];
      match WriteBytes(before, last.address, last.data)
      case Fault(_, _) => before
      case Done(written) => written
  }

  function Recorded(unhandled: seq<Word>, number: Word): seq<Word> {
    if number in unhandled || |unhandled| >= UNHANDLED_CAPACITY then unhandled else unhandled + [number]
  }

  function CallNumber(regs: RegFile): Word {
    ReadX(regs, X(8))
  }

  function CallArguments(regs: RegFile): seq<Word> {
    [ReadX(regs, X(0)), ReadX(regs, X(1)), ReadX(regs, X(2)), ReadX(regs, X(3)), ReadX(regs, X(4)), ReadX(regs, X(5))]
  }

  /** One supervisor call; PC is left on the `SVC`. */
  function Service<H>(s: ShimState<H>, call: Personality<H>): Serviced<H> {
    var m := s.core.machine;
    match call(s.host, m.memory, CallNumber(m.regs), CallArguments(m.regs))
    case Exits(host, status) => Serviced(Some(status), s.(host := host))
    case Returned(host, writes, value, isImplemented) =>
      var machine := D.Machine(WriteX(m.regs, X(0), value), ApplyWrites(m.memory, writes));
      Serviced(None, ShimState(s.core.(machine := machine), host,
                               if isImplemented then s.unhandled else Recorded(s.unhandled, CallNumber(m.regs))))
  }

  function Resumed<H>(s: ShimState<H>, pc: Word): ShimState<H> {
    s.(core := s.core.(machine := s.core.machine.(regs := D.WithPc(s.core.machine.regs, D.NextPc(pc)))))
  }

  /** The mapped bytes from PC up, when the word at PC is mapped. */
  function MappedAbove(m: Image, pc: Word): nat {
    if m.base <= pc && pc + 4 <= m.base + |m.bytes| then m.base + |m.bytes| - pc else 0
  }

  /** A serviced call moves PC up inside the mapped window, or out of it. */
  lemma ResumingMovesUp(m: Image, pc: Word)
    requires IsMapped(m, pc, 4)
    ensures MappedAbove(m, D.NextPc(pc)) < MappedAbove(m, pc)
  {
  }

  lemma {:induction false} WritesKeepWindow(m: Image, writes: seq<GuestWrite>)
    ensures S.SameWindow(ApplyWrites(m, writes), m)
  {
    if writes == [] {
    } else {
      WritesKeepWindow(m, writes[..|writes| - 1]);
      hide ApplyWrites;
    }
  }

  /** A run that stops on a supervisor call fetched it: the word at PC is mapped. */
  lemma {:induction false} CallIsMapped(core: S.Core, setup: S.Setup, budget: nat)
    requires
      var run := S.Run(core, setup, budget);
      run.stop.Trapped? && run.stop.trap.SupervisorCall?
    ensures
      var run := S.Run(core, setup, budget);
      IsMapped(run.core.machine.memory, run.core.machine.regs.pc, 4)
    decreases budget
  {
    hide S.Step;
    var stepped := S.Step(core, setup);
    if stepped.trap.None? {
      CallIsMapped(stepped.core, setup, budget - 1);
    } else {
      CallWasFetched(core, setup);
    }
  }

  lemma CallWasFetched(core: S.Core, setup: S.Setup)
    requires S.Step(core, setup).trap.Some? && S.Step(core, setup).trap.value.SupervisorCall?
    ensures IsMapped(S.Step(core, setup).core.machine.memory, S.Step(core, setup).core.machine.regs.pc, 4)
  {
    S.StepTrapsPrecisely(core, setup);
    hide D.Execute;
  }

  /** Servicing changes neither the count nor PC nor the window. */
  lemma ServiceKeeps<H>(s: ShimState<H>, call: Personality<H>)
    ensures
      var after := Service(s, call).state.core;
      && after.icount == s.core.icount
      && after.machine.regs.pc == s.core.machine.regs.pc
      && S.SameWindow(after.machine.memory, s.core.machine.memory)
  {
    var m := s.core.machine;
    match call(s.host, m.memory, CallNumber(m.regs), CallArguments(m.regs)) {
      case Exits(_, _) =>
      case Returned(_, writes, _, _) => WritesKeepWindow(m.memory, writes);
    }
  }

  // ----- what a serviced call does -----

  /** A write within the mapped window that covers `address`. */
  predicate Lands(m: Image, write: GuestWrite, address: nat) {
    IsMapped(m, write.address, |write.data|) && write.address <= address < write.address + |write.data|
  }

  ghost predicate NoneLands(m: Image, writes: seq<GuestWrite>, address: nat) {
    forall k: nat :: k < |writes| ==> !Lands(m, writes[k], address)
  }

  /** Write `k` is the last of those within the window to cover `address`. */
  ghost predicate LandsLast(m: Image, writes: seq<GuestWrite>, k: nat, address: nat) {
    k < |writes| && Lands(m, writes[k], address) && NoneLands(m, writes[k + 1..], address)
  }

  /** Every byte is the one the last write within the window put there, or as it was if there is none. */
  ghost predicate IsWritten(before: Image, writes: seq<GuestWrite>, after: Image) {
    && after.base == before.base && |after.bytes| == |before.bytes|
    && forall i: nat :: i < |after.bytes| ==>
         && (NoneLands(before, writes, before.base + i) ==> after.bytes[i] == before.bytes[i])
         && forall k: nat :: LandsLast(before, writes, k, before.base + i) ==>
              after.bytes[i] == writes[k].data[before.base + i - writes[k].address]
  }

  /** One write: wholly within the window, or nothing. */
  lemma OneWrite(m: Image, write: GuestWrite)
    ensures
      var written := WriteBytes(m, write.address, write.data);
      && (written.Done? <==> IsMapped(m, write.address, |write.data|))
      && (written.Done? ==>
            && S.SameWindow(written.value, m)
            && forall i: nat :: i < |m.bytes| ==>
                 written.value.bytes[i]
                 == if Lands(m, write, m.base + i) then write.data[m.base + i - write.address] else m.bytes[i])
  {
  }

  lemma NoneLandsAppend(m: Image, writes: seq<GuestWrite>, last: GuestWrite, address: nat)
    ensures NoneLands(m, writes + [last], address) <==> NoneLands(m, writes, address) && !Lands(m, last, address)
  {
    hide Lands;
    var all := writes + [last];
    assert all[|writes|] == last;
    assert forall k: nat :: k < |writes| ==> all[k] == writes[k];
  }

  lemma LandsLastAppend(m: Image, writes: seq<GuestWrite>, last: GuestWrite, k: nat, address: nat)
    ensures LandsLast(m, writes + [last], k, address)
       <==> if k == |writes| then Lands(m, last, address) else LandsLast(m, writes, k, address) && !Lands(m, last, address)
  {
    hide Lands;
    var all := writes + [last];
    if k < |writes| {
      assert all[k + 1..] == writes[k + 1..] + [last];
      NoneLandsAppend(m, writes[k + 1..], last, address);
    } else if k == |writes| {
      assert all[k + 1..] == [];
    }
  }

  /** The writes of a reply: out-of-window ones do nothing, later ones win. */
  lemma {:induction false} ApplyWritesMeaning(m: Image, writes: seq<GuestWrite>)
    ensures IsWritten(m, writes, ApplyWrites(m, writes))
  {
    if writes == [] {
    } else {
      var n := |writes| - 1;
      var before, last := ApplyWrites(m, writes[..n]), writes[n];
      assert writes == writes[..n] + [last];
      ApplyWritesMeaning(m, writes[..n]);
      OneWrite(before, last);
      OneMoreWrite(m, writes[..n], before, last, ApplyWrites(m, writes));
    }
  }

  lemma OneMoreWrite(m: Image, writes: seq<GuestWrite>, before: Image, last: GuestWrite, after: Image)
    requires IsWritten(m, writes, before) && S.SameWindow(after, before)
    requires forall i: nat :: i < |m.bytes| ==>
               after.bytes[i] == if Lands(m, last, m.base + i) then last.data[m.base + i - last.address] else before.bytes[i]
    ensures IsWritten(m, writes + [last], after)
  {
    hide NoneLands, IsMapped;
    var all := writes + [last];
    forall i: nat | i < |after.bytes|
      ensures NoneLands(m, all, m.base + i) ==> after.bytes[i] == m.bytes[i]
    {
      NoneLandsAppend(m, writes, last, m.base + i);
    }
    forall i: nat, k: nat | i < |after.bytes| && LandsLast(m, all, k, m.base + i)
      ensures after.bytes[i] == all[k].data[m.base + i - all[k].address]
    {
      LandsLastAppend(m, writes, last, k, m.base + i);
    }
  }

  /**
   What servicing one supervisor call means.  The personality is asked with x8 and with x0 to x5 in that
   order.  If it returns, x0 gets the value and no other register changes, memory holds its writes, and a
   number it does not implement joins the log of at most 32 distinct ones; if it exits, its status is
   passed on and only the host has changed.
   */
  ghost predicate IsServiced<H>(before: ShimState<H>, call: Personality<H>, after: Serviced<H>) {
    var m := before.core.machine;
    var number := ReadX(m.regs, X(8));
    var arguments: seq<Word> := seq(6, k requires 0 <= k < 6 => ReadX(m.regs, X(k)));
    var reply := call(before.host, m.memory, number, arguments);
    var now := after.state;
    && now.host == reply.host
    && now.core == before.core.(machine := now.core.machine)
    && match reply
       case Exits(_, status) =>
         after.exit == Some(status) && now.core.machine == m && now.unhandled == before.unhandled
       case Returned(_, writes, value, isImplemented) =>
         var regs := now.core.machine.regs;
         && after.exit == None
         && (forall reg: Gpr :: ReadX(regs, reg) == if reg == X(0) then value else ReadX(m.regs, reg))
         && regs == m.regs.(x := regs.x, sp := regs.sp)
         && IsWritten(m.memory, writes, now.core.machine.memory)
         && now.unhandled == if isImplemented || number in before.unhandled || |before.unhandled| >= 32 then before.unhandled
                             else before.unhandled + [number]
  }

  lemma ServiceMeaning<H>(s: ShimState<H>, call: Personality<H>)
    ensures IsServiced(s, call, Service(s, call))
  {
    hide ApplyWrites, IsWritten, ReadX, WriteX;
    var m := s.core.machine;
    assert seq(6, k requires 0 <= k < 6 => ReadX(m.regs, X(k))) == CallArguments(m.regs);
    match call(s.host, m.memory, CallNumber(m.regs), CallArguments(m.regs)) {
      case Exits(_, _) =>
      case Returned(_, writes, _, _) => ApplyWritesMeaning(m.memory, writes);
    }
  }

  /** After a serviced call, fewer instructions remain or less mapped memory lies above PC. */
  lemma ResumptionDecreases<H>(s: ShimState<H>, setup: S.Setup, call: Personality<H>, deadline: nat)
    requires s.core.icount < deadline
    requires
      var run := S.Run(s.core, setup, deadline - s.core.icount);
      run.stop.Trapped? && run.stop.trap.SupervisorCall?
    ensures
      var run := S.Run(s.core, setup, deadline - s.core.icount);
      var serviced := Service(s.(core := run.core), call).state;
      var next := Resumed(serviced, run.stop.trap.pc).core;
      && s.core.icount <= next.icount < deadline
      && S.SameWindow(next.machine.memory, s.core.machine.memory)
      && (next.icount == s.core.icount ==>
            MappedAbove(next.machine.memory, next.machine.regs.pc)
            < MappedAbove(s.core.machine.memory, s.core.machine.regs.pc))
  {
    hide S.Run, Service, MappedAbove;
    var budget := deadline - s.core.icount;
    var run := S.Run(s.core, setup, budget);
    S.RunRetires(s.core, setup, budget);
    CallIsMapped(s.core, setup, budget);
    ServiceKeeps(s.(core := run.core), call);
    ResumingMovesUp(run.core.machine.memory, run.core.machine.regs.pc);
    MappedAboveWindow(Service(s.(core := run.core), call).state.core.machine.memory, run.core.machine.memory,
                      D.NextPc(run.core.machine.regs.pc));
  }

  lemma MappedAboveWindow(a: Image, b: Image, pc: Word)
    requires S.SameWindow(a, b)
    ensures MappedAbove(a, pc) == MappedAbove(b, pc)
  {
  }

  /** The resume loop: each supervisor call is serviced and stepped over, anything else ends it. */
  function RunShim<H>(s: ShimState<H>, setup: S.Setup, call: Personality<H>, deadline: nat): ShimResult<H>
    decreases if s.core.icount < deadline then deadline - s.core.icount else 0,
              MappedAbove(s.core.machine.memory, s.core.machine.regs.pc)
  {
    if s.core.icount >= deadline then ShimResult(ShimBudgetExhausted, s)
    else
      var run := S.Run(s.core, setup, deadline - s.core.icount);
      var stopped := s.(core := run.core);
      match run.stop
      case BudgetExhausted => ShimResult(ShimBudgetExhausted, stopped)
      case Trapped(trap) =>
        if trap.SupervisorCall? then
          var serviced := Service(stopped, call);
          if serviced.exit.Some? then ShimResult(Exited(serviced.exit.value), serviced.state)
          else
            ResumptionDecreases(s, setup, call, deadline);
            RunShim(Resumed(serviced.state, trap.pc), setup, call, deadline)
        else ShimResult(ShimTrapped(trap), stopped)
  }

  /** The budget against the lifetime count, saturating at the largest count. */
  function Deadline(icount: nat, budget: nat): nat {
    if icount + budget < WORD_LIMIT then icount + budget else WORD_LIMIT - 1
  }

  /**
   However often the guest calls, no more instructions retire than the deadline allows, and the run
   reports an exhausted budget exactly when it reached the deadline.  Traps the shim passes on are
   never supervisor calls, and PC is left on the instruction that stopped it.
   */
  lemma {:induction false} ShimStopsInTime<H>(s: ShimState<H>, setup: S.Setup, call: Personality<H>, deadline: nat)
    requires s.core.icount <= deadline
    ensures
      var result := RunShim(s, setup, call, deadline);
      && s.core.icount <= result.state.core.icount <= deadline
      && (result.exit.ShimBudgetExhausted? <==> result.state.core.icount == deadline)
      && (result.exit.ShimTrapped? ==>
            !result.exit.trap.SupervisorCall? && D.TrapPc(result.exit.trap) == result.state.core.machine.regs.pc)
      && S.SameWindow(result.state.core.machine.memory, s.core.machine.memory)
    decreases deadline - s.core.icount, MappedAbove(s.core.machine.memory, s.core.machine.regs.pc)
  {
    hide S.Run, Service, MappedAbove, D.TrapPc;
    if s.core.icount < deadline {
      var budget := deadline - s.core.icount;
      var run := S.Run(s.core, setup, budget);
      S.RunRetires(s.core, setup, budget);
      if run.stop.Trapped? && run.stop.trap.SupervisorCall? {
        var serviced := Service(s.(core := run.core), call);
        ServiceKeeps(s.(core := run.core), call);
        if serviced.exit.None? {
          ResumptionDecreases(s, setup, call, deadline);
          ShimStopsInTime(Resumed(serviced.state, run.stop.trap.pc), setup, call, deadline);
        }
      }
    }
  }

  /**
   How a run ends is what the guest did last: a trap the shim passes on is the one the final state's next
   step raises, and an exit is the answer the personality gave to a call made from the final registers
   and memory, by an instruction PC is still on.
   */
  lemma {:induction false} ShimEndsAsTheGuestDid<H>(s: ShimState<H>, setup: S.Setup, call: Personality<H>, deadline: nat)
    returns (asked: ShimState<H>)
    ensures
      var result := RunShim(s, setup, call, deadline);
      var next := S.Step(result.state.core, setup).trap;
      && (result.exit.ShimTrapped? ==> next == Some(result.exit.trap))
      && (result.exit.Exited? ==>
            && next.Some? && next.value.SupervisorCall?
            && asked.core == result.state.core
            && IsServiced(asked, call, Serviced(Some(result.exit.status), result.state)))
    decreases if s.core.icount < deadline then deadline - s.core.icount else 0,
              MappedAbove(s.core.machine.memory, s.core.machine.regs.pc)
  {
    hide S.Run, S.Step, Service, Resumed, MappedAbove, IsServiced;
    asked := s;
    if s.core.icount < deadline {
      ResumeStep(s, setup, call, deadline);
      var run := S.Run(s.core, setup, deadline - s.core.icount);
      if run.stop.Trapped? {
        S.TrapsAreRepeatable(s.core, setup, deadline - s.core.icount);
        asked := s.(core := run.core);
        var serviced := Service(asked, call);
        if run.stop.trap.SupervisorCall? {
          ServiceMeaning(asked, call);
          if serviced.exit.Some? {
            ExitChangesTheHost(asked, call);
          } else {
            asked := ShimEndsAsTheGuestDid(Resumed(serviced.state, run.stop.trap.pc), setup, call, deadline);
          }
        }
      }
    } else {
      AtDeadline(s, setup, call, deadline);
    }
  }

  lemma ExitChangesTheHost<H>(s: ShimState<H>, call: Personality<H>)
    requires Service(s, call).exit.Some?
    ensures Service(s, call).state.core == s.core
  {
  }

  /** Running to one deadline and, if it is reached, on to a later one is running to the later one. */
  lemma {:induction false} ShimRunsCompose<H>(s: ShimState<H>, setup: S.Setup, call: Personality<H>, first: nat, second: nat)
    requires s.core.icount <= first <= second
    ensures
      var early := RunShim(s, setup, call, first);
      RunShim(s, setup, call, second)
      == if early.exit.ShimBudgetExhausted? then RunShim(early.state, setup, call, second) else early
    decreases first - s.core.icount, MappedAbove(s.core.machine.memory, s.core.machine.regs.pc)
  {
    hide S.Run, Service, MappedAbove;
    if s.core.icount < first {
      var budget := first - s.core.icount;
      var run := S.Run(s.core, setup, budget);
      S.RunRetires(s.core, setup, budget);
      S.RunsCompose(s.core, setup, budget, second - first);
      if run.stop.BudgetExhausted? {
        ReachesDeadline(s, setup, call, first, second);
      } else if run.stop.trap.SupervisorCall? {
        var serviced := Service(s.(core := run.core), call);
        if serviced.exit.None? {
          ResumptionDecreases(s, setup, call, first);
          ShimRunsCompose(Resumed(serviced.state, run.stop.trap.pc), setup, call, first, second);
        }
      }
    }
  }

  /** A run that reaches the first deadline without a trap carries on from there. */
  lemma ReachesDeadline<H>(s: ShimState<H>, setup: S.Setup, call: Personality<H>, first: nat, second: nat)
    requires s.core.icount < first <= second
    requires S.Run(s.core, setup, first - s.core.icount).stop.BudgetExhausted?
    ensures
      var run := S.Run(s.core, setup, first - s.core.icount);
      RunShim(s, setup, call, second) == RunShim(s.(core := run.core), setup, call, second)
  {
    hide S.Run, Service, MappedAbove;
    var run := S.Run(s.core, setup, first - s.core.icount);
    S.RunRetires(s.core, setup, first - s.core.icount);
    S.RunsCompose(s.core, setup, first - s.core.icount, second - first);
    RunNothing(run.core, setup);
  }

  lemma RunNothing(core: S.Core, setup: S.Setup)
    ensures S.Run(core, setup, 0) == S.RunResult(S.BudgetExhausted, core)
  {
  }

  // ----- unimplemented calls -----

  predicate NoRepeats(s: seq<Word>) {
    forall i: nat, j: nat :: i < j < |s| ==> s[i] != s[j]
  }

  /** The log a sequence of unimplemented calls leaves. */
  function LogOf(numbers: seq<Word>): seq<Word> {
    if numbers == [] then [] else Recorded(LogOf(numbers[..|numbers| - 1]), numbers[|numbers| - 1])
  }

  /** The log never repeats a number, never overflows, and misses a number only when it is full. */
  lemma {:induction false} LogIsBoundedAndDistinct(numbers: seq<Word>)
    ensures NoRepeats(LogOf(numbers)) && |LogOf(numbers)| <= UNHANDLED_CAPACITY
    ensures forall n: Word :: n in LogOf(numbers) ==> n in numbers
    ensures |LogOf(numbers)| < UNHANDLED_CAPACITY ==> forall n: Word :: n in numbers ==> n in LogOf(numbers)
  {
    if numbers == [] {
    } else {
      var before := numbers[..|numbers| - 1];
      LogIsBoundedAndDistinct(before);
      assert numbers == before + [numbers[|numbers| - 1]];
    }
  }

  // ----- the shim object -----

  function Values(entries: seq<Option<Word>>): seq<Word>
    requires forall i: nat :: i < |entries| ==> entries[i].Some?
  {
    seq(|entries|, i requires 0 <= i < |entries| && entries[i].Some? => entries[i].value)
  }

  method PerformWrites(memory: FlatMemory, writes: seq<GuestWrite>)
    requires memory.Valid()
    modifies memory
    ensures memory.Valid() && memory.Image() == ApplyWrites(old(memory.Image()), writes)
  {
    for i := 0 to |writes|
      invariant memory.Valid() && memory.Image() == ApplyWrites(old(memory.Image()), writes[..i])
    {
      assert writes[..i + 1][..i] == writes[..i];
      var _ := memory.Write(writes[i].address, writes[i].data);
    }
    assert writes[..|writes|] == writes;
  }

  class Shim<!H> {
    var host: H
    const call: Personality<H>
    const unhandled: array<Option<Word>>
    var unhandledCount: nat

    ghost predicate Valid()
      reads this, unhandled
    {
      && unhandled.Length == UNHANDLED_CAPACITY && unhandledCount <= UNHANDLED_CAPACITY
      && forall i: nat :: i < unhandledCount ==> unhandled[i].Some?
    }

    ghost function Unhandled(): seq<Word>
      requires Valid()
      reads this, unhandled
    {
      Values(unhandled[..unhandledCount])
    }

    ghost function Snapshot(cpu: Cpu): ShimState<H>
      requires Valid() && cpu.Valid()
      reads this, unhandled, cpu.Repr()
    {
      ShimState(cpu.Snapshot(), host, Unhandled())
    }

    constructor (host: H, call: Personality<H>)
      ensures Valid() && fresh(unhandled)
      ensures this.host == host && this.call == call && Unhandled() == []
    {
      this.host, this.call := host, call;
      unhandled := new Option<Word>[UNHANDLED_CAPACITY](_ => None);
      unhandledCount := 0;
    }

    /** Adds a number to the log of calls without an implementation. */
    method RecordUnhandled(number: Word)
      requires Valid()
      modifies this`unhandledCount, unhandled
      ensures Valid()
      ensures Unhandled() == Recorded(old(Unhandled()), number)
    {
      var i := 0;
      while i < unhandledCount
        invariant 0 <= i <= unhandledCount
        invariant forall j: nat :: j < i ==> unhandled[j] != Some(number)
      {
        if unhandled[i] == Some(number) {
          assert Unhandled()[i] == number;
          return;
        }
        i := i + 1;
      }
      assert number !in Unhandled();
      if unhandledCount < UNHANDLED_CAPACITY {
        unhandled[unhandledCount] := Some(number);
        unhandledCount := unhandledCount + 1;
        assert Unhandled() == old(Unhandled()) + [number];
      }
    }

    /** One supervisor call, in place; a status means the guest is done. */
    method ServiceCall(cpu: Cpu) returns (exit: Option<int>)
      requires Valid() && cpu.Valid()
      modifies this`host, this`unhandledCount, unhandled, cpu`regs, cpu.memory
      ensures Valid() && cpu.Valid()
      ensures Serviced(exit, Snapshot(cpu)) == Service(old(Snapshot(cpu)), call)
      ensures IsServiced(old(Snapshot(cpu)), call, Serviced(exit, Snapshot(cpu)))
    {
      hide ApplyWrites, Recorded, Values, CallNumber, CallArguments, WriteX, IsServiced;
      ServiceMeaning(Snapshot(cpu), call);
      var number := CallNumber(cpu.regs);
      var reply := call(host, cpu.memory.Image(), number, CallArguments(cpu.regs));
      host := reply.host;
      assert Unhandled() == old(Unhandled());
      match reply {
        case Exits(_, status) =>
          exit := Some(status);
        case Returned(_, writes, value, isImplemented) =>
          PerformWrites(cpu.memory, writes);
          if !isImplemented {
            RecordUnhandled(number);
          }
          cpu.regs := WriteX(cpu.regs, X(0), value);
          exit := None;
      }
    }

    /** Advances PC past a serviced call: only the caller knows the guest is resuming. */
    method Resume(cpu: Cpu, pc: Word)
      requires Valid() && cpu.Valid()
      modifies cpu`regs
      ensures Valid() && cpu.Valid()
      ensures Snapshot(cpu) == Resumed(old(Snapshot(cpu)), pc)
      ensures cpu.regs == old(cpu.regs).(pc := (pc + 4) % WORD_LIMIT)
    {
      cpu.regs := cpu.regs.(pc := D.NextPc(pc));
    }

    /** The resume loop terminates for every guest, and computes the reference run to the deadline. */
    method Run(cpu: Cpu, budget: nat) returns (exit: ShimExit)
      requires Valid() && cpu.Valid() && cpu.icount < WORD_LIMIT
      modifies this, unhandled, cpu.Repr()
      ensures Valid() && cpu.Valid()
      ensures ShimResult(exit, Snapshot(cpu))
           == RunShim(old(Snapshot(cpu)), cpu.Setup(), call, Deadline(old(cpu.icount), budget))
      ensures old(cpu.icount) <= cpu.icount <= old(cpu.icount) + budget
      ensures cpu.icount < WORD_LIMIT
      ensures exit.ShimBudgetExhausted?
         <==> cpu.icount == if old(cpu.icount) + budget < WORD_LIMIT then old(cpu.icount) + budget else WORD_LIMIT - 1
    {
      hide S.Run, Service, MappedAbove, RunShim, D.TrapPc, Resumed, S.SameWindow, Values;
      var deadline := Deadline(cpu.icount, budget);
      ShimStopsInTime(Snapshot(cpu), cpu.Setup(), call, deadline);
      while cpu.icount < deadline
        invariant Valid() && cpu.Valid() && cpu.icount <= deadline
        invariant RunShim(old(Snapshot(cpu)), cpu.Setup(), call, deadline)
               == RunShim(Snapshot(cpu), cpu.Setup(), call, deadline)
        decreases deadline - cpu.icount, MappedAbove(cpu.memory.Image(), cpu.regs.pc)
      {
        ResumeStep(Snapshot(cpu), cpu.Setup(), call, deadline);
        var stop := cpu.Run(deadline - cpu.icount);
        match stop {
          case BudgetExhausted => return ShimBudgetExhausted;
          case Trapped(SupervisorCall(pc, _)) =>
            var status := ServiceCall(cpu);
            if status.Some? {
              return Exited(status.value);
            }
            Resume(cpu, pc);
          case Trapped(trap) => return ShimTrapped(trap);
        }
      }
      AtDeadline(Snapshot(cpu), cpu.Setup(), call, deadline);
      exit := ShimBudgetExhausted;
    }
  }

  lemma AtDeadline<H>(s: ShimState<H>, setup: S.Setup, call: Personality<H>, deadline: nat)
    requires s.core.icount >= deadline
    ensures RunShim(s, setup, call, deadline) == ShimResult(ShimBudgetExhausted, s)
  {
  }

  /** One turn of the loop, with the measure that makes it the last or a smaller one. */
  lemma ResumeStep<H>(s: ShimState<H>, setup: S.Setup, call: Personality<H>, deadline: nat)
    requires s.core.icount < deadline
    ensures
      var run := S.Run(s.core, setup, deadline - s.core.icount);
      var serviced := Service(s.(core := run.core), call);
      var result := RunShim(s, setup, call, deadline);
      && (run.stop.BudgetExhausted? ==> result == ShimResult(ShimBudgetExhausted, s.(core := run.core)))
      && (run.stop.Trapped? && !run.stop.trap.SupervisorCall? ==>
            result == ShimResult(ShimTrapped(run.stop.trap), s.(core := run.core)))
      && (run.stop.Trapped? && run.stop.trap.SupervisorCall? ==>
            var next := Resumed(serviced.state, run.stop.trap.pc);
            && (serviced.exit.Some? ==> result == ShimResult(Exited(serviced.exit.value), serviced.state))
            && (serviced.exit.None? ==> result == RunShim(next, setup, call, deadline))
            && s.core.icount <= next.core.icount < deadline
            && (next.core.icount == s.core.icount ==>
                  MappedAbove(next.core.machine.memory, next.core.machine.regs.pc)
                  < MappedAbove(s.core.machine.memory, s.core.machine.regs.pc)))
  {
    hide S.Run, Service, MappedAbove;
    var run := S.Run(s.core, setup, deadline - s.core.icount);
    if run.stop.Trapped? && run.stop.trap.SupervisorCall? {
      ResumptionDecreases(s, setup, call, deadline);
    }
  }
}
