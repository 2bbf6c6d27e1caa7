/**
 Trace events, and the register deltas a block record carries (crates/core/src/trace/sink.rs,
 crates/core/src/reg.rs, section 5 of TRACE_FORMAT for the ids).
 */
module TraceSink {
  import opened Options
  import opened Bits
  import opened Registers

  /** A stable register id: a 16-bit field on the wire. */
  type RegId = n: nat | n < 0x1_0000

  datatype RegDelta = RegDelta(id: RegId, value: Word)

  datatype MarkerKind = TraceStart | Reset | Annotation

  datatype EndReason = Normal | LimitReached | GuestHalt

  datatype DisconType = Interrupt | Exception | HostCall

  /** One call on the trace sink. */
  datatype Event =
    | Marker(kind: MarkerKind, icount: nat, value: Word)
    | Block(pc: Word, icount: nat, deltas: seq<RegDelta>)
    | ExceptionEntry(icount: nat, fromPc: Word, toPc: Word, discon: DisconType, regs: RegFile)
    | End(reason: EndReason, icount: nat)

  /** The most deltas a record's one-byte count can announce. */
  const MAX_DELTAS_PER_BLOCK: nat := 255

  const SP_ID: nat := 31
  const PC_ID: nat := 32
  const PSTATE_ID: nat := 33
  const FPCR_ID: nat := 34
  const FPSR_ID: nat := 35
  const NUM_SCALARS: nat := 36
  const V_BASE: nat := 64

  function VecLo(n: nat): nat {
    V_BASE + 2 * n
  }

  function VecHi(n: nat): nat {
    VecLo(n) + 1
  }

  function LowHalf(v: Quad): Word {
    v % WORD_LIMIT
  }

  function HighHalf(v: Quad): (h: Word)
    ensures v == h * WORD_LIMIT + LowHalf(v)
  {
    v / WORD_LIMIT
  }

  /** A fixed array of 255 slots and how many of them are in use. */
  class DeltaBuffer {
    const deltas: array<RegDelta>
    var len: nat

    predicate Valid()
      reads this
    {
      deltas.Length == MAX_DELTAS_PER_BLOCK && len <= MAX_DELTAS_PER_BLOCK
    }

    function Contents(): seq<RegDelta>
      requires Valid()
      reads this, deltas
    {
      deltas[..len]
    }

    constructor ()
      ensures Valid() && fresh(deltas) && Contents() == []
    {
      deltas := new RegDelta[MAX_DELTAS_PER_BLOCK](_ => RegDelta(0, 0));
      len := 0;
    }

    method Clear()
      requires Valid()
      modifies this
      ensures Valid() && Contents() == []
    {
      len := 0;
    }

    /** Adds a delta at the end; a full buffer stays as it is. */
    method Push(delta: RegDelta)
      requires Valid()
      modifies this, deltas
      ensures Valid()
      ensures Contents() == if |old(Contents())| < MAX_DELTAS_PER_BLOCK then old(Contents()) + [delta] else old(Contents())
    {
      if len < MAX_DELTAS_PER_BLOCK {
        deltas[len] := delta;
        len := len + 1;
      }
    }

    method PushIfChanged(id: RegId, value: Word, previous: Option<Word>)
      requires Valid() && |Contents()| < MAX_DELTAS_PER_BLOCK
      modifies this, deltas
      ensures Valid()
      ensures Contents() == old(Contents()) + IfChanged(id, value, previous)
    {
      if previous != Some(value) {
        Push(RegDelta(id, value));
      }
    }

    /** Collects what changed; the buffer has room for all of it, so nothing is discarded. */
    method DeltasBetween(previous: Option<RegFile>, current: RegFile)
      requires Valid()
      modifies this, deltas
      ensures Valid()
      ensures Contents() == Deltas(previous, current)
    {
      hide ScalarDeltas, VecDeltas, Scalars, IfChanged;
      Clear();
      NoScalars(previous, current);
      for index := 0 to NUM_GPR
        invariant Valid() && Contents() == ScalarDeltas(previous, current, index)
      {
        NextScalar(previous, current, index);
        PushIfChanged(index, current.x[index], Previously(previous, index));
      }
      NextScalar(previous, current, SP_ID);
      PushIfChanged(SP_ID, current.sp, Previously(previous, SP_ID));
      NextScalar(previous, current, PC_ID);
      PushIfChanged(PC_ID, current.pc, Previously(previous, PC_ID));
      NextScalar(previous, current, PSTATE_ID);
      PushIfChanged(PSTATE_ID, current.pstate.ToTraceWord(), Previously(previous, PSTATE_ID));
      NextScalar(previous, current, FPCR_ID);
      PushIfChanged(FPCR_ID, current.fpcr, Previously(previous, FPCR_ID));
      NextScalar(previous, current, FPSR_ID);
      PushIfChanged(FPSR_ID, current.fpsr, Previously(previous, FPSR_ID));
      PushVecDeltas(previous, current);
    }

    method PushVecDeltas(previous: Option<RegFile>, current: RegFile)
      requires Valid() && |Contents()| <= NUM_SCALARS
      modifies this, deltas
      ensures Valid()
      ensures Contents() == old(Contents()) + VecDeltas(previous, current, NUM_VEC)
    {
      hide VecDeltas, LowHalf, HighHalf;
      NoVecs(previous, current);
      for index := 0 to NUM_VEC
        invariant Valid() && Contents() == old(Contents()) + VecDeltas(previous, current, index)
      {
        NextVec(previous, current, index);
        var value := current.v[index];
        if !(previous.Some? && previous.value.v[index] == value) {
          Push(RegDelta(VecLo(index), LowHalf(value)));
          Push(RegDelta(VecHi(index), HighHalf(value)));
        }
      }
    }
  }

  // ----- deltas as a function of two snapshots -----

  /** The registers below the vector file, in id order. */
  function Scalars(regs: RegFile): (s: seq<Word>)
    ensures |s| == NUM_SCALARS
  {
    regs.x + [regs.sp, regs.pc, regs.pstate.ToTraceWord(), regs.fpcr, regs.fpsr]
  }

  function Previously(previous: Option<RegFile>, id: nat): Option<Word>
    requires id < NUM_SCALARS
  {
    if previous.Some? then Some(Scalars(previous.value)[id]) else None
  }

  function IfChanged(id: RegId, value: Word, previous: Option<Word>): seq<RegDelta> {
    if previous != Some(value) then [RegDelta(id, value)] else []
  }

  function ScalarDeltas(previous: Option<RegFile>, current: RegFile, n: nat): (ds: seq<RegDelta>)
    requires n <= NUM_SCALARS
    ensures |ds| <= n
  {
    if n == 0 then []
    else ScalarDeltas(previous, current, n - 1)
         + IfChanged(n - 1, Scalars(current)[n - 1], Previously(previous, n - 1))
  }

  lemma NoScalars(previous: Option<RegFile>, current: RegFile)
    ensures ScalarDeltas(previous, current, 0) == []
  {
  }

  lemma NextScalar(previous: Option<RegFile>, current: RegFile, n: nat)
    requires n < NUM_SCALARS
    ensures ScalarDeltas(previous, current, n + 1)
         == ScalarDeltas(previous, current, n) + IfChanged(n, Scalars(current)[n], Previously(previous, n))
    ensures Scalars(current)[n]
         == if n < NUM_GPR then current.x[n] else if n == SP_ID then current.sp else if n == PC_ID then current.pc
            else if n == PSTATE_ID then current.pstate.ToTraceWord() else if n == FPCR_ID then current.fpcr
            else current.fpsr
  {
  }

  function VecDeltas(previous: Option<RegFile>, current: RegFile, n: nat): (ds: seq<RegDelta>)
    requires n <= NUM_VEC
    ensures |ds| <= 2 * n
  {
    if n == 0 then []
    else
      var value := current.v[n - 1];
      VecDeltas(previous, current, n - 1)
      + if previous.Some? && previous.value.v[n - 1] == value then []
        else [RegDelta(VecLo(n - 1), LowHalf(value)), RegDelta(VecHi(n - 1), HighHalf(value))]
  }

  function Deltas(previous: Option<RegFile>, current: RegFile): (ds: seq<RegDelta>)
    ensures |ds| <= NUM_SCALARS + 2 * NUM_VEC < MAX_DELTAS_PER_BLOCK
  {
    ScalarDeltas(previous, current, NUM_SCALARS) + VecDeltas(previous, current, NUM_VEC)
  }

  // ----- replaying deltas -----

  predicate IsTraceId(id: nat) {
    id < NUM_SCALARS || V_BASE <= id < V_BASE + 2 * NUM_VEC
  }

  function TraceValue(regs: RegFile, id: nat): Word
    requires IsTraceId(id)
  {
    if id < NUM_SCALARS then Scalars(regs)[id]
    else
      var v := regs.v[(id - V_BASE) / 2];
      if (id - V_BASE) % 2 == 0 then LowHalf(v) else HighHalf(v)
  }

  /** The state a trace can show: a value for each register id. */
  type TraceState = map<nat, Word>

  function Visible(regs: RegFile): TraceState {
    map id: nat | id < V_BASE + 2 * NUM_VEC && IsTraceId(id) :: TraceValue(regs, id)
  }

  /** A reader's state after one record's deltas. */
  function Apply(state: TraceState, deltas: seq<RegDelta>): TraceState {
    if deltas == [] then state
    else
      var last := deltas[|deltas| - 1];
      Apply(state, deltas[..|deltas| - 1])[last.id := last.value]
  }

  lemma {:induction false} ApplyConcat(state: TraceState, a: seq<RegDelta>, b: seq<RegDelta>)
    ensures Apply(state, a + b) == Apply(Apply(state, a), b)
  {
    if b == [] {
      assert a + b == a;
    } else {
      var n := |b| - 1;
      ApplyConcat(state, a, b[..n]);
      assert (a + b)[..|a + b| - 1] == a + b[..n];
    }
  }

  /** The reader holds the previous snapshot's values for the ids in [from, to). */
  ghost predicate KnowsRange(state: TraceState, previous: Option<RegFile>, from: nat, to: nat) {
    previous.Some? ==>
      forall id: nat :: from <= id < to && IsTraceId(id) ==> id in state && state[id] == TraceValue(previous.value, id)
  }

  /** What a reader must know before the deltas: nothing, or the state they were taken against. */
  ghost predicate Knows(state: TraceState, previous: Option<RegFile>) {
    KnowsRange(state, previous, 0, V_BASE + 2 * NUM_VEC)
  }

  /** `after` is `before` with the ids in [from, to) brought up to date with `current`. */
  ghost predicate Updated(before: TraceState, after: TraceState, current: RegFile, from: nat, to: nat) {
    && (forall id: nat :: from <= id < to && IsTraceId(id) ==> id in after && after[id] == TraceValue(current, id))
    && (forall id: nat :: !(from <= id < to && IsTraceId(id)) ==>
          (id in after <==> id in before) && (id in after ==> after[id] == before[id]))
  }

  /** Bringing one more id up to date extends what is up to date. */
  lemma UpdateOne(before: TraceState, state: TraceState, current: RegFile, from: nat, id: nat)
    requires IsTraceId(id) && from <= id && Updated(before, state, current, from, id)
    ensures Updated(before, state[id := TraceValue(current, id)], current, from, id + 1)
    ensures id in state && state[id] == TraceValue(current, id) ==> Updated(before, state, current, from, id + 1)
  {
    hide TraceValue;
  }

  lemma ApplyOne(state: TraceState, delta: RegDelta)
    ensures Apply(state, []) == state
    ensures Apply(state, [delta]) == state[delta.id := delta.value]
  {
    assert [delta][..0] == [];
  }

  lemma {:induction false} ApplyScalars(state: TraceState, previous: Option<RegFile>, current: RegFile, n: nat)
    requires KnowsRange(state, previous, 0, NUM_SCALARS) && n <= NUM_SCALARS
    ensures Updated(state, Apply(state, ScalarDeltas(previous, current, n)), current, 0, n)
  {
    hide ScalarDeltas, Scalars, Apply, TraceValue, IfChanged, Updated;
    if n == 0 {
      NoScalars(previous, current);
      NoUpdate(state, current, 0);
    } else {
      ApplyScalars(state, previous, current, n - 1);
      NextScalar(previous, current, n - 1);
      ScalarIds(n - 1);
      var before := Apply(state, ScalarDeltas(previous, current, n - 1));
      var value := Scalars(current)[n - 1];
      var change := IfChanged(n - 1, value, Previously(previous, n - 1));
      ApplyConcat(state, ScalarDeltas(previous, current, n - 1), change);
      KnownScalar(state, before, previous, current, n - 1);
      ApplyIfChanged(before, n - 1, value, Previously(previous, n - 1));
      UpdateOne(state, before, current, 0, n - 1);
    }
  }

  lemma NoUpdate(state: TraceState, current: RegFile, from: nat)
    ensures Apply(state, []) == state && Updated(state, state, current, from, from)
  {
    hide TraceValue;
  }

  lemma ApplyIfChanged(state: TraceState, id: RegId, value: Word, previous: Option<Word>)
    ensures Apply(state, IfChanged(id, value, previous)) == if previous != Some(value) then state[id := value] else state
  {
    ApplyOne(state, RegDelta(id, value));
  }

  /** A scalar that did not change is already up to date in what the reader knew. */
  lemma KnownScalar(state: TraceState, before: TraceState, previous: Option<RegFile>, current: RegFile, n: nat)
    requires KnowsRange(state, previous, 0, NUM_SCALARS) && n < NUM_SCALARS
    requires Updated(state, before, current, 0, n)
    ensures Previously(previous, n) == Some(Scalars(current)[n]) ==>
              n in before && before[n] == TraceValue(current, n)
  {
    ScalarIds(n);
    hide TraceValue, Scalars;
  }

  lemma ApplyPair(state: TraceState, a: RegDelta, b: RegDelta)
    ensures Apply(state, [a, b]) == state[a.id := a.value][b.id := b.value]
  {
    ApplyOne(state, a);
    ApplyOne(Apply(state, [a]), b);
    ApplyConcat(state, [a], [b]);
    assert [a] + [b] == [a, b];
  }

  lemma ScalarIds(n: nat)
    requires n < NUM_SCALARS
    ensures IsTraceId(n)
    ensures forall regs: RegFile :: TraceValue(regs, n) == Scalars(regs)[n]
  {
  }

  lemma VecIds(n: nat)
    requires n < NUM_VEC
    ensures IsTraceId(VecLo(n)) && IsTraceId(VecHi(n))
    ensures forall regs: RegFile ::
              TraceValue(regs, VecLo(n)) == LowHalf(regs.v[n]) && TraceValue(regs, VecHi(n)) == HighHalf(regs.v[n])
  {
  }

  lemma NoVecs(previous: Option<RegFile>, current: RegFile)
    ensures VecDeltas(previous, current, 0) == []
  {
  }

  lemma NextVec(previous: Option<RegFile>, current: RegFile, n: nat)
    requires n < NUM_VEC
    ensures VecDeltas(previous, current, n + 1)
         == VecDeltas(previous, current, n)
            + if previous.Some? && previous.value.v[n] == current.v[n] then []
              else [RegDelta(VecLo(n), LowHalf(current.v[n])), RegDelta(VecHi(n), HighHalf(current.v[n]))]
  {
  }

  lemma {:induction false} ApplyVecs(state: TraceState, previous: Option<RegFile>, current: RegFile, n: nat)
    requires KnowsRange(state, previous, V_BASE, V_BASE + 2 * NUM_VEC) && n <= NUM_VEC
    ensures Updated(state, Apply(state, VecDeltas(previous, current, n)), current, V_BASE, VecLo(n))
  {
    hide VecDeltas, Apply, TraceValue, LowHalf, HighHalf, Updated, KnowsRange;
    if n == 0 {
      NoVecs(previous, current);
      NoUpdate(state, current, V_BASE);
    } else {
      ApplyVecs(state, previous, current, n - 1);
      NextVec(previous, current, n - 1);
      VecIds(n - 1);
      var before := Apply(state, VecDeltas(previous, current, n - 1));
      var low, high := RegDelta(VecLo(n - 1), LowHalf(current.v[n - 1])), RegDelta(VecHi(n - 1), HighHalf(current.v[n - 1]));
      ApplyOne(before, low);
      ApplyPair(before, low, high);
      if previous.Some? && previous.value.v[n - 1] == current.v[n - 1] {
        ApplyConcat(state, VecDeltas(previous, current, n - 1), []);
        KnownVec(state, before, previous, current, n - 1);
        UpdateOne(state, before, current, V_BASE, low.id);
        UpdateOne(state, before, current, V_BASE, high.id);
      } else {
        ApplyConcat(state, VecDeltas(previous, current, n - 1), [low, high]);
        UpdateOne(state, before, current, V_BASE, low.id);
        UpdateOne(state, before[low.id := low.value], current, V_BASE, high.id);
      }
    }
  }

  /** A vector register that did not change is already up to date in what the reader knew. */
  lemma KnownVec(state: TraceState, before: TraceState, previous: Option<RegFile>, current: RegFile, n: nat)
    requires KnowsRange(state, previous, V_BASE, V_BASE + 2 * NUM_VEC) && n < NUM_VEC
    requires Updated(state, before, current, V_BASE, VecLo(n))
    requires previous.Some? && previous.value.v[n] == current.v[n]
    ensures VecLo(n) in before && before[VecLo(n)] == TraceValue(current, VecLo(n))
    ensures VecHi(n) in before && before[VecHi(n)] == TraceValue(current, VecHi(n))
  {
    VecIds(n);
    hide TraceValue, LowHalf, HighHalf;
  }

  /**
   Whatever a reader knew, a block's deltas bring it exactly up to date: every register id holds its
   value on entry to the block and nothing else moves.  Without a previous snapshot the block carries
   the full set, so the reader need not have known anything.
   */
  lemma ReplayIsExact(state: TraceState, previous: Option<RegFile>, current: RegFile)
    requires Knows(state, previous)
    ensures Apply(state, Deltas(previous, current)) == state + Visible(current)
    ensures Knows(Apply(state, Deltas(previous, current)), Some(current))
  {
    hide Apply, ScalarDeltas, VecDeltas, TraceValue;
    var scalars := ScalarDeltas(previous, current, NUM_SCALARS);
    var vecs := VecDeltas(previous, current, NUM_VEC);
    ApplyConcat(state, scalars, vecs);
    ApplyScalars(state, previous, current, NUM_SCALARS);
    ApplyVecs(Apply(state, scalars), previous, current, NUM_VEC);
    var after := Apply(state, Deltas(previous, current));
    assert after.Keys == (state + Visible(current)).Keys;
  }

  // ----- what the deltas say -----

  /** The numbers the wire gives registers: 0 to 30, SP, PC, PSTATE, FPCR, FPSR, then two a vector from 64. */
  lemma RegisterNumbers(regs: RegFile)
    ensures forall id: nat :: id in Visible(regs) <==> id < 36 || 64 <= id < 128
    ensures forall n: nat :: n < 31 ==> Visible(regs)[n] == ReadX(regs, X(n))
    ensures Visible(regs)[31] == ReadX(regs, SP) && Visible(regs)[32] == regs.pc
    ensures Visible(regs)[33] == regs.pstate.ToTraceWord()
    ensures Visible(regs)[34] == regs.fpcr && Visible(regs)[35] == regs.fpsr
    ensures forall n: nat :: n < 32 ==> Visible(regs)[64 + 2 * n] + Visible(regs)[64 + 2 * n + 1] * WORD_LIMIT == regs.v[n]
  {
    hide Pstate.ToTraceWord;
    forall n: nat | n < 32
      ensures Visible(regs)[64 + 2 * n] + Visible(regs)[64 + 2 * n + 1] * WORD_LIMIT == regs.v[n]
    {
      VecIds(n);
      hide TraceValue;
    }
  }

  /** Without a previous snapshot every register is emitted: 36 scalars and 32 vector pairs. */
  lemma FullSetWithoutSnapshot(current: RegFile)
    ensures |Deltas(None, current)| == NUM_SCALARS + 2 * NUM_VEC
  {
    AllScalars(current, NUM_SCALARS);
    AllVecs(current, NUM_VEC);
    hide ScalarDeltas, VecDeltas;
  }

  lemma {:induction false} AllScalars(current: RegFile, n: nat)
    requires n <= NUM_SCALARS
    ensures |ScalarDeltas(None, current, n)| == n
  {
    if n > 0 {
      AllScalars(current, n - 1);
    }
  }

  lemma {:induction false} AllVecs(current: RegFile, n: nat)
    requires n <= NUM_VEC
    ensures |VecDeltas(None, current, n)| == 2 * n
  {
    if n > 0 {
      AllVecs(current, n - 1);
    }
  }

  predicate Increasing(deltas: seq<RegDelta>) {
    forall i: nat, j: nat :: i < j < |deltas| ==> deltas[i].id < deltas[j].id
  }

  /** Every delta gives a register's current value, in increasing id order, so each id appears once. */
  lemma DeltasAreCurrent(previous: Option<RegFile>, current: RegFile)
    ensures Increasing(Deltas(previous, current))
    ensures forall d :: d in Deltas(previous, current) ==> IsTraceId(d.id) && d.value == TraceValue(current, d.id)
  {
    hide TraceValue, ScalarDeltas, VecDeltas;
    ScalarDeltasOrdered(previous, current, NUM_SCALARS);
    VecDeltasOrdered(previous, current, NUM_VEC);
    NothingOrdered(current, NUM_SCALARS, V_BASE);
    OrderedAppend(ScalarDeltas(previous, current, NUM_SCALARS), [], current, 0, NUM_SCALARS, V_BASE);
    assert ScalarDeltas(previous, current, NUM_SCALARS) + [] == ScalarDeltas(previous, current, NUM_SCALARS);
    OrderedAppend(ScalarDeltas(previous, current, NUM_SCALARS), VecDeltas(previous, current, NUM_VEC),
                  current, 0, V_BASE, VecLo(NUM_VEC));
  }

  /** The ids are in [from, to), increasing, and carry current values. */
  ghost predicate Ordered(deltas: seq<RegDelta>, current: RegFile, from: nat, to: nat) {
    && Increasing(deltas)
    && forall d :: d in deltas ==> from <= d.id < to && IsTraceId(d.id) && d.value == TraceValue(current, d.id)
  }

  lemma OrderedAppend(a: seq<RegDelta>, b: seq<RegDelta>, current: RegFile, from: nat, mid: nat, to: nat)
    requires from <= mid <= to && Ordered(a, current, from, mid) && Ordered(b, current, mid, to)
    ensures Ordered(a + b, current, from, to)
  {
    hide TraceValue;
    var all := a + b;
    forall i: nat, j: nat | i < j < |all| ensures all[i].id < all[j].id {
      if i < |a| <= j {
        assert a[i] in a && b[j - |a|] in b;
      }
    }
  }

  lemma OrderedOne(d: RegDelta, current: RegFile)
    requires IsTraceId(d.id) && d.value == TraceValue(current, d.id)
    ensures Ordered([d], current, d.id, d.id + 1)
  {
    hide TraceValue;
  }

  lemma {:induction false} ScalarDeltasOrdered(previous: Option<RegFile>, current: RegFile, n: nat)
    requires n <= NUM_SCALARS
    ensures Ordered(ScalarDeltas(previous, current, n), current, 0, n)
  {
    hide ScalarDeltas, TraceValue, Scalars, Ordered;
    if n == 0 {
      NoScalars(previous, current);
      NothingOrdered(current, 0, 0);
    } else {
      ScalarDeltasOrdered(previous, current, n - 1);
      NextScalar(previous, current, n - 1);
      ScalarIds(n - 1);
      OrderedOne(RegDelta(n - 1, Scalars(current)[n - 1]), current);
      NothingOrdered(current, n - 1, n);
      OrderedAppend(ScalarDeltas(previous, current, n - 1),
                    IfChanged(n - 1, Scalars(current)[n - 1], Previously(previous, n - 1)), current, 0, n - 1, n);
    }
  }

  lemma NothingOrdered(current: RegFile, from: nat, to: nat)
    ensures Ordered([], current, from, to)
  {
  }

  lemma {:induction false} VecDeltasOrdered(previous: Option<RegFile>, current: RegFile, n: nat)
    requires n <= NUM_VEC
    ensures Ordered(VecDeltas(previous, current, n), current, V_BASE, VecLo(n))
  {
    hide VecDeltas, TraceValue, LowHalf, HighHalf, Ordered;
    if n == 0 {
      NoVecs(previous, current);
      NothingOrdered(current, V_BASE, V_BASE);
    } else {
      VecDeltasOrdered(previous, current, n - 1);
      NextVec(previous, current, n - 1);
      VecIds(n - 1);
      var low, high := RegDelta(VecLo(n - 1), LowHalf(current.v[n - 1])), RegDelta(VecHi(n - 1), HighHalf(current.v[n - 1]));
      OrderedOne(low, current);
      OrderedOne(high, current);
      OrderedAppend([low], [high], current, low.id, high.id, VecLo(n));
      assert [low] + [high] == [low, high];
      NothingOrdered(current, low.id, VecLo(n));
      OrderedAppend(VecDeltas(previous, current, n - 1),
                    if previous.Some? && previous.value.v[n - 1] == current.v[n - 1] then [] else [low, high],
                    current, V_BASE, low.id, VecLo(n));
    }
  }

  /** An unchanged register file emits nothing, and a scalar is emitted only if its value changed. */
  lemma OnlyChangesAreEmitted(previous: RegFile, current: RegFile)
    ensures previous == current ==> Deltas(Some(previous), current) == []
    ensures forall d :: d in Deltas(Some(previous), current) && d.id < NUM_SCALARS ==> d.value != TraceValue(previous, d.id)
    ensures forall d :: d in Deltas(Some(previous), current) && d.id >= NUM_SCALARS ==>
              V_BASE <= d.id < V_BASE + 2 * NUM_VEC
              && previous.v[(d.id - V_BASE) / 2] != current.v[(d.id - V_BASE) / 2]
  {
    hide TraceValue, ScalarDeltas, VecDeltas;
    ScalarChanges(previous, current, NUM_SCALARS);
    VecChanges(previous, current, NUM_VEC);
    ScalarDeltasOrdered(Some(previous), current, NUM_SCALARS);
    VecDeltasOrdered(Some(previous), current, NUM_VEC);
  }

  lemma {:induction false} ScalarChanges(previous: RegFile, current: RegFile, n: nat)
    requires n <= NUM_SCALARS
    ensures previous == current ==> ScalarDeltas(Some(previous), current, n) == []
    ensures forall d :: d in ScalarDeltas(Some(previous), current, n) ==> d.id < n && d.value != TraceValue(previous, d.id)
  {
    if n > 0 {
      ScalarChanges(previous, current, n - 1);
    }
  }

  lemma {:induction false} VecChanges(previous: RegFile, current: RegFile, n: nat)
    requires n <= NUM_VEC
    ensures previous == current ==> VecDeltas(Some(previous), current, n) == []
    ensures forall d :: d in VecDeltas(Some(previous), current, n) ==>
              V_BASE <= d.id < VecLo(n) && previous.v[(d.id - V_BASE) / 2] != current.v[(d.id - V_BASE) / 2]
  {
    hide VecDeltas, LowHalf, HighHalf;
    if n == 0 {
      NoVecs(Some(previous), current);
    } else {
      VecChanges(previous, current, n - 1);
      NextVec(Some(previous), current, n - 1);
    }
  }

  /** Everything architectural is visible: two register files a trace cannot tell apart are equal. */
  lemma VisibleDetermines(a: RegFile, b: RegFile)
    requires Visible(a) == Visible(b)
    ensures a == b
  {
    hide Pstate.ToTraceWord;
    forall n: nat | n < NUM_SCALARS ensures Scalars(a)[n] == Scalars(b)[n] {
      assert Visible(a)[n] == Visible(b)[n];
    }
    SameScalars(a, b);
    forall n: nat | n < NUM_VEC ensures a.v[n] == b.v[n] {
      VecIds(n);
      assert Visible(a)[VecLo(n)] == Visible(b)[VecLo(n)];
      assert Visible(a)[VecHi(n)] == Visible(b)[VecHi(n)];
    }
    assert a.v == b.v;
  }

  lemma SameScalars(a: RegFile, b: RegFile)
    requires forall n: nat :: n < NUM_SCALARS ==> Scalars(a)[n] == Scalars(b)[n]
    ensures a.x == b.x && a.sp == b.sp && a.pc == b.pc && a.pstate == b.pstate && a.fpcr == b.fpcr && a.fpsr == b.fpsr
  {
    hide Pstate.ToTraceWord, FromTraceWord;
    assert Scalars(a)[SP_ID] == a.sp && Scalars(b)[SP_ID] == b.sp;
    assert Scalars(a)[PC_ID] == a.pc && Scalars(b)[PC_ID] == b.pc;
    assert Scalars(a)[PSTATE_ID] == a.pstate.ToTraceWord() && Scalars(b)[PSTATE_ID] == b.pstate.ToTraceWord();
    assert Scalars(a)[FPCR_ID] == a.fpcr && Scalars(b)[FPCR_ID] == b.fpcr;
    assert Scalars(a)[FPSR_ID] == a.fpsr && Scalars(b)[FPSR_ID] == b.fpsr;
    TraceWordRoundTrip(a.pstate);
    TraceWordRoundTrip(b.pstate);
    forall n: nat | n < NUM_GPR ensures a.x[n] == b.x[n] {
      assert Scalars(a)[n] == a.x[n] && Scalars(b)[n] == b.x[n];
    }
    assert a.x == b.x;
  }
}
