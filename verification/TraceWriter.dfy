/**
 The CDT v1 byte stream (crates/core/src/trace/writer.rs, crates/core/src/trace/format.rs): what the
 writer appends for each event, and a reader that advances by each record's declared length.
 */
module TraceWriter {
  import opened Options
  import opened Powers
  import opened Bits
  import opened Registers
  import opened Instructions
  import opened Memory
  import opened TraceSink
  import D = Dispatch
  import S = Stepping

  const RECORD_HEADER_BYTES: nat := 8
  const REG_DELTA_BYTES: nat := 16
  const BLOCK_PREFIX_BYTES: nat := 32
  const FILE_HEADER_BYTES: nat := 80
  const PRODUCER_NAME_BYTES: nat := 32
  const NUM_SYSREG: nat := 20
  const INSNS_PER_BLOCK: nat := 1

  const BLOCK: Byte := 1
  const EXCEPTION: Byte := 2
  const MARKER: Byte := 3
  const END: Byte := 4

  const MAGIC: seq<Byte> := [0x43, 0x4f, 0x52, 0x41, 0x43, 0x4c, 0x45, 0x01]
  const FORMAT_VERSION: nat := 1
  const PRODUCER_CORACLE: nat := 2
  const CPU_FEATURE_ID: Word := 0x665f_e771_b960_5c07

  datatype FpMode = Precise | Native

  function MarkerCode(kind: MarkerKind): Word {
    match kind
    case TraceStart => 1
    case Reset => 2
    case Annotation => 3
  }

  function ReasonCode(reason: EndReason): Word {
    match reason
    case Normal => 0
    case LimitReached => 1
    case GuestHalt => 2
  }

  function DisconCode(discon: DisconType): Word {
    match discon
    case Interrupt => 1
    case Exception => 2
    case HostCall => 4
  }

  // ----- the bytes of each record -----

  function RecordHeader(record: Byte, flags: nat, length: nat): (h: seq<Byte>)
    ensures |h| == RECORD_HEADER_BYTES
  {
    [record, flags % 0x100] + ToLe(length % 0x1_0000, 2) + ToLe(0, 4)
  }

  function WordBytes(words: seq<nat>): (b: seq<Byte>)
    ensures |b| == 8 * |words|
  {
    if words == [] then [] else WordBytes(words[..|words| - 1]) + ToLe(words[|words| - 1], 8)
  }

  function DeltaBytes(deltas: seq<RegDelta>): (b: seq<Byte>)
    ensures |b| == REG_DELTA_BYTES * |deltas|
  {
    if deltas == [] then []
    else
      var last := deltas[|deltas| - 1];
      DeltaBytes(deltas[..|deltas| - 1]) + (ToLe(last.id, 2) + Zeros(6) + ToLe(last.value, 8))
  }

  /** Only as many deltas as the one-byte count can announce are written. */
  function Written(deltas: seq<RegDelta>): seq<RegDelta> {
    deltas[..if |deltas| < MAX_DELTAS_PER_BLOCK then |deltas| else MAX_DELTAS_PER_BLOCK]
  }

  function VecWords(v: seq<Quad>): (w: seq<Word>)
    ensures |w| == 2 * |v|
  {
    if v == [] then []
    else VecWords(v[..|v| - 1]) + [LowHalf(v[|v| - 1]), HighHalf(v[|v| - 1])]
  }

  /** The dense state block: x0 to x30, SP, PC, PSTATE, system registers, FPCR, FPSR, vector halves. */
  function FullState(regs: RegFile): (w: seq<Word>)
    ensures |w| == 120
  {
    regs.x + [regs.sp, regs.pc, regs.pstate.ToTraceWord()] + seq(NUM_SYSREG, _ => 0) + [regs.fpcr, regs.fpsr]
    + VecWords(regs.v)
  }

  const EXCEPTION_BYTES: nat := RECORD_HEADER_BYTES + 32 + (32 + 2 + NUM_SYSREG + 2 + 64) * 8

  function Serialise(event: Event): seq<Byte> {
    match event
    case Marker(kind, icount, value) =>
      RecordHeader(MARKER, 0, RECORD_HEADER_BYTES + 24) + WordBytes([icount, MarkerCode(kind), value])
    case Block(pc, icount, deltas) =>
      var kept := Written(deltas);
      RecordHeader(BLOCK, |kept|, BLOCK_PREFIX_BYTES + |kept| * REG_DELTA_BYTES) + WordBytes([pc, icount])
      + (ToLe(INSNS_PER_BLOCK, 2) + Zeros(6)) + DeltaBytes(kept)
    case ExceptionEntry(icount, fromPc, toPc, discon, regs) =>
      RecordHeader(EXCEPTION, 0, EXCEPTION_BYTES) + WordBytes([icount, fromPc, toPc])
      + (ToLe(DisconCode(discon), 4) + ToLe(0, 4)) + WordBytes(FullState(regs))
    case End(reason, icount) =>
      RecordHeader(END, 0, RECORD_HEADER_BYTES + 16) + WordBytes([icount, ReasonCode(reason)])
  }

  function SerialiseAll(events: seq<Event>): seq<Byte> {
    if events == [] then [] else SerialiseAll(events[..|events| - 1]) + Serialise(events[|events| - 1])
  }

  function PaddedName(name: seq<Byte>): (n: seq<Byte>)
    ensures |n| == PRODUCER_NAME_BYTES
  {
    var length := if |name| < PRODUCER_NAME_BYTES then |name| else PRODUCER_NAME_BYTES;
    name[..length] + Zeros(PRODUCER_NAME_BYTES - length)
  }

  function StreamFlags(mode: FpMode): nat {
    8 + 2 + if mode.Precise? then 1 else 0
  }

  function FileHeader(name: seq<Byte>, mode: FpMode): (h: seq<Byte>)
    ensures |h| == FILE_HEADER_BYTES
  {
    MAGIC + ToLe(FORMAT_VERSION, 4) + ToLe(PRODUCER_CORACLE, 4) + ToLe(StreamFlags(mode), 8) + ToLe(CPU_FEATURE_ID, 8)
    + PaddedName(name) + Zeros(16)
  }

  // ----- the writer -----

  class CdtWriter {
    var buffer: seq<Byte>

    constructor (name: seq<Byte>, mode: FpMode)
      ensures buffer == FileHeader(name, mode)
    {
      buffer := MAGIC;
      new;
      hide ToLe, Zeros, PaddedName, StreamFlags;
      buffer := buffer + ToLe(FORMAT_VERSION, 4);
      buffer := buffer + ToLe(PRODUCER_CORACLE, 4);
      buffer := buffer + ToLe(StreamFlags(mode), 8);
      buffer := buffer + ToLe(CPU_FEATURE_ID, 8);
      buffer := buffer + PaddedName(name);
      buffer := buffer + Zeros(16);
    }

    /** Hands over the buffered bytes; writing can go on into an empty buffer. */
    method Take() returns (bytes: seq<Byte>)
      modifies this
      ensures bytes == old(buffer) && buffer == []
    {
      bytes := buffer;
      buffer := [];
    }

    method WriteRecordHeader(record: Byte, flags: nat, length: nat)
      modifies this
      ensures buffer == old(buffer) + RecordHeader(record, flags, length)
    {
      buffer := buffer + [record];
      buffer := buffer + [flags % 0x100];
      buffer := buffer + ToLe(length % 0x1_0000, 2);
      buffer := buffer + ToLe(0, 4);
    }

    method WriteWords(words: seq<nat>)
      modifies this
      ensures buffer == old(buffer) + WordBytes(words)
    {
      for i := 0 to |words|
        invariant buffer == old(buffer) + WordBytes(words[..i])
      {
        assert words[..i + 1][..i] == words[..i];
        buffer := buffer + ToLe(words[i], 8);
      }
      assert words[..|words|] == words;
    }

    method OnMarker(kind: MarkerKind, icount: nat, value: Word)
      modifies this
      ensures buffer == old(buffer) + Serialise(Marker(kind, icount, value))
    {
      hide WordBytes, RecordHeader;
      WriteRecordHeader(MARKER, 0, RECORD_HEADER_BYTES + 24);
      WriteWords([icount, MarkerCode(kind), value]);
    }

    method OnBlock(pc: Word, icount: nat, deltas: seq<RegDelta>)
      modifies this
      ensures buffer == old(buffer) + Serialise(Block(pc, icount, deltas))
    {
      hide WordBytes, RecordHeader, ToLe, DeltaBytes, Zeros;
      var kept := Written(deltas);
      WriteRecordHeader(BLOCK, |kept|, BLOCK_PREFIX_BYTES + |kept| * REG_DELTA_BYTES);
      WriteWords([pc, icount]);
      buffer := buffer + (ToLe(INSNS_PER_BLOCK, 2) + Zeros(6));
      WriteDeltas(kept);
    }

    method WriteDeltas(deltas: seq<RegDelta>)
      modifies this
      ensures buffer == old(buffer) + DeltaBytes(deltas)
    {
      hide ToLe, Zeros;
      for i := 0 to |deltas|
        invariant buffer == old(buffer) + DeltaBytes(deltas[..i])
      {
        assert deltas[..i + 1][..i] == deltas[..i];
        buffer := buffer + (ToLe(deltas[i].id, 2) + Zeros(6) + ToLe(deltas[i].value, 8));
      }
      assert deltas[..|deltas|] == deltas;
    }

    method OnException(icount: nat, fromPc: Word, toPc: Word, discon: DisconType, regs: RegFile)
      modifies this
      ensures buffer == old(buffer) + Serialise(ExceptionEntry(icount, fromPc, toPc, discon, regs))
    {
      hide WordBytes, RecordHeader, ToLe, FullState;
      WriteRecordHeader(EXCEPTION, 0, EXCEPTION_BYTES);
      WriteWords([icount, fromPc, toPc]);
      buffer := buffer + (ToLe(DisconCode(discon), 4) + ToLe(0, 4));
      WriteFullState(regs);
    }

    method WriteFullState(regs: RegFile)
      modifies this
      ensures buffer == old(buffer) + WordBytes(FullState(regs))
    {
      hide WordBytes, ToLe;
      var scalars := regs.x + [regs.sp, regs.pc, regs.pstate.ToTraceWord()];
      var system: seq<Word> := seq(NUM_SYSREG, _ => 0);
      WriteWords(scalars);
      WriteWords(system);
      WriteWords([regs.fpcr, regs.fpsr]);
      ghost var prefix := buffer;
      for i := 0 to NUM_VEC
        invariant buffer == prefix + WordBytes(VecWords(regs.v[..i]))
      {
        assert regs.v[..i + 1][..i] == regs.v[..i];
        WordBytesConcat(VecWords(regs.v[..i]), [LowHalf(regs.v[i]), HighHalf(regs.v[i])]);
        WriteWords([LowHalf(regs.v[i]), HighHalf(regs.v[i])]);
      }
      assert regs.v[..NUM_VEC] == regs.v;
      WordBytesConcat(scalars, system);
      WordBytesConcat(scalars + system, [regs.fpcr, regs.fpsr]);
      WordBytesConcat(scalars + system + [regs.fpcr, regs.fpsr], VecWords(regs.v));
    }

    method Finish(reason: EndReason, icount: nat)
      modifies this
      ensures buffer == old(buffer) + Serialise(End(reason, icount))
    {
      hide WordBytes, RecordHeader;
      WriteRecordHeader(END, 0, RECORD_HEADER_BYTES + 16);
      WriteWords([icount, ReasonCode(reason)]);
    }
  }

  // ----- every record is a header and whole words -----

  lemma {:induction false} WordBytesConcat(a: seq<nat>, b: seq<nat>)
    ensures WordBytes(a + b) == WordBytes(a) + WordBytes(b)
  {
    if b == [] {
      assert a + b == a;
    } else {
      var n := |b| - 1;
      assert (a + b)[..|a + b| - 1] == a + b[..n];
      WordBytesConcat(a, b[..n]);
    }
  }

  lemma WordBytesOne(w: nat)
    ensures WordBytes([w]) == ToLe(w, 8)
  {
    assert [w][..0] == [];
  }

  /** A narrow field and its zero padding are the bytes of one word. */
  lemma {:induction false} PaddedField(value: nat, width: nat, padding: nat)
    requires LowBits(value, 8 * width) == value
    ensures ToLe(value, width) + Zeros(padding) == ToLe(value, width + padding)
  {
    hide Pow2, LowBits;
    if width == 0 {
      NoLowBits(value);
      ZeroBytes(padding);
    } else {
      LowBytesSplit(value, width);
      LowBytesOfQuotient(value, width);
      PaddedField(value / 0x100, width - 1, padding);
    }
  }

  lemma LowBytesOfQuotient(value: nat, width: nat)
    requires width > 0 && LowBits(value, 8 * width) == value
    ensures LowBits(value / 0x100, 8 * (width - 1)) == value / 0x100
  {
    hide Pow2, LowBits;
    LowBytesSplit(value, width);
    DivModUnique(value, 0x100, LowBits(value / 0x100, 8 * (width - 1)), value % 0x100);
  }

  lemma {:induction false} ZeroBytes(count: nat)
    ensures ToLe(0, count) == Zeros(count)
  {
    if count > 0 {
      ZeroBytes(count - 1);
    }
  }

  lemma PaddedId(id: RegId)
    ensures ToLe(id, 2) + Zeros(6) == ToLe(id, 8)
  {
    Pow2Eight();
    hide Pow2;
    Pow2Add(8, 8);
    LowBitsOfSmall(id, 16);
    PaddedField(id, 2, 6);
  }

  lemma PaddedDiscon(code: nat)
    requires code < 0x100
    ensures ToLe(code, 4) + ToLe(0, 4) == ToLe(code, 8)
  {
    Pow2Eight();
    hide Pow2;
    Pow2Monotone(8, 32);
    LowBitsOfSmall(code, 32);
    PaddedField(code, 4, 4);
    ZeroBytes(4);
  }

  function DeltaWords(deltas: seq<RegDelta>): (w: seq<nat>)
    ensures |w| == 2 * |deltas|
  {
    if deltas == [] then []
    else DeltaWords(deltas[..|deltas| - 1]) + [deltas[|deltas| - 1].id, deltas[|deltas| - 1].value]
  }

  lemma {:induction false} DeltasAreWords(deltas: seq<RegDelta>)
    ensures DeltaBytes(deltas) == WordBytes(DeltaWords(deltas))
  {
    if deltas != [] {
      var before, last := deltas[..|deltas| - 1], deltas[|deltas| - 1];
      DeltasAreWords(before);
      hide WordBytes, ToLe;
      PaddedId(last.id);
      WordBytesConcat(DeltaWords(before), [last.id, last.value]);
      WordBytesConcat([last.id], [last.value]);
      assert [last.id] + [last.value] == [last.id as nat, last.value];
      WordBytesOne(last.id);
      WordBytesOne(last.value);
    }
  }

  function RecordType(event: Event): Byte {
    match event
    case Marker(_, _, _) => MARKER
    case Block(_, _, _) => BLOCK
    case ExceptionEntry(_, _, _, _, _) => EXCEPTION
    case End(_, _) => END
  }

  function RecordFlags(event: Event): Byte {
    if event.Block? then |Written(event.deltas)| else 0
  }

  /** The words after a record's header. */
  function Payload(event: Event): seq<nat> {
    match event
    case Marker(kind, icount, value) => [icount, MarkerCode(kind), value]
    case Block(pc, icount, deltas) => [pc, icount, INSNS_PER_BLOCK] + DeltaWords(Written(deltas))
    case ExceptionEntry(icount, fromPc, toPc, discon, regs) =>
      [icount, fromPc, toPc, DisconCode(discon)] + FullState(regs)
    case End(reason, icount) => [icount, ReasonCode(reason)]
  }

  predicate HasShape(event: Event, length: nat) {
    Serialise(event) == RecordHeader(RecordType(event), RecordFlags(event), length) + WordBytes(Payload(event))
  }

  lemma BlockShape(pc: Word, icount: nat, deltas: seq<RegDelta>)
    ensures HasShape(Block(pc, icount, deltas), BLOCK_PREFIX_BYTES + REG_DELTA_BYTES * |Written(deltas)|)
  {
    hide WordBytes, RecordHeader, ToLe, DeltaBytes, DeltaWords, Zeros, Written;
    var kept := Written(deltas);
    DeltasAreWords(kept);
    PaddedId(INSNS_PER_BLOCK);
    WordBytesOne(INSNS_PER_BLOCK);
    WordBytesConcat([pc, icount], [INSNS_PER_BLOCK]);
    WordBytesConcat([pc, icount] + [INSNS_PER_BLOCK], DeltaWords(kept));
    assert [pc, icount] + [INSNS_PER_BLOCK] == [pc as nat, icount, INSNS_PER_BLOCK];
    Regroup(RecordHeader(BLOCK, |kept|, BLOCK_PREFIX_BYTES + REG_DELTA_BYTES * |kept|),
            WordBytes([pc, icount]), ToLe(INSNS_PER_BLOCK, 8), DeltaBytes(kept));
  }

  lemma Regroup(header: seq<Byte>, a: seq<Byte>, b: seq<Byte>, c: seq<Byte>)
    ensures header + a + b + c == header + (a + b + c)
  {
  }

  lemma ExceptionShape(icount: nat, fromPc: Word, toPc: Word, discon: DisconType, regs: RegFile)
    ensures HasShape(ExceptionEntry(icount, fromPc, toPc, discon, regs), EXCEPTION_BYTES)
  {
    hide WordBytes, RecordHeader, ToLe, FullState;
    var code := DisconCode(discon);
    PaddedDiscon(code);
    WordBytesOne(code);
    WordBytesConcat([icount, fromPc, toPc], [code]);
    WordBytesConcat([icount, fromPc, toPc] + [code], FullState(regs));
    assert [icount, fromPc, toPc] + [code] == [icount, fromPc as nat, toPc, code];
    Regroup(RecordHeader(EXCEPTION, 0, EXCEPTION_BYTES), WordBytes([icount, fromPc, toPc]), ToLe(code, 8),
            WordBytes(FullState(regs)));
  }

  /** A record is a header declaring its exact length, followed by whole words. */
  lemma RecordShape(event: Event)
    ensures
      var length := RECORD_HEADER_BYTES + 8 * |Payload(event)|;
      HasShape(event, length) && |Serialise(event)| == length < 0x1_0000 && length % 8 == 0
  {
    hide WordBytes, RecordHeader, ToLe, FullState, DeltaBytes, DeltaWords;
    match event {
      case Marker(_, _, _) =>
      case End(_, _) =>
      case Block(pc, icount, deltas) => BlockShape(pc, icount, deltas);
      case ExceptionEntry(icount, fromPc, toPc, discon, regs) => ExceptionShape(icount, fromPc, toPc, discon, regs);
    }
  }

  // ----- a length-driven reader -----

  function ReadWords(bytes: seq<Byte>): (words: seq<Word>)
    requires |bytes| % 8 == 0
    ensures |words| == |bytes| / 8
  {
    if bytes == [] then []
    else
      var n := |bytes| - 8;
      FromLeWord(bytes[n..]);
      ReadWords(bytes[..n]) + [FromLe(bytes[n..])]
  }

  function ReadDeltas(words: seq<Word>): seq<RegDelta> {
    if |words| < 2 then []
    else
      var n := |words| - 2;
      ReadDeltas(words[..n]) + [RegDelta(words[n] % 0x1_0000, words[n + 1])]
  }

  function ReadVecs(words: seq<Word>): (v: seq<Quad>)
    ensures |v| == |words| / 2
  {
    if |words| < 2 then []
    else
      var n := |words| - 2;
      ReadVecs(words[..n]) + [words[n + 1] * WORD_LIMIT + words[n]]
  }

  function ReadState(words: seq<Word>): RegFile
    requires |words| == 120
  {
    RegisterState(words[..31], words[31], words[32], ReadVecs(words[56..]), FromTraceWord(words[33]), words[54], words[55])
  }

  predicate IsKnown(record: Byte) {
    record == BLOCK || record == EXCEPTION || record == MARKER || record == END
  }

  function ReadMarkerKind(code: Word): Option<MarkerKind> {
    match code
    case 1 => Some(TraceStart)
    case 2 => Some(Reset)
    case 3 => Some(Annotation)
    case _ => None
  }

  function ReadReason(code: Word): Option<EndReason> {
    match code
    case 0 => Some(Normal)
    case 1 => Some(LimitReached)
    case 2 => Some(GuestHalt)
    case _ => None
  }

  function ReadDiscon(code: Word): Option<DisconType> {
    match code
    case 1 => Some(Interrupt)
    case 2 => Some(Exception)
    case 4 => Some(HostCall)
    case _ => None
  }

  /** The event a record of a known type carries, if its payload is well formed. */
  function DecodeRecord(record: Byte, flags: Byte, words: seq<Word>): Option<Event> {
    if record == BLOCK then
      if |words| == 3 + 2 * flags then Some(Block(words[0], words[1], ReadDeltas(words[3..]))) else None
    else if record == EXCEPTION then
      if |words| == 124 && ReadDiscon(words[3]).Some? then
        Some(ExceptionEntry(words[0], words[1], words[2], ReadDiscon(words[3]).value, ReadState(words[4..])))
      else None
    else if record == MARKER then
      if |words| == 3 && ReadMarkerKind(words[1]).Some? then Some(Marker(ReadMarkerKind(words[1]).value, words[0], words[2]))
      else None
    else
      if |words| == 2 && ReadReason(words[1]).Some? then Some(End(ReadReason(words[1]).value, words[0])) else None
  }

  /** Reads records by their declared lengths, skipping types it does not know. */
  function ReadStream(bytes: seq<Byte>): Option<seq<Event>> {
    if bytes == [] then Some([])
    else if |bytes| < RECORD_HEADER_BYTES then None
    else
      var length := FromLe(bytes[2..4]);
      if length < RECORD_HEADER_BYTES || length % 8 != 0 || length > |bytes| then None
      else
        var rest := ReadStream(bytes[length..]);
        if rest.None? || !IsKnown(bytes[0]) then rest
        else Prepended(DecodeRecord(bytes[0], bytes[1], ReadWords(bytes[RECORD_HEADER_BYTES..length])), rest)
  }

  function Prepended(first: Option<Event>, rest: Option<seq<Event>>): Option<seq<Event>> {
    if first.Some? && rest.Some? then Some([first.value] + rest.value) else None
  }

  /** What a whole stream says: the header's flags and name field, and the events after it. */
  datatype StreamContents = StreamContents(flags: nat, name: seq<Byte>, events: seq<Event>)

  /** Checks the header of a stream before reading its records. */
  function ReadFile(bytes: seq<Byte>): Option<StreamContents> {
    if |bytes| < FILE_HEADER_BYTES || bytes[..8] != MAGIC || FromLe(bytes[8..12]) != FORMAT_VERSION
       || FromLe(bytes[24..32]) != CPU_FEATURE_ID
    then None
    else
      match ReadStream(bytes[FILE_HEADER_BYTES..])
      case None => None
      case Some(events) => Some(StreamContents(FromLe(bytes[16..24]), bytes[32..64], events))
  }

  // ----- round trips -----

  /** Counts are 64-bit words in the source. */
  predicate CountFits(event: Event) {
    event.icount < WORD_LIMIT
  }

  /** What a record keeps of an event: everything, but at most 255 deltas. */
  function Kept(event: Event): Event {
    if event.Block? then event.(deltas := Written(event.deltas)) else event
  }

  function KeptAll(events: seq<Event>): seq<Event> {
    seq(|events|, i requires 0 <= i < |events| => Kept(events[i]))
  }

  predicate AreWords(words: seq<nat>) {
    forall i: nat :: i < |words| ==> words[i] < WORD_LIMIT
  }

  lemma {:induction false} WordsRoundTrip(words: seq<nat>)
    requires AreWords(words)
    ensures ReadWords(WordBytes(words)) == words
  {
    hide ToLe, FromLe;
    if words == [] {
    } else {
      var n := |words| - 1;
      WordsRoundTrip(words[..n]);
      WordRoundTrip(words[n]);
      var bytes := WordBytes(words);
      assert bytes[..8 * n] == WordBytes(words[..n]);
      assert bytes[8 * n..] == ToLe(words[n], 8);
      assert words == words[..n] + [words[n]];
    }
  }

  lemma WordRoundTrip(word: nat)
    requires word < WORD_LIMIT
    ensures FromLe(ToLe(word, 8)) == word
  {
    WordLimit();
    hide Pow2;
    FromToLe(word, 8);
    LowBitsOfSmall(word, 64);
  }

  lemma ReadDeltasAppend(words: seq<Word>, delta: RegDelta)
    ensures ReadDeltas(words + [delta.id, delta.value]) == ReadDeltas(words) + [delta]
  {
    assert (words + [delta.id, delta.value])[..|words|] == words;
  }

  lemma {:induction false} DeltasRoundTrip(deltas: seq<RegDelta>)
    ensures AreWords(DeltaWords(deltas))
    ensures ReadDeltas(DeltaWords(deltas)) == deltas
  {
    if deltas == [] {
    } else {
      var n := |deltas| - 1;
      DeltasRoundTrip(deltas[..n]);
      ReadDeltasAppend(DeltaWords(deltas[..n]), deltas[n]);
      hide ReadDeltas;
      var words := DeltaWords(deltas);
      assert words == DeltaWords(deltas[..n]) + [deltas[n].id, deltas[n].value];
      assert deltas == deltas[..n] + [deltas[n]];
    }
  }

  lemma {:induction false} VecsRoundTrip(v: seq<Quad>)
    ensures ReadVecs(VecWords(v)) == v
  {
    hide LowHalf, HighHalf;
    if v == [] {
    } else {
      var n := |v| - 1;
      VecsRoundTrip(v[..n]);
      var words := VecWords(v);
      assert words[..2 * n] == VecWords(v[..n]);
      assert words[2 * n] == LowHalf(v[n]) && words[2 * n + 1] == HighHalf(v[n]);
      assert v == v[..n] + [v[n]];
    }
  }

  /** The dense state block holds the whole register file. */
  lemma StateRoundTrip(regs: RegFile)
    ensures ReadState(FullState(regs)) == regs
  {
    hide VecWords, ReadVecs, FromTraceWord, Pstate.ToTraceWord;
    var words := FullState(regs);
    assert words[56..] == VecWords(regs.v);
    VecsRoundTrip(regs.v);
    assert words[..31] == regs.x;
    assert words[33] == regs.pstate.ToTraceWord();
    TraceWordRoundTrip(regs.pstate);
  }

  lemma PayloadsAreWords(event: Event)
    requires CountFits(event)
    ensures AreWords(Payload(event))
  {
    hide DeltaWords, FullState;
    if event.Block? {
      DeltasRoundTrip(Written(event.deltas));
    }
  }

  /** A record's payload decodes to the event it was written for. */
  lemma PayloadRoundTrip(event: Event)
    requires CountFits(event) && AreWords(Payload(event))
    ensures DecodeRecord(RecordType(event), RecordFlags(event), Payload(event)) == Some(Kept(event))
  {
    hide DeltaWords, FullState, ReadDeltas, ReadState;
    match event {
      case Marker(_, _, _) =>
      case End(_, _) =>
      case Block(pc, icount, deltas) =>
        var words := Payload(event);
        assert words[3..] == DeltaWords(Written(deltas));
        DeltasRoundTrip(Written(deltas));
      case ExceptionEntry(_, _, _, _, regs) =>
        var words := Payload(event);
        assert words[4..] == FullState(regs);
        StateRoundTrip(regs);
    }
  }

  lemma HeaderFields(record: Byte, flags: Byte, length: nat)
    requires length < 0x1_0000
    ensures
      var h := RecordHeader(record, flags, length);
      h[0] == record && h[1] == flags && FromLe(h[2..4]) == length
  {
    Pow2Eight();
    hide Pow2, ToLe, FromLe;
    Pow2Add(8, 8);
    FromToLe(length, 2);
    LowBitsOfSmall(length, 16);
    assert RecordHeader(record, flags, length)[2..4] == ToLe(length, 2);
  }

  /** A record with a well-formed header, followed by anything, is read by its length. */
  lemma ReadRecord(record: Byte, flags: Byte, body: seq<Byte>, rest: seq<Byte>)
    requires |body| % 8 == 0 && RECORD_HEADER_BYTES + |body| < 0x1_0000
    ensures
      ReadStream(RecordHeader(record, flags, RECORD_HEADER_BYTES + |body|) + body + rest)
      == if ReadStream(rest).None? || !IsKnown(record) then ReadStream(rest)
         else Prepended(DecodeRecord(record, flags, ReadWords(body)), ReadStream(rest))
  {
    hide ReadStream, RecordHeader, FromLe, DecodeRecord, ReadWords, Prepended;
    var length := RECORD_HEADER_BYTES + |body|;
    HeaderFields(record, flags, length);
    var header := RecordHeader(record, flags, length);
    var bytes := header + body + rest;
    assert bytes[2..4] == header[2..4];
    assert bytes[0] == header[0] && bytes[1] == header[1];
    assert bytes[length..] == rest;
    assert bytes[RECORD_HEADER_BYTES..length] == body;
    ReadStep(bytes, length);
  }

  lemma ReadStep(bytes: seq<Byte>, length: nat)
    requires RECORD_HEADER_BYTES <= length <= |bytes| && length % 8 == 0 && FromLe(bytes[2..4]) == length
    ensures
      ReadStream(bytes)
      == if ReadStream(bytes[length..]).None? || !IsKnown(bytes[0]) then ReadStream(bytes[length..])
         else Prepended(DecodeRecord(bytes[0], bytes[1], ReadWords(bytes[RECORD_HEADER_BYTES..length])),
                        ReadStream(bytes[length..]))
  {
    hide FromLe, DecodeRecord, ReadWords, Prepended;
  }

  /** A consumer that does not understand a record type can still advance past it. */
  lemma UnknownRecordsAreSkipped(record: Byte, flags: Byte, body: seq<Byte>, rest: seq<Byte>)
    requires !IsKnown(record) && |body| % 8 == 0 && RECORD_HEADER_BYTES + |body| < 0x1_0000
    ensures ReadStream(RecordHeader(record, flags, RECORD_HEADER_BYTES + |body|) + body + rest) == ReadStream(rest)
  {
    hide ReadStream, RecordHeader;
    ReadRecord(record, flags, body, rest);
  }

  /** Reading a serialised event gives the event back and goes on with what follows. */
  lemma EventRoundTrip(event: Event, rest: seq<Byte>)
    requires CountFits(event)
    ensures ReadStream(Serialise(event) + rest) == Prepended(Some(Kept(event)), ReadStream(rest))
  {
    hide ReadStream, RecordHeader, WordBytes, ReadWords, DecodeRecord, Payload, Serialise, Kept;
    RecordShape(event);
    PayloadsAreWords(event);
    WordsRoundTrip(Payload(event));
    PayloadRoundTrip(event);
    TypesAreKnown(event);
    ReadRecord(RecordType(event), RecordFlags(event), WordBytes(Payload(event)), rest);
  }

  lemma TypesAreKnown(event: Event)
    ensures IsKnown(RecordType(event))
  {
  }

  lemma SerialiseAppend(events: seq<Event>, event: Event)
    ensures SerialiseAll(events + [event]) == SerialiseAll(events) + Serialise(event)
    ensures SerialiseAll([]) == []
  {
    hide Serialise;
    assert (events + [event])[..|events|] == events;
  }

  lemma {:induction false} SerialiseConcat(a: seq<Event>, b: seq<Event>)
    ensures SerialiseAll(a + b) == SerialiseAll(a) + SerialiseAll(b)
  {
    hide Serialise, SerialiseAll;
    if b == [] {
      SerialiseNothing();
      assert a + b == a;
    } else {
      var n := |b| - 1;
      assert b == b[..n] + [b[n]];
      assert a + b == a + b[..n] + [b[n]];
      SerialiseConcat(a, b[..n]);
      SerialiseAppend(b[..n], b[n]);
      SerialiseAppend(a + b[..n], b[n]);
    }
  }

  lemma SerialiseNothing()
    ensures SerialiseAll([]) == [] && ReadStream([]) == Some([])
  {
  }

  /** Any sequence of events written is exactly the sequence read back. */
  lemma {:induction false} StreamRoundTrip(events: seq<Event>)
    requires forall i: nat :: i < |events| ==> CountFits(events[i])
    ensures ReadStream(SerialiseAll(events)) == Some(KeptAll(events))
  {
    hide ReadStream, SerialiseAll, Serialise, Kept;
    SerialiseNothing();
    if events == [] {
    } else {
      StreamRoundTrip(events[1..]);
      SerialiseConcat([events[0]], events[1..]);
      SerialiseAppend([], events[0]);
      assert [] + [events[0]] == [events[0]];
      assert SerialiseAll([events[0]]) == [] + Serialise(events[0]) == Serialise(events[0]);
      assert [events[0]] + events[1..] == events;
      EventRoundTrip(events[0], SerialiseAll(events[1..]));
      assert KeptAll(events) == [Kept(events[0])] + KeptAll(events[1..]);
    }
  }

  lemma HeaderLayout(name: seq<Byte>, mode: FpMode, rest: seq<Byte>)
    ensures
      var bytes := FileHeader(name, mode) + rest;
      && bytes[..8] == MAGIC && bytes[8..12] == ToLe(FORMAT_VERSION, 4)
      && bytes[16..24] == ToLe(StreamFlags(mode), 8) && bytes[24..32] == ToLe(CPU_FEATURE_ID, 8)
      && bytes[32..64] == PaddedName(name) && bytes[FILE_HEADER_BYTES..] == rest
  {
    hide ToLe, Zeros, PaddedName, StreamFlags;
  }

  lemma SmallCode(code: nat)
    requires code < 0x100
    ensures FromLe(ToLe(code, 4)) == code
  {
    Pow2Eight();
    hide Pow2, ToLe, FromLe;
    Pow2Monotone(8, 32);
    FromToLe(code, 4);
    LowBitsOfSmall(code, 32);
  }

  /** A stream written from its header on is accepted, and read back header and events. */
  lemma FileRoundTrip(name: seq<Byte>, mode: FpMode, events: seq<Event>)
    requires forall i: nat :: i < |events| ==> CountFits(events[i])
    ensures ReadFile(FileHeader(name, mode) + SerialiseAll(events))
         == Some(StreamContents(StreamFlags(mode), PaddedName(name), KeptAll(events)))
  {
    hide ReadStream, SerialiseAll, KeptAll, ToLe, FromLe, PaddedName, FileHeader, Kept;
    HeaderLayout(name, mode, SerialiseAll(events));
    SmallCode(FORMAT_VERSION);
    WordRoundTrip(StreamFlags(mode));
    WordRoundTrip(CPU_FEATURE_ID);
    StreamRoundTrip(events);
  }

  /** The whole stream is a multiple of eight bytes long, so every record starts aligned. */
  lemma {:induction false} StreamIsAligned(events: seq<Event>)
    ensures |SerialiseAll(events)| % 8 == 0
  {
    hide Serialise, Payload;
    if events == [] {
    } else {
      StreamIsAligned(events[..|events| - 1]);
      RecordShape(events[|events| - 1]);
    }
  }

  // ----- the layout on the wire -----

  /** The little-endian integer in `count` bytes at an offset. */
  function Field(bytes: seq<Byte>, offset: nat, count: nat): nat
    requires offset + count <= |bytes|
  {
    FromLe(bytes[offset..offset + count])
  }

  lemma {:induction false} WordField(words: seq<nat>, k: nat)
    requires AreWords(words) && k < |words|
    ensures Field(WordBytes(words), 8 * k, 8) == words[k]
  {
    hide ToLe, FromLe;
    var n := |words| - 1;
    var bytes := WordBytes(words);
    if k == n {
      WordRoundTrip(words[n]);
      assert bytes[8 * k..8 * k + 8] == ToLe(words[n], 8);
    } else {
      WordField(words[..n], k);
      assert bytes[8 * k..8 * k + 8] == WordBytes(words[..n])[8 * k..8 * k + 8];
    }
  }

  /** Word `k` of a record's payload is at byte 8 + 8k, after a header of type, flags, length and zeroes. */
  lemma RecordFields(event: Event, k: nat)
    requires CountFits(event) && k < |Payload(event)|
    ensures
      var b := Serialise(event);
      && |b| == 8 + 8 * |Payload(event)|
      && b[0] == RecordType(event) && b[1] == RecordFlags(event) && Field(b, 2, 2) == |b| && Field(b, 4, 4) == 0
      && Field(b, 8 + 8 * k, 8) == Payload(event)[k]
  {
    hide ToLe, FromLe, WordBytes, Payload, Serialise, RecordHeader;
    RecordShape(event);
    PayloadsAreWords(event);
    WordField(Payload(event), k);
    var b, words := Serialise(event), WordBytes(Payload(event));
    var header := RecordHeader(RecordType(event), RecordFlags(event), |b|);
    HeaderFields(RecordType(event), RecordFlags(event), |b|);
    HeaderPadding(RecordType(event), RecordFlags(event), |b|);
    assert b[2..4] == header[2..4] && b[4..8] == header[4..8];
    assert b[8 + 8 * k..8 + 8 * k + 8] == words[8 * k..8 * k + 8];
  }

  lemma HeaderPadding(record: Byte, flags: Byte, length: nat)
    ensures FromLe(RecordHeader(record, flags, length)[4..8]) == 0
  {
    hide ToLe, FromLe;
    SmallCode(0);
    assert RecordHeader(record, flags, length)[4..8] == ToLe(0, 4);
  }

  lemma {:induction false} DeltaWordAt(deltas: seq<RegDelta>, k: nat)
    requires k < |deltas|
    ensures DeltaWords(deltas)[2 * k] == deltas[k].id && DeltaWords(deltas)[2 * k + 1] == deltas[k].value
  {
    if k < |deltas| - 1 {
      DeltaWordAt(deltas[..|deltas| - 1], k);
    }
  }

  lemma {:induction false} VecWordAt(v: seq<Quad>, k: nat)
    requires k < |v|
    ensures VecWords(v)[2 * k] + VecWords(v)[2 * k + 1] * WORD_LIMIT == v[k]
  {
    hide LowHalf, HighHalf;
    if k < |v| - 1 {
      VecWordAt(v[..|v| - 1], k);
    }
  }

  /** A marker: 32 bytes of type 3, with the count, the kind and the value. */
  lemma MarkerLayout(kind: MarkerKind, icount: nat, value: Word)
    requires icount < WORD_LIMIT
    ensures
      var b := Serialise(Marker(kind, icount, value));
      && |b| == 32 && b[0] == 3 && b[1] == 0 && Field(b, 2, 2) == 32 && Field(b, 4, 4) == 0
      && Field(b, 8, 8) == icount
      && Field(b, 16, 8) == (match kind case TraceStart => 1 case Reset => 2 case Annotation => 3)
      && Field(b, 24, 8) == value
  {
    hide Field, Serialise;
    var event := Marker(kind, icount, value);
    RecordFields(event, 0);
    RecordFields(event, 1);
    RecordFields(event, 2);
  }

  /** The end record: 24 bytes of type 4, with the count and the reason. */
  lemma EndLayout(reason: EndReason, icount: nat)
    requires icount < WORD_LIMIT
    ensures
      var b := Serialise(End(reason, icount));
      && |b| == 24 && b[0] == 4 && b[1] == 0 && Field(b, 2, 2) == 24 && Field(b, 4, 4) == 0
      && Field(b, 8, 8) == icount
      && Field(b, 16, 8) == (match reason case Normal => 0 case LimitReached => 1 case GuestHalt => 2)
  {
    hide Field, Serialise;
    var event := End(reason, icount);
    RecordFields(event, 0);
    RecordFields(event, 1);
  }

  /**
   A block: type 1, its delta count in the flags, PC, the count, one instruction, and 16 bytes a delta,
   the id in the low bytes of the first eight.
   */
  lemma BlockLayout(pc: Word, icount: nat, deltas: seq<RegDelta>, k: nat)
    requires icount < WORD_LIMIT && |deltas| <= 255
    ensures
      var b := Serialise(Block(pc, icount, deltas));
      && |b| == 32 + 16 * |deltas| && b[0] == 1 && b[1] == |deltas| && Field(b, 2, 2) == |b| && Field(b, 4, 4) == 0
      && Field(b, 8, 8) == pc && Field(b, 16, 8) == icount && Field(b, 24, 8) == 1
      && (k < |deltas| ==>
            Field(b, 32 + 16 * k, 8) == deltas[k].id && Field(b, 40 + 16 * k, 8) == deltas[k].value)
  {
    hide Field, Serialise, DeltaWords;
    var event := Block(pc, icount, deltas);
    assert Written(deltas) == deltas;
    hide Written;
    RecordFields(event, 0);
    RecordFields(event, 1);
    RecordFields(event, 2);
    if k < |deltas| {
      DeltaWordAt(deltas, k);
      RecordFields(event, 3 + 2 * k);
      RecordFields(event, 4 + 2 * k);
    }
  }

  /**
   An exception: 1000 bytes of type 2, with the count, both addresses, the cause, x0 to x30, SP, PC,
   PSTATE, twenty zeroes for the system registers, FPCR, FPSR and the vectors, low halves first.
   */
  lemma ExceptionLayout(icount: nat, fromPc: Word, toPc: Word, discon: DisconType, regs: RegFile, n: nat)
    requires icount < WORD_LIMIT && n < 32
    ensures
      var b := Serialise(ExceptionEntry(icount, fromPc, toPc, discon, regs));
      && |b| == 1000 && b[0] == 2 && b[1] == 0 && Field(b, 2, 2) == 1000 && Field(b, 4, 4) == 0
      && Field(b, 8, 8) == icount && Field(b, 16, 8) == fromPc && Field(b, 24, 8) == toPc
      && Field(b, 32, 8) == (match discon case Interrupt => 1 case Exception => 2 case HostCall => 4)
      && Field(b, 40 + 8 * n, 8) == (if n < 31 then regs.x[n] else regs.sp)
      && Field(b, 296, 8) == regs.pc && Field(b, 304, 8) == regs.pstate.ToTraceWord()
      && (n < 20 ==> Field(b, 312 + 8 * n, 8) == 0)
      && Field(b, 472, 8) == regs.fpcr && Field(b, 480, 8) == regs.fpsr
      && Field(b, 488 + 16 * n, 8) + Field(b, 496 + 16 * n, 8) * WORD_LIMIT == regs.v[n]
  {
    hide Field, Serialise, VecWords, Pstate.ToTraceWord;
    var event := ExceptionEntry(icount, fromPc, toPc, discon, regs);
    RecordFields(event, 0);
    RecordFields(event, 1);
    RecordFields(event, 2);
    RecordFields(event, 3);
    RecordFields(event, 4 + n);
    RecordFields(event, 36);
    RecordFields(event, 37);
    if n < 20 {
      RecordFields(event, 38 + n);
    }
    RecordFields(event, 58);
    RecordFields(event, 59);
    RecordFields(event, 60 + 2 * n);
    RecordFields(event, 61 + 2 * n);
    VecWordAt(regs.v, n);
  }

  /** The file header: magic, version 1, producer 2, the stream flags, the feature id and the name, cut or padded to 32. */
  lemma FileHeaderLayout(name: seq<Byte>, mode: FpMode)
    ensures
      var b := FileHeader(name, mode);
      && |b| == 80
      && b[..8] == ['C' as int, 'O' as int, 'R' as int, 'A' as int, 'C' as int, 'L' as int, 'E' as int, 1]
      && Field(b, 8, 4) == 1 && Field(b, 12, 4) == 2
      && Field(b, 16, 8) == (if mode.Precise? then 11 else 10)
      && Field(b, 24, 8) == 0x665f_e771_b960_5c07
      && (forall i: nat :: i < 32 ==> b[32 + i] == if i < |name| then name[i] else 0)
      && (forall i: nat :: 64 <= i < 80 ==> b[i] == 0)
  {
    hide ToLe, FromLe;
    SmallCode(FORMAT_VERSION);
    SmallCode(PRODUCER_CORACLE);
    WordRoundTrip(StreamFlags(mode));
    WordRoundTrip(CPU_FEATURE_ID);
    HeaderLayout(name, mode, []);
    var b := FileHeader(name, mode);
    assert b + [] == b;
    assert b[12..16] == ToLe(PRODUCER_CORACLE, 4);
    assert b[64..80] == Zeros(16);
    assert b[32..64] == PaddedName(name);
    forall i: nat | i < 32 ensures b[32 + i] == PaddedName(name)[i] {
      assert b[32 + i] == b[32..64][i];
    }
    forall i: nat | 64 <= i < 80 ensures b[i] == 0 {
      assert b[i] == b[64..80][i - 64];
    }
  }

  // ----- draining -----

  datatype WriterOp = Emit(event: Event) | Drain

  /** What has been drained so far, and what is left in the buffer. */
  datatype Drained = Drained(chunks: seq<seq<Byte>>, buffer: seq<Byte>)

  function Perform(ops: seq<WriterOp>): Drained {
    if ops == [] then Drained([], [])
    else
      var before := Perform(ops[..|ops| - 1]);
      match ops[|ops| - 1]
      case Emit(event) => before.(buffer := before.buffer + Serialise(event))
      case Drain => Drained(before.chunks + [before.buffer], [])
  }

  function EventsOf(ops: seq<WriterOp>): seq<Event> {
    if ops == [] then []
    else EventsOf(ops[..|ops| - 1]) + if ops[|ops| - 1].Emit? then [ops[|ops| - 1].event] else []
  }

  function Joined(chunks: seq<seq<Byte>>): seq<Byte> {
    if chunks == [] then [] else Joined(chunks[..|chunks| - 1]) + chunks[|chunks| - 1]
  }

  lemma JoinedAppend(chunks: seq<seq<Byte>>, last: seq<Byte>)
    ensures Joined([]) == [] && Joined(chunks + [last]) == Joined(chunks) + last
  {
    assert (chunks + [last])[..|chunks|] == chunks;
  }

  /** Whenever the buffer is drained, the pieces in order are the undrained stream. */
  lemma {:induction false} DrainingConcatenates(ops: seq<WriterOp>)
    ensures Joined(Perform(ops).chunks) + Perform(ops).buffer == SerialiseAll(EventsOf(ops))
  {
    hide Serialise, SerialiseAll, Joined;
    SerialiseNothing();
    if ops == [] {
      JoinedAppend([], []);
    } else {
      var n := |ops| - 1;
      DrainingConcatenates(ops[..n]);
      var before := Perform(ops[..n]);
      match ops[n] {
        case Emit(event) => SerialiseAppend(EventsOf(ops[..n]), event);
        case Drain =>
          JoinedAppend(before.chunks, before.buffer);
          assert EventsOf(ops) == EventsOf(ops[..n]);
      }
    }
  }

  /** A drain always cuts at a record boundary: every piece is a stream of whole records. */
  lemma {:induction false} DrainsCutAtRecords(ops: seq<WriterOp>) returns (pieces: seq<seq<Event>>, left: seq<Event>)
    ensures Perform(ops).buffer == SerialiseAll(left) && |Perform(ops).chunks| == |pieces|
    ensures forall i: nat :: i < |pieces| ==> Perform(ops).chunks[i] == SerialiseAll(pieces[i])
  {
    hide Serialise, SerialiseAll;
    SerialiseNothing();
    if ops == [] {
      pieces, left := [], [];
    } else {
      pieces, left := DrainsCutAtRecords(ops[..|ops| - 1]);
      match ops[|ops| - 1] {
        case Emit(event) =>
          SerialiseAppend(left, event);
          left := left + [event];
        case Drain =>
          pieces, left := pieces + [left], [];
      }
    }
  }

  // ----- from bytes back to machine states -----

  lemma {:induction false} EmittedCountsFit(core: S.Core, decode: Decoder, actions: seq<S.Action>)
    requires core.emitted == [] && core.icount + |actions| < WORD_LIMIT
    ensures
      var final := S.PerformAll(core, decode, actions);
      && final.icount <= core.icount + |actions|
      && forall i: nat :: i < |final.emitted| ==> CountFits(final.emitted[i]) && Kept(final.emitted[i]) == final.emitted[i]
  {
    if actions == [] {
    } else {
      EmittedCountsFit(core, decode, actions[..|actions| - 1]);
      ActionCountsFit(S.PerformAll(core, decode, actions[..|actions| - 1]), decode, actions[|actions| - 1]);
      hide S.Perform, Kept;
    }
  }

  lemma ActionCountsFit(core: S.Core, decode: Decoder, action: S.Action)
    requires core.icount + 1 < WORD_LIMIT
    requires forall i: nat :: i < |core.emitted| ==> CountFits(core.emitted[i]) && Kept(core.emitted[i]) == core.emitted[i]
    ensures
      var after := S.Perform(core, decode, action);
      && after.icount <= core.icount + 1
      && forall i: nat :: i < |after.emitted| ==> CountFits(after.emitted[i]) && Kept(after.emitted[i]) == after.emitted[i]
  {
    hide D.Execute, S.FetchWord;
    var deltas := Deltas(core.previous, core.machine.regs);
    assert Written(deltas) == deltas;
    hide Deltas, Written;
  }

  /**
   End to end: for any run of steps, host writes and exception reports, reading the stream the writer
   produced, file header included, and replaying the block records gives the exact register file on
   entry to every block.
   */
  lemma BytesReconstructStates(name: seq<Byte>, mode: FpMode, core: S.Core, decode: Decoder, actions: seq<S.Action>)
    requires core.previous.None? && core.emitted == [] && core.icount + |actions| < WORD_LIMIT
    ensures
      var bytes := FileHeader(name, mode) + SerialiseAll(S.PerformAll(core, decode, actions).emitted);
      var entries := S.Entries(core, decode, actions);
      && ReadFile(bytes).Some?
      && var blocks := S.Blocks(ReadFile(bytes).value.events);
         && |blocks| == |entries|
         && forall k: nat, regs: RegFile :: k < |blocks| && S.Replay(blocks[..k + 1]) == Visible(regs) <==>
              k < |blocks| && regs == entries[k].regs
  {
    hide S.PerformAll, S.Entries, S.Blocks, S.Replay, ReadFile, FileHeader, SerialiseAll, Visible, Kept;
    var final := S.PerformAll(core, decode, actions);
    var entries := S.Entries(core, decode, actions);
    S.NoEventsNoBlocks();
    S.ReplayReconstructs(core, decode, actions);
    EmittedCountsFit(core, decode, actions);
    FileRoundTrip(name, mode, final.emitted);
    assert KeptAll(final.emitted) == final.emitted;
    var blocks := S.Blocks(final.emitted);
    forall k: nat, regs: RegFile | k < |blocks| && S.Replay(blocks[..k + 1]) == Visible(regs)
      ensures regs == entries[k].regs
    {
      VisibleDetermines(regs, entries[k].regs);
    }
  }
}
