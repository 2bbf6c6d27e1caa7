/**
 The decoded-instruction cache: direct-mapped by PC, tagged by the whole instruction word
 (crates/core/src/interp/cache.rs).
 */
module DecodeCaching {
  import opened Bits
  import opened Registers
  import opened Instructions

  const DECODE_CACHE_ENTRIES: nat := 4096

  /** The tag of a slot nothing has been stored in. */
  const EMPTY_TAG: nat := 0

  const EMPTY_ENTRY: Instruction := DecodedWord(Unimplemented, OtherForm, X64, false, EMPTY_TAG)

  /** Instructions are four-byte aligned, so the low two bits of PC carry nothing. */
  function Slot(pc: Word): (slot: nat)
    ensures slot < DECODE_CACHE_ENTRIES
  {
    pc / 4 % DECODE_CACHE_ENTRIES
  }

  class DecodeCache {
    const decode: Decoder
    const tags: array<nat>
    const entries: array<Instruction>
    var hits: nat
    var misses: nat

    /** Every occupied slot holds the decoding of its tag. */
    ghost predicate Valid()
      reads this, tags, entries
    {
      && tags.Length == entries.Length == DECODE_CACHE_ENTRIES
      && forall s: nat :: s < DECODE_CACHE_ENTRIES && tags[s] != EMPTY_TAG ==> entries[s] == decode(tags[s])
    }

    constructor (decode: Decoder)
      ensures Valid() && fresh(tags) && fresh(entries)
      ensures this.decode == decode
      ensures tags[..] == EmptyTags() && hits == misses == 0
    {
      this.decode := decode;
      tags := new nat[DECODE_CACHE_ENTRIES](_ => EMPTY_TAG);
      entries := new Instruction[DECODE_CACHE_ENTRIES](_ => EMPTY_ENTRY);
      hits, misses := 0, 0;
      new;
      assert tags[..] == EmptyTags();
    }

    /** Whatever was looked up before, the answer is the decoding of the word asked for. */
    method Decoded(pc: Word, encoding: nat) returns (insn: Instruction)
      requires Valid()
      modifies this`hits, this`misses, tags, entries
      ensures Valid()
      ensures insn == decode(encoding)
      ensures tags[..] == Touched(old(tags[..]), pc, encoding)
      ensures hits == old(hits) + (if IsHit(old(tags[..]), pc, encoding) then 1 else 0)
      ensures misses == old(misses) + (if IsHit(old(tags[..]), pc, encoding) then 0 else 1)
    {
      var slot := Slot(pc);
      if tags[slot] == encoding && encoding != EMPTY_TAG {
        hits := hits + 1;
        return entries[slot];
      }
      misses := misses + 1;
      insn := decode(encoding);
      tags[slot] := encoding;
      entries[slot] := insn;
    }
  }

  // ----- which lookups hit -----

  function EmptyTags(): (tags: seq<nat>)
    ensures |tags| == DECODE_CACHE_ENTRIES
  {
    seq(DECODE_CACHE_ENTRIES, _ => EMPTY_TAG)
  }

  predicate IsHit(tags: seq<nat>, pc: Word, encoding: nat)
    requires |tags| == DECODE_CACHE_ENTRIES
  {
    tags[Slot(pc)] == encoding && encoding != EMPTY_TAG
  }

  function Touched(tags: seq<nat>, pc: Word, encoding: nat): (r: seq<nat>)
    requires |tags| == DECODE_CACHE_ENTRIES
    ensures |r| == DECODE_CACHE_ENTRIES
  {
    tags[Slot(pc) := encoding]
  }

  /** Two instruction addresses share a slot exactly when they lie a multiple of 16 KiB apart. */
  lemma SlotsCollide(a: Word, b: Word)
    requires a % 4 == 0 && b % 4 == 0
    ensures Slot(a) == Slot(b) <==> (a as int - b as int) % 16384 == 0
  {
  }

  datatype Lookup = Lookup(pc: Word, encoding: nat)

  /** The tags an empty cache holds after a sequence of lookups. */
  function TagsAfter(lookups: seq<Lookup>): (tags: seq<nat>)
    ensures |tags| == DECODE_CACHE_ENTRIES
  {
    if lookups == [] then EmptyTags()
    else
      var last := lookups[|lookups| - 1];
      Touched(TagsAfter(lookups[..|lookups| - 1]), last.pc, last.encoding)
  }

  /** How many of a sequence of lookups an empty cache has to decode. */
  function Misses(lookups: seq<Lookup>): nat {
    if lookups == [] then 0
    else
      var before, last := lookups[..|lookups| - 1], lookups[|lookups| - 1];
      Misses(before) + if IsHit(TagsAfter(before), last.pc, last.encoding) then 0 else 1
  }

  predicate IsLastAt(lookups: seq<Lookup>, i: nat, slot: nat) {
    && i < |lookups| && Slot(lookups[i].pc) == slot
    && forall j: nat :: i < j < |lookups| ==> Slot(lookups[j].pc) != slot
  }

  /** A slot holds the word of the last lookup that mapped to it. */
  lemma {:induction false} SlotHoldsLast(lookups: seq<Lookup>, slot: nat)
    requires slot < DECODE_CACHE_ENTRIES
    ensures TagsAfter(lookups)[slot] != EMPTY_TAG ==>
              exists i: nat :: IsLastAt(lookups, i, slot) && lookups[i].encoding == TagsAfter(lookups)[slot]
    ensures forall i: nat :: IsLastAt(lookups, i, slot) ==> lookups[i].encoding == TagsAfter(lookups)[slot]
  {
    if lookups != [] {
      var n := |lookups| - 1;
      var before := lookups[..n];
      SlotHoldsLast(before, slot);
      if Slot(lookups[n].pc) == slot {
        assert IsLastAt(lookups, n, slot);
        assert forall i: nat :: IsLastAt(lookups, i, slot) ==> i == n;
      } else {
        assert forall i: nat :: IsLastAt(lookups, i, slot) <==> IsLastAt(before, i, slot);
      }
    }
  }

  /**
   A lookup hits exactly when the last lookup to share its slot was of the same word: aliasing PCs
   evict each other, rewritten code misses, and the all-zero word never hits.
   */
  lemma HitsExactlyWhenRepeated(lookups: seq<Lookup>, pc: Word, encoding: nat)
    ensures IsHit(TagsAfter(lookups), pc, encoding)
       <==> encoding != EMPTY_TAG
            && exists i: nat :: IsLastAt(lookups, i, Slot(pc)) && lookups[i].encoding == encoding
  {
    SlotHoldsLast(lookups, Slot(pc));
  }

  function Slots(lookups: seq<Lookup>): set<nat> {
    set i: nat | i < |lookups| :: Slot(lookups[i].pc)
  }

  /** No two lookups that share a slot differ, and none is of the empty tag: a loop that fits. */
  predicate FitsCache(lookups: seq<Lookup>) {
    && (forall i: nat :: i < |lookups| ==> lookups[i].encoding != EMPTY_TAG)
    && (forall i: nat, j: nat :: i < |lookups| && j < |lookups| && Slot(lookups[i].pc) == Slot(lookups[j].pc)
                                 ==> lookups[i].encoding == lookups[j].encoding)
  }

  lemma SlotsGrow(lookups: seq<Lookup>)
    requires lookups != []
    ensures Slots(lookups) == Slots(lookups[..|lookups| - 1]) + {Slot(lookups[|lookups| - 1].pc)}
  {
    var n := |lookups| - 1;
    forall s | s in Slots(lookups[..n]) ensures s in Slots(lookups) {
      var i: nat :| i < n && Slot(lookups[..n][i].pc) == s;
      assert Slot(lookups[i].pc) == s;
    }
    assert Slot(lookups[n].pc) in Slots(lookups);
    forall s | s in Slots(lookups) && s != Slot(lookups[n].pc) ensures s in Slots(lookups[..n]) {
      var i: nat :| i < |lookups| && Slot(lookups[i].pc) == s;
      assert Slot(lookups[..n][i].pc) == s;
    }
  }

  /** In a loop that fits, a lookup hits exactly when its slot has been touched before. */
  lemma FittingHit(before: seq<Lookup>, last: Lookup)
    requires FitsCache(before + [last])
    ensures IsHit(TagsAfter(before), last.pc, last.encoding) <==> Slot(last.pc) in Slots(before)
  {
    var all := before + [last];
    assert all[|before|] == last;
    assert forall i: nat :: i < |before| ==> all[i] == before[i];
    HitsExactlyWhenRepeated(before, last.pc, last.encoding);
    if Slot(last.pc) in Slots(before) {
      var i := LastAt(before, Slot(last.pc));
      assert Slot(all[i].pc) == Slot(all[|before|].pc);
    }
  }

  /** A loop that fits the cache decodes each slot it touches once, however often it goes round. */
  lemma {:induction false} FittingLoopMissesOncePerSlot(lookups: seq<Lookup>)
    requires FitsCache(lookups)
    ensures Misses(lookups) == |Slots(lookups)|
  {
    if lookups == [] {
      assert Slots(lookups) == {};
    } else {
      var n := |lookups| - 1;
      assert lookups == lookups[..n] + [lookups[n]];
      assert FitsCache(lookups[..n]);
      FittingLoopMissesOncePerSlot(lookups[..n]);
      SlotsGrow(lookups);
      FittingHit(lookups[..n], lookups[n]);
    }
  }

  lemma {:induction false} LastAt(lookups: seq<Lookup>, slot: nat) returns (i: nat)
    requires slot in Slots(lookups)
    ensures IsLastAt(lookups, i, slot)
  {
    var n := |lookups| - 1;
    if Slot(lookups[n].pc) == slot {
      i := n;
    } else {
      var j: nat :| j < |lookups| && Slot(lookups[j].pc) == slot;
      assert lookups[..n][j] == lookups[j];
      i := LastAt(lookups[..n], slot);
    }
  }
}
