/**
 The architectural state a step reads and writes: the general-purpose, vector and status registers,
 PC and PSTATE (crates/core/src/regfile.rs, crates/core/src/pstate.rs, crates/core/src/reg.rs), and
 the traps a step can raise (crates/core/src/trap.rs).
 */
module Registers {
  import opened Bits
  import opened Powers

  const NUM_GPR: nat := 31
  const NUM_VEC: nat := 32
  const QUAD_LIMIT: nat := WORD_LIMIT * WORD_LIMIT

  type GprIndex = n: nat | n < NUM_GPR

  /** The 128 bits of a vector register. */
  type Quad = n: nat | n < QUAD_LIMIT

  /** A register operand, with encoding slot 31 already resolved to `SP` or `ZR`. */
  datatype Gpr = X(index: GprIndex) | SP | ZR

  datatype Nzcv = Nzcv(n: bool, z: bool, c: bool, v: bool) {

    function ToBits(): nat {
      Flag(n) * 8 + Flag(z) * 4 + Flag(c) * 2 + Flag(v)
    }

    static function FromBits(bits: nat): Nzcv {
      Nzcv(bits / 8 % 2 == 1, bits / 4 % 2 == 1, bits / 2 % 2 == 1, bits % 2 == 1)
    }
  }

  datatype Daif = Daif(d: bool, a: bool, i: bool, f: bool) {

    function ToBits(): nat {
      Flag(d) * 8 + Flag(a) * 4 + Flag(i) * 2 + Flag(f)
    }

    static function FromBits(bits: nat): Daif {
      Daif(bits / 8 % 2 == 1, bits / 4 % 2 == 1, bits / 2 % 2 == 1, bits % 2 == 1)
    }
  }

  datatype ExceptionLevel = El0 | El1

  datatype StackPointerSelect = SpEl0 | SpElx

  datatype Pstate = Pstate(nzcv: Nzcv, daif: Daif, el: ExceptionLevel, spSel: StackPointerSelect) {

    /** The flags in bits 28 up, the interrupt masks in 6 up, the level in 2 up and the stack select in 0. */
    function ToTraceWord(): (w: Word) {
      nzcv.ToBits() * 0x1000_0000 + daif.ToBits() * 0x40 + Flag(el.El1?) * 4 + Flag(spSel.SpElx?)
    }
  }

  function Flag(b: bool): nat {
    if b then 1 else 0
  }

  /** Reading the fields back out of the places TRACE_FORMAT section 6 assigns them. */
  function FromTraceWord(word: Word): Pstate {
    Pstate(Nzcv.FromBits(word / 0x1000_0000 % 16), Daif.FromBits(word / 0x40 % 16),
           if word / 4 % 4 == 1 then El1 else El0, if word % 4 == 1 then SpElx else SpEl0)
  }

  lemma NzcvRoundTrip(nzcv: Nzcv)
    ensures nzcv.ToBits() < 16 && Nzcv.FromBits(nzcv.ToBits()) == nzcv
  {
  }

  lemma DaifRoundTrip(daif: Daif)
    ensures daif.ToBits() < 16 && Daif.FromBits(daif.ToBits()) == daif
  {
  }

  lemma UnpackFields(a: nat, b: nat, e: nat, s: nat)
    requires a < 16 && b < 16 && e < 2 && s < 2
    ensures var w := a * 0x1000_0000 + b * 0x40 + e * 4 + s;
            w / 0x1000_0000 % 16 == a && w / 0x40 % 16 == b && w / 4 % 4 == e && w % 4 == s
  {
    var w := a * 0x1000_0000 + b * 0x40 + e * 4 + s;
    DivModUnique(w, 0x1000_0000, a, b * 0x40 + e * 4 + s);
    DivModUnique(w, 0x40, a * 0x40_0000 + b, e * 4 + s);
    DivModUnique(a * 0x40_0000 + b, 16, a * 0x4_0000, b);
    DivModUnique(w, 4, a * 0x400_0000 + b * 16 + e, s);
    DivModUnique(a * 0x400_0000 + b * 16 + e, 4, a * 0x100_0000 + b * 4, e);
  }

  /** The normalised trace word loses nothing: processor state can be read back from it. */
  lemma TraceWordRoundTrip(p: Pstate)
    ensures FromTraceWord(p.ToTraceWord()) == p
  {
    NzcvRoundTrip(p.nzcv);
    DaifRoundTrip(p.daif);
    hide Nzcv.ToBits, Nzcv.FromBits, Daif.ToBits, Daif.FromBits;
    UnpackFields(p.nzcv.ToBits(), p.daif.ToBits(), Flag(p.el.El1?), Flag(p.spSel.SpElx?));
  }

  /** Bit `k` of a word made of a high part above place `j` and a low part below it. */
  lemma {:induction false} BitOfParts(high: nat, low: nat, j: nat, k: nat)
    requires low < Pow2(j)
    ensures Bit(high * Pow2(j) + low, k) == if k < j then Bit(low, k) else Bit(high, k - j)
  {
    if j > 0 {
      var x := high * Pow2(j) + low;
      Pow2Double(j - 1);
      MulAssoc(high, 2, Pow2(j - 1));
      assert high * Pow2(j) == 2 * (high * Pow2(j - 1));
      assert x / 2 == high * Pow2(j - 1) + low / 2 && x % 2 == low % 2;
      if k > 0 {
        BitOfParts(high, low / 2, j - 1, k - 1);
      }
    }
  }

  lemma {:induction false} FlagBit(b: bool, k: nat)
    ensures Bit(Flag(b), k) == (k == 0 && b)
  {
    if k > 0 {
      ZeroHasNoBits(k - 1);
    }
  }

  lemma FlagBits(a: bool, b: bool, c: bool, d: bool, k: nat)
    ensures Bit(Flag(a) * 8 + Flag(b) * 4 + Flag(c) * 2 + Flag(d), k)
         == ((k == 3 && a) || (k == 2 && b) || (k == 1 && c) || (k == 0 && d))
  {
    hide Bit;
    SmallPowers();
    hide Pow2;
    BitOfParts(Flag(a), Flag(b) * 4 + Flag(c) * 2 + Flag(d), 3, k);
    FlagBit(a, if k >= 3 then k - 3 else 0);
    BitOfParts(Flag(b), Flag(c) * 2 + Flag(d), 2, k);
    FlagBit(b, if k >= 2 then k - 2 else 0);
    BitOfParts(Flag(c), Flag(d), 1, k);
    FlagBit(c, if k >= 1 then k - 1 else 0);
    FlagBit(d, k);
  }

  lemma NzcvBit(nzcv: Nzcv, k: nat)
    ensures Bit(nzcv.ToBits(), k)
         == ((k == 3 && nzcv.n) || (k == 2 && nzcv.z) || (k == 1 && nzcv.c) || (k == 0 && nzcv.v))
  {
    FlagBits(nzcv.n, nzcv.z, nzcv.c, nzcv.v, k);
  }

  lemma DaifBit(daif: Daif, k: nat)
    ensures Bit(daif.ToBits(), k)
         == ((k == 3 && daif.d) || (k == 2 && daif.a) || (k == 1 && daif.i) || (k == 0 && daif.f))
  {
    FlagBits(daif.d, daif.a, daif.i, daif.f, k);
  }

  lemma SmallPowers()
    ensures Pow2(1) == 2 && Pow2(2) == 4 && Pow2(3) == 8 && Pow2(6) == 0x40 && Pow2(28) == 0x1000_0000
  {
    Pow2Eight();
    assert Pow2(1) == 2 && Pow2(2) == 4 && Pow2(3) == 8 && Pow2(4) == 16 && Pow2(6) == 0x40;
    hide Pow2;
    Pow2Add(8, 4);
    Pow2Add(8, 8);
    Pow2Add(12, 16);
  }

  /** Which field a bit of a packed word belongs to. */
  lemma PackedBit(a: nat, b: nat, e: nat, s: nat, k: nat)
    requires b < 16 && e < 2 && s < 2
    ensures Bit(a * 0x1000_0000 + b * 0x40 + e * 4 + s, k)
         == if k >= 28 then Bit(a, k - 28) else if k >= 6 then Bit(b, k - 6)
            else if k >= 2 then Bit(e, k - 2) else Bit(s, k)
  {
    hide Bit;
    SmallPowers();
    hide Pow2;
    BitOfParts(a, b * 0x40 + e * 4 + s, 28, k);
    BitOfParts(b, e * 4 + s, 6, k);
    BitOfParts(e, s, 2, k);
  }

  /** Every bit of the trace word: the flags at 31 to 28, the masks at 9 to 6, EL1 at 2, SP_ELx at 0, zeroes elsewhere. */
  lemma TraceWordBits(p: Pstate, k: nat)
    ensures Bit(p.ToTraceWord(), k)
         == match k
            case 31 => p.nzcv.n
            case 30 => p.nzcv.z
            case 29 => p.nzcv.c
            case 28 => p.nzcv.v
            case 9 => p.daif.d
            case 8 => p.daif.a
            case 7 => p.daif.i
            case 6 => p.daif.f
            case 2 => p.el.El1?
            case 0 => p.spSel.SpElx?
            case _ => false
  {
    hide Bit, Flag, Nzcv.ToBits, Daif.ToBits, Nzcv.FromBits, Daif.FromBits;
    NzcvRoundTrip(p.nzcv);
    DaifRoundTrip(p.daif);
    FlagIsBit(p.el.El1?);
    FlagIsBit(p.spSel.SpElx?);
    PackedBit(p.nzcv.ToBits(), p.daif.ToBits(), Flag(p.el.El1?), Flag(p.spSel.SpElx?), k);
    if k >= 28 {
      NzcvBit(p.nzcv, k - 28);
    } else if k >= 6 {
      DaifBit(p.daif, k - 6);
    } else if k >= 2 {
      FlagBit(p.el.El1?, k - 2);
    } else {
      FlagBit(p.spSel.SpElx?, k);
    }
  }

  lemma FlagIsBit(b: bool)
    ensures Flag(b) < 2
  {
  }

  datatype RegisterState = RegisterState(x: seq<Word>, sp: Word, pc: Word, v: seq<Quad>, pstate: Pstate,
                                         fpcr: Word, fpsr: Word) {

    predicate WellFormed() {
      |x| == NUM_GPR && |v| == NUM_VEC
    }
  }

  const RESET_PSTATE := Pstate(Nzcv(false, false, false, false), Daif(false, false, false, false), El0, SpEl0)

  const RESET_REGISTERS :=
    RegisterState(seq(NUM_GPR, _ => 0), 0, 0, seq(NUM_VEC, _ => 0), RESET_PSTATE, 0, 0)

  type RegFile = r: RegisterState | r.WellFormed() witness RESET_REGISTERS

  /** A 64-bit read; `ZR` reads as zero. */
  function ReadX(regs: RegFile, reg: Gpr): Word {
    match reg
    case X(index) => regs.x[index]
    case SP => regs.sp
    case ZR => 0
  }

  /** A 64-bit write; a write to `ZR` is discarded. */
  function WriteX(regs: RegFile, reg: Gpr, value: Word): (r: RegFile)
    ensures ReadX(r, reg) == if reg.ZR? then 0 else value
    ensures forall other: Gpr :: other != reg ==> ReadX(r, other) == ReadX(regs, other)
    ensures r.pc == regs.pc && r.v == regs.v && r.pstate == regs.pstate && r.fpcr == regs.fpcr && r.fpsr == regs.fpsr
  {
    match reg
    case X(index) => regs.(x := regs.x[index := value])
    case SP => regs.(sp := value)
    case ZR => regs
  }

  datatype Trap =
    | UndefinedInstruction(pc: Word, encoding: nat)
    | SupervisorCall(pc: Word, imm: nat)
    | Breakpoint(pc: Word, imm: nat)
    | DataAbort(pc: Word, address: Word, isWrite: bool)
    | InstructionAbort(pc: Word)
}
