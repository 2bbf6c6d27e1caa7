/**
 Guest memory: a flat window of bytes with a bounds check and little-endian integers
 (crates/core/src/interp/memory.rs).

 `Image` is the contents as a value and the functions on it say what each access does; `FlatMemory`
 is the object the interpreter mutates, and its methods are proved against those functions.
 */
module Memory {
  import opened Powers
  import opened Bits

  type Byte = n: nat | n < 0x100

  /** The largest allocation: a vector holds at most `isize::MAX` bytes. */
  const MAX_ALLOCATION: nat := 0x7fff_ffff_ffff_ffff

  const PHYS_RAM_BASE: Word := 0x4000_0000

  datatype Contents = Contents(base: Word, bytes: seq<Byte>)

  type Image = c: Contents | |c.bytes| <= MAX_ALLOCATION witness Contents(PHYS_RAM_BASE, [])

  datatype Access<+T> = Done(value: T) | Fault(address: Word, isWrite: bool)

  // ----- little-endian integers -----

  function ToLe(value: nat, count: nat): (bytes: seq<Byte>)
    ensures |bytes| == count
  {
    if count == 0 then [] else [value % 0x100] + ToLe(value / 0x100, count - 1)
  }

  function FromLe(bytes: seq<Byte>): nat {
    if bytes == [] then 0 else bytes[0] + 0x100 * FromLe(bytes[1..])
  }

  function Zeros(count: nat): seq<Byte> {
    seq(count, _ => 0)
  }

  lemma {:induction false} ToLePrefix(value: nat, count: nat, total: nat)
    requires count <= total
    ensures ToLe(value, total)[..count] == ToLe(value, count)
  {
    if count > 0 {
      ToLePrefix(value / 0x100, count - 1, total - 1);
    }
  }

  /** Decoding an encoded integer gives back what fits in that many bytes. */
  lemma {:induction false} FromToLe(value: nat, count: nat)
    ensures FromLe(ToLe(value, count)) == LowBits(value, 8 * count)
  {
    hide Pow2, LowBits;
    if count == 0 {
      NoLowBits(value);
    } else {
      FromToLe(value / 0x100, count - 1);
      LowBytesSplit(value, count);
    }
  }

  /** Byte `k` of an encoding is the value's `k`-th from the least significant. */
  lemma {:induction false} ToLeByte(value: nat, count: nat, k: nat)
    requires k < count
    ensures ToLe(value, count)[k] == ShiftRight(value, 8 * k) % 0x100
  {
    if k > 0 {
      ToLeByte(value / 0x100, count - 1, k - 1);
      hide ToLe;
      ByteDown(value, k);
    }
  }

  lemma ByteDown(value: nat, k: nat)
    requires k > 0
    ensures ShiftRight(value / 0x100, 8 * (k - 1)) == ShiftRight(value, 8 * k)
  {
    Pow2Eight();
    hide Pow2;
    Pow2Add(8, 8 * (k - 1));
    var p := Pow2(8 * (k - 1));
    var q, r := value / 0x100 / p, value / 0x100 % p;
    DivBounds(value / 0x100, p);
    assert value == q * (0x100 * p) + (value % 0x100 + 0x100 * r) by {
      MulAssoc(q, 0x100, p);
    }
    DivModUnique(value, 0x100 * p, q, value % 0x100 + 0x100 * r);
  }

  lemma LowBytesSplit(value: nat, count: nat)
    requires count > 0
    ensures LowBits(value, 8 * count) == value % 0x100 + 0x100 * LowBits(value / 0x100, 8 * (count - 1))
  {
    Pow2Eight();
    hide Pow2;
    Pow2Add(8, 8 * (count - 1));
    var p := Pow2(8 * (count - 1));
    var q, r := value / 0x100 / p, value / 0x100 % p;
    DivBounds(value / 0x100, p);
    assert value == q * (0x100 * p) + (value % 0x100 + 0x100 * r) by {
      MulAssoc(q, 0x100, p);
    }
    DivModUnique(value, 0x100 * p, q, value % 0x100 + 0x100 * r);
  }

  lemma {:induction false} FromLePadded(bytes: seq<Byte>, padding: nat)
    ensures FromLe(bytes + Zeros(padding)) == FromLe(bytes)
    decreases |bytes| + padding
  {
    var padded := bytes + Zeros(padding);
    if bytes != [] {
      assert padded[1..] == bytes[1..] + Zeros(padding);
      FromLePadded(bytes[1..], padding);
    } else if padding > 0 {
      assert padded[1..] == bytes + Zeros(padding - 1);
      FromLePadded(bytes, padding - 1);
    } else {
      assert padded == bytes;
    }
  }

  /** Encoding a decoded byte string gives back the bytes. */
  lemma {:induction false} ToFromLe(bytes: seq<Byte>)
    ensures ToLe(FromLe(bytes), |bytes|) == bytes
  {
    if bytes != [] {
      ToFromLe(bytes[1..]);
      DivModUnique(FromLe(bytes), 0x100, FromLe(bytes[1..]), bytes[0]);
    }
  }

  lemma {:induction false} FromLeBound(bytes: seq<Byte>)
    ensures FromLe(bytes) < Pow2(8 * |bytes|)
  {
    ToFromLe(bytes);
    FromToLe(FromLe(bytes), |bytes|);
    hide Pow2;
    ShiftSplit(FromLe(bytes), 8 * |bytes|);
  }

  lemma FromLeWord(bytes: seq<Byte>)
    requires |bytes| <= 8
    ensures FromLe(bytes) < WORD_LIMIT
  {
    WordLimit();
    hide Pow2;
    FromLeBound(bytes);
    Pow2Monotone(8 * |bytes|, 64);
  }

  // ----- accesses as functions of the contents -----

  /** Where an access of `len` bytes starts, if all of it is mapped. */
  function Offset(m: Image, address: Word, len: nat, isWrite: bool): (r: Access<nat>)
    ensures r.Done? ==> r.value + len <= |m.bytes|
  {
    if address < m.base then Fault(address, isWrite)
    else
      var start := address - m.base;
      if start + len >= WORD_LIMIT then Fault(address, isWrite)
      else if start + len > |m.bytes| then Fault(address, isWrite)
      else Done(start)
  }

  function ReadBytes(m: Image, address: Word, len: nat): (r: Access<seq<Byte>>)
    ensures r.Done? ==> |r.value| == len
  {
    match Offset(m, address, len, false)
    case Fault(a, w) => Fault(a, w)
    case Done(start) => Done(m.bytes[start..start + len])
  }

  function Splice(bytes: seq<Byte>, start: nat, data: seq<Byte>): (r: seq<Byte>)
    requires start + |data| <= |bytes|
    ensures |r| == |bytes|
  {
    bytes[..start] + data + bytes[start + |data|..]
  }

  lemma SpliceElsewhere(bytes: seq<Byte>, start: nat, data: seq<Byte>, other: nat, len: nat)
    requires start + |data| <= |bytes| && other + len <= |bytes|
    requires start + |data| <= other || other + len <= start
    ensures Splice(bytes, start, data)[other..other + len] == bytes[other..other + len]
  {
    assert Splice(bytes, start, data)[..start] == bytes[..start];
    assert Splice(bytes, start, data)[start + |data|..] == bytes[start + |data|..];
    if other + len <= start {
      assert bytes[other..other + len] == bytes[..start][other..other + len];
    } else {
      var skip := other - (start + |data|);
      assert bytes[other..other + len] == bytes[start + |data|..][skip..skip + len];
    }
  }

  function WriteBytes(m: Image, address: Word, data: seq<Byte>): Access<Image> {
    match Offset(m, address, |data|, true)
    case Fault(a, w) => Fault(a, w)
    case Done(start) => Done(Contents(m.base, Splice(m.bytes, start, data)))
  }

  function ReadUint(m: Image, address: Word, width: nat): Access<Word>
    requires width <= 8
  {
    match ReadBytes(m, address, width)
    case Fault(a, w) => Fault(a, w)
    case Done(bytes) => FromLeWord(bytes + Zeros(8 - width)); Done(FromLe(bytes + Zeros(8 - width)))
  }

  function WriteUint(m: Image, address: Word, width: nat, value: Word): Access<Image>
    requires width <= 8
  {
    WriteBytes(m, address, ToLe(value, 8)[..width])
  }

  // ----- what accesses mean -----

  predicate IsMapped(m: Image, address: Word, len: nat) {
    m.base <= address && address + len <= m.base + |m.bytes|
  }

  predicate Disjoint(a: Word, aLen: nat, b: Word, bLen: nat) {
    a + aLen <= b || b + bLen <= a
  }

  /** An access completes exactly when every byte of it is mapped; a fault names the access. */
  lemma CompletesIffMapped(m: Image, address: Word, width: nat, value: Word)
    requires width <= 8
    ensures ReadUint(m, address, width).Done? <==> IsMapped(m, address, width)
    ensures WriteUint(m, address, width, value).Done? <==> IsMapped(m, address, width)
    ensures !IsMapped(m, address, width) ==> ReadUint(m, address, width) == Fault(address, false)
    ensures !IsMapped(m, address, width) ==> WriteUint(m, address, width, value) == Fault(address, true)
  {
  }

  /** A write keeps the window and is read back, at its own width or any narrower one. */
  lemma ReadAfterWrite(m: Image, address: Word, width: nat, value: Word, narrower: nat)
    requires narrower <= width <= 8
    requires WriteUint(m, address, width, value).Done?
    ensures
      var written := WriteUint(m, address, width, value).value;
      && written.base == m.base && |written.bytes| == |m.bytes|
      && ReadUint(written, address, narrower) == Done(LowBits(value, 8 * narrower))
  {
    hide Pow2, LowBits;
    var written := WriteUint(m, address, width, value).value;
    var start := address - m.base;
    ToLePrefix(value, width, 8);
    ToLePrefix(value, narrower, width);
    assert written.bytes[start..start + narrower] == ToLe(value, width)[..narrower];
    FromLePadded(ToLe(value, narrower), 8 - narrower);
    FromToLe(value, narrower);
  }

  /** A write leaves every read that does not overlap it as it was. */
  lemma WriteFrame(m: Image, address: Word, width: nat, value: Word, other: Word, len: nat)
    requires width <= 8 && WriteUint(m, address, width, value).Done?
    requires Disjoint(address, width, other, len)
    ensures ReadBytes(WriteUint(m, address, width, value).value, other, len) == ReadBytes(m, other, len)
  {
    var written := WriteUint(m, address, width, value).value;
    if ReadBytes(m, other, len).Done? {
      var start := other - m.base;
      SpliceElsewhere(m.bytes, address - m.base, ToLe(value, 8)[..width], start, len);
    }
  }

  /** The memory object: one contiguous window whose lowest address is `base`. */
  class FlatMemory {
    const base: Word
    var bytes: seq<Byte>

    predicate Valid()
      reads this
    {
      |bytes| <= MAX_ALLOCATION
    }

    function Image(): Image
      requires Valid()
      reads this
    {
      Contents(base, bytes)
    }

    constructor At(base: Word, size: nat)
      requires size <= MAX_ALLOCATION
      ensures Valid() && Image() == Contents(base, Zeros(size))
    {
      this.base := base;
      bytes := Zeros(size);
    }

    method Read(address: Word, len: nat) returns (r: Access<seq<Byte>>)
      requires Valid()
      ensures r == ReadBytes(Image(), address, len)
    {
      var offset := Offset(Image(), address, len, false);
      match offset {
        case Fault(a, w) => r := Fault(a, w);
        case Done(start) => r := Done(bytes[start..start + len]);
      }
    }

    /** On a fault the contents are untouched; otherwise exactly the addressed bytes change. */
    method Write(address: Word, data: seq<Byte>) returns (r: Access<()>)
      requires Valid()
      modifies this
      ensures Valid()
      ensures
        var written := WriteBytes(old(Image()), address, data);
        && r == (match written case Fault(a, w) => Fault(a, w) case Done(_) => Done(()))
        && Image() == (match written case Fault(_, _) => old(Image()) case Done(image) => image)
    {
      var offset := Offset(Image(), address, |data|, true);
      match offset {
        case Fault(a, w) =>
          r := Fault(a, w);
        case Done(start) =>
          bytes := Splice(bytes, start, data);
          r := Done(());
      }
    }

    method LoadUint(address: Word, width: nat) returns (r: Access<Word>)
      requires Valid() && width <= 8
      ensures r == ReadUint(Image(), address, width)
    {
      var buffer := Read(address, width);
      match buffer {
        case Fault(a, w) => r := Fault(a, w);
        case Done(read) =>
          FromLeWord(read + Zeros(8 - width));
          r := Done(FromLe(read + Zeros(8 - width)));
      }
    }

    method StoreUint(address: Word, width: nat, value: Word) returns (r: Access<()>)
      requires Valid() && width <= 8
      modifies this
      ensures Valid()
      ensures
        var written := WriteUint(old(Image()), address, width, value);
        && r == (match written case Fault(a, w) => Fault(a, w) case Done(_) => Done(()))
        && Image() == (match written case Fault(_, _) => old(Image()) case Done(image) => image)
    {
      r := Write(address, ToLe(value, 8)[..width]);
    }
  }
}
