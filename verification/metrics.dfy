/**
 * BlockMetrics: an access bitmap for one block, bytesPerRestart bytes per
 * restart point and one bit per (restart index, run ordinal) pair, together
 * with the database key (file number, block offset) and value (restart count,
 * bytes per restart, bitmap bytes) it is stored under.
 */
module Metrics {
  import opened Coding

  /** kBytesPerRestart: the bitmap bytes a new BlockMetrics gives each restart
      point, so 16 ordinals per run before the bits repeat. */
  const BytesPerRestart: Uint32 := 2

  // ---------------------------------------------------------------------------
  // Bit addressing
  // ---------------------------------------------------------------------------

  /** A bit of the bitmap: the byte, and the bit inside it. */
  datatype BitAddress = BitAddress(byte: nat, bit: nat)

  /** The modulus of the ordinal: bytes_per_restart * 8 in uint32 arithmetic. */
  function OrdinalModulus(bpr: Uint32): nat
  {
    (bpr * 8) % TwoTo32
  }

  /** The address RecordAccess and IsHot compute.  The ordinal is reduced
      modulo the bits of one run; restart_index * bytes_per_restart is a uint32
      product, so it wraps; the bit index within the run is added in size_t. */
  function Address(bpr: Uint32, ri: nat, ro: Uint32): (a: BitAddress)
    requires OrdinalModulus(bpr) != 0
    ensures a.bit < 8
  {
    var bitIdx := ro % OrdinalModulus(bpr);
    BitAddress((ri * bpr) % TwoTo32 + bitIdx / 8, bitIdx % 8)
  }

  /** Bitmap sizes whose arithmetic never wraps: a non-zero bytes_per_restart
      whose eight-fold fits in 32 bits, and a bitmap size that fits in 32 bits. */
  predicate Addressable(n: Uint32, bpr: Uint32)
  {
    0 < bpr && bpr * 8 < TwoTo32 && n * bpr < TwoTo32
  }

  /** Without wrap-around, a restart index below n addresses a byte inside the
      n * bpr bitmap, in the run's own bpr bytes; a larger index whose product
      does not wrap addresses a byte past the end (nothing checks the index). */
  lemma AddressInBitmap(n: Uint32, bpr: Uint32, ri: nat, ro: Uint32)
    requires Addressable(n, bpr)
    ensures OrdinalModulus(bpr) == bpr * 8
    ensures ri < n ==> ri * bpr <= Address(bpr, ri, ro).byte < (ri + 1) * bpr <= n * bpr
    ensures n <= ri && ri * bpr < TwoTo32 ==> Address(bpr, ri, ro).byte >= n * bpr
  {
    AddressSplitModulus(bpr);
    if ri < n {
      AddressInRun(n, bpr, ri, ro);
    } else if ri * bpr < TwoTo32 {
      AddressPastEnd(n, bpr, ri, ro);
    }
  }

  lemma AddressSplitModulus(bpr: Uint32)
    requires 0 < bpr && bpr * 8 < TwoTo32
    ensures OrdinalModulus(bpr) == bpr * 8
  {
  }

  lemma AddressInRun(n: Uint32, bpr: Uint32, ri: nat, ro: Uint32)
    requires Addressable(n, bpr) && ri < n
    ensures ri * bpr <= Address(bpr, ri, ro).byte < (ri + 1) * bpr <= n * bpr
  {
    var off := AddressSplit(bpr, ri, ro);
    var run := ri * bpr;
    MulMonotonic(ri + 1, n, bpr);
    MulSucc(ri, bpr);
    assert run + bpr <= n * bpr;
    ProductFits(run);
  }

  lemma AddressPastEnd(n: Uint32, bpr: Uint32, ri: nat, ro: Uint32)
    requires Addressable(n, bpr) && n <= ri && ri * bpr < TwoTo32
    ensures Address(bpr, ri, ro).byte >= n * bpr
  {
    var off := AddressSplit(bpr, ri, ro);
    MulMonotonic(n, ri, bpr);
    ProductFits(ri * bpr);
  }

  /** The byte of an address is the wrapped run start plus an offset below
      bytes_per_restart. */
  lemma AddressSplit(bpr: Uint32, ri: nat, ro: Uint32) returns (off: nat)
    requires 0 < bpr && bpr * 8 < TwoTo32
    ensures OrdinalModulus(bpr) == bpr * 8
    ensures off < bpr && Address(bpr, ri, ro).byte == (ri * bpr) % TwoTo32 + off
  {
    var bitIdx := ro % (bpr * 8);
    off := bitIdx / 8;
  }

  lemma ProductFits(x: nat)
    requires x < TwoTo32
    ensures x % TwoTo32 == x
  {
  }

  lemma MulSucc(a: nat, k: nat)
    ensures (a + 1) * k == a * k + k
  {
  }

  /** Within one bitmap, two pairs share a bit exactly when they name the same
      run and their ordinals agree modulo 8 * bpr: ordinals 8 * bpr apart are
      recorded together. */
  lemma AddressInjective(n: Uint32, bpr: Uint32, ri: nat, ro: Uint32, ri': nat, ro': Uint32)
    requires Addressable(n, bpr) && ri < n && ri' < n
    ensures Address(bpr, ri, ro) == Address(bpr, ri', ro') <==>
              ri == ri' && ro % (bpr * 8) == ro' % (bpr * 8)
  {
    AddressInBitmap(n, bpr, ri, ro);
    AddressInBitmap(n, bpr, ri', ro');
    var b, b' := ro % (bpr * 8), ro' % (bpr * 8);
    if Address(bpr, ri, ro) == Address(bpr, ri', ro') {
      SameRun(bpr, ri, ri', Address(bpr, ri, ro).byte);
      assert b == 8 * (b / 8) + b % 8 && b' == 8 * (b' / 8) + b' % 8;
    }
  }

  /** The runs of a bitmap do not overlap: a byte lies in one run's bpr bytes. */
  lemma SameRun(bpr: nat, ri: nat, ri': nat, byte: nat)
    requires ri * bpr <= byte < (ri + 1) * bpr && ri' * bpr <= byte < (ri' + 1) * bpr
    ensures ri == ri'
  {
    if ri < ri' {
      MulMonotonic(ri + 1, ri', bpr);
      assert false;
    } else if ri' < ri {
      MulMonotonic(ri' + 1, ri, bpr);
      assert false;
    }
  }

  lemma MulMonotonic(a: nat, c: nat, k: nat)
    requires a <= c
    ensures a * k <= c * k
  {
  }

  // ---------------------------------------------------------------------------
  // The bitmap as a value
  // ---------------------------------------------------------------------------

  /** The byte with only the given bit set: 1 << bit. */
  function Mask(bit: nat): (m: bv8)
    requires bit < 8
  {
    (1 as bv8) << bit
  }

  predicate InBitmap(bits: seq<bv8>, a: BitAddress)
  {
    a.byte < |bits| && a.bit < 8
  }

  /** The bit at a is set. */
  predicate HotIn(bits: seq<bv8>, a: BitAddress)
    requires InBitmap(bits, a)
  {
    bits[a.byte] & Mask(a.bit) != 0
  }

  /** The bitmap with the bit at a set: metrics[byteIdx] |= 1 << bitIdx. */
  function SetBit(bits: seq<bv8>, a: BitAddress): (r: seq<bv8>)
    requires InBitmap(bits, a)
    ensures |r| == |bits|
  {
    bits[a.byte := bits[a.byte] | Mask(a.bit)]
  }

  /** Byte-wise OR of two bitmaps of the same size. */
  function OrBytes(a: seq<bv8>, b: seq<bv8>): (r: seq<bv8>)
    requires |a| == |b|
    ensures |r| == |a|
  {
    seq(|a|, i requires 0 <= i < |a| => a[i] | b[i])
  }

  /** The all-clear bitmap of a new BlockMetrics. */
  function Zeros(size: nat): (r: seq<bv8>)
    ensures |r| == size
  {
    seq(size, _ => 0)
  }

  lemma MaskBits(v: bv8, x: nat, y: nat)
    requires x < 8 && y < 8
    ensures (v | Mask(x)) & Mask(y) != 0 <==> v & Mask(y) != 0 || x == y
  {
    if x == 0 { } else if x == 1 { } else if x == 2 { } else if x == 3 { }
    else if x == 4 { } else if x == 5 { } else if x == 6 { } else { }
  }

  /** SetBit sets exactly the bit at a: afterwards a bit is set when it was
      set before or is the bit at a. */
  lemma SetBitExactly(bits: seq<bv8>, a: BitAddress, b: BitAddress)
    requires InBitmap(bits, a) && InBitmap(bits, b)
    ensures HotIn(SetBit(bits, a), b) <==> HotIn(bits, b) || a == b
  {
    if a.byte == b.byte {
      MaskBits(bits[a.byte], a.bit, b.bit);
    }
  }

  lemma OrBits(v: bv8, w: bv8, y: nat)
    requires y < 8
    ensures (v | w) & Mask(y) != 0 <==> v & Mask(y) != 0 || w & Mask(y) != 0
  {
  }

  /** After OR-ing, a bit is set exactly when it was set in either bitmap; in
      particular joining never clears a bit. */
  lemma OrBytesHot(a: seq<bv8>, b: seq<bv8>, x: BitAddress)
    requires |a| == |b| && InBitmap(a, x)
    ensures HotIn(OrBytes(a, b), x) <==> HotIn(a, x) || HotIn(b, x)
  {
    OrBits(a[x.byte], b[x.byte], x.bit);
  }

  /** Joining a bitmap with itself changes nothing. */
  lemma OrBytesIdempotent(a: seq<bv8>)
    ensures OrBytes(a, a) == a
  {
    assert forall i :: 0 <= i < |a| ==> OrBytes(a, a)[i] == a[i];
  }

  /** Joining a with b and b with a give the same bitmap. */
  lemma OrBytesCommutative(a: seq<bv8>, b: seq<bv8>)
    requires |a| == |b|
    ensures OrBytes(a, b) == OrBytes(b, a)
  {
    assert forall i :: 0 <= i < |a| ==> OrBytes(a, b)[i] == OrBytes(b, a)[i];
  }

  /** Joining twice with the same bitmap is joining once. */
  lemma OrBytesAbsorbs(a: seq<bv8>, b: seq<bv8>)
    requires |a| == |b|
    ensures OrBytes(OrBytes(a, b), b) == OrBytes(a, b)
  {
    var ab := OrBytes(a, b);
    assert forall i :: 0 <= i < |a| ==> OrBytes(ab, b)[i] == ab[i];
  }

  /** Nothing is hot in a new bitmap. */
  lemma ZerosCold(size: nat, x: BitAddress)
    requires InBitmap(Zeros(size), x)
    ensures !HotIn(Zeros(size), x)
  {
    assert Zeros(size)[x.byte] == 0;
  }

  // ---------------------------------------------------------------------------
  // Bytes of the serialised bitmap
  // ---------------------------------------------------------------------------

  function ToBytes(s: seq<bv8>): (r: seq<Byte>)
    ensures |r| == |s|
  {
    seq(|s|, i requires 0 <= i < |s| => s[i] as int)
  }

  function FromBytes(s: seq<Byte>): (r: seq<bv8>)
    ensures |r| == |s|
  {
    seq(|s|, i requires 0 <= i < |s| => s[i] as bv8)
  }

  lemma BitsToByte(x: bv8)
    ensures (x as int) as bv8 == x
  {
  }

  /** The bitmap survives its conversion to bytes and back: the bytes
      GetDBValue writes restore the same bitmap. */
  lemma BytesRoundTrip(s: seq<bv8>)
    ensures FromBytes(ToBytes(s)) == s
  {
    forall i | 0 <= i < |s|
      ensures FromBytes(ToBytes(s))[i] == s[i]
    {
      BitsToByte(s[i]);
    }
  }

  // ---------------------------------------------------------------------------
  // Database key
  // ---------------------------------------------------------------------------

  /** The key a BlockMetrics is stored under: fixed64 file number, then fixed64
      block offset. */
  function DBKey(fileNumber: Uint64, blockOffset: Uint64): (key: seq<Byte>)
    ensures |key| == 16
  {
    PutFixed64(fileNumber) + PutFixed64(blockOffset)
  }

  /** GetDBKey as the source writes it: the second fixed64 is
      bytes_per_restart, not block_offset. */
  function DBKeyAsWritten(fileNumber: Uint64, bytesPerRestart: Uint32): (key: seq<Byte>)
    ensures |key| == 16
    ensures ParseDBKey(key) == Some((fileNumber, bytesPerRestart as Uint64))
  {
    Fixed64Pair(PutFixed64(fileNumber), PutFixed64(bytesPerRestart));
    PutFixed64(fileNumber) + PutFixed64(bytesPerRestart)
  }

  /** The key half of Create(db_key, db_value): a 16-byte key read as (file
      number, block offset); None for any other length. */
  function ParseDBKey(key: seq<Byte>): (r: Option<(Uint64, Uint64)>)
    ensures r.Some? <==> |key| == 16
  {
    if |key| != 16 then None else Some((DecodeFixed64(key, 0), DecodeFixed64(key, 8)))
  }

  lemma Fixed64Pair(a: seq<Byte>, b: seq<Byte>)
    requires |a| == 8 && |b| == 8
    ensures DecodeFixed64(a + b, 0) == DecodeFixed64(a, 0)
    ensures DecodeFixed64(a + b, 8) == DecodeFixed64(b, 0)
  {
    var ab := a + b;
    assert ab[0..8] == a && ab[8..16] == b;
    assert forall i :: 0 <= i < 8 ==> ab[i] == a[i] && ab[8 + i] == b[i];
  }

  /** The key round trip: ParseDBKey reads back the file number and block
      offset DBKey wrote. */
  lemma DBKeyRoundTrip(fileNumber: Uint64, blockOffset: Uint64)
    ensures ParseDBKey(DBKey(fileNumber, blockOffset)) == Some((fileNumber, blockOffset))
  {
    Fixed64Pair(PutFixed64(fileNumber), PutFixed64(blockOffset));
  }

  // ---------------------------------------------------------------------------
  // Database value
  // ---------------------------------------------------------------------------

  /** What a database value holds: restart count, bytes per restart and the
      bitmap bytes. */
  datatype Persisted = Persisted(numRestarts: Uint32, bytesPerRestart: Uint32, bitmap: seq<Byte>)

  /** GetDBValue's layout: varint32 restart count, varint32 bytes per restart,
      then the bitmap bytes. */
  function DBValue(p: Persisted): (value: seq<Byte>)
    ensures |value| >= 2 + |p.bitmap|
  {
    PutVarint32(p.numRestarts) + PutVarint32(p.bytesPerRestart) + p.bitmap
  }

  /** The value half of Create as the source writes it: two varint32s, then
      whatever follows is the bitmap.  Neither the bitmap length nor
      bytes_per_restart is checked. */
  function ParseDBValueAsWritten(value: seq<Byte>): (r: Option<Persisted>)
    ensures |value| < 2 ==> r.None?
    ensures r.Some? ==> 2 + |r.value.bitmap| <= |value| && r.value.bitmap == value[|value| - |r.value.bitmap|..]
  {
    match GetVarint32(value, 0, |value|)
    case None => None
    case Some((n, q)) =>
      match GetVarint32(value, q, |value|)
      case None => None
      case Some((bpr, q')) => Some(Persisted(n, bpr, value[q'..]))
  }

  /** Create with the checks its uses need: the bitmap is exactly n * bpr bytes
      (the constructor asserts it before copying), and the sizes are
      Addressable, so that RecordAccess and IsHot never divide by zero. */
  function ParseDBValue(value: seq<Byte>): (r: Option<Persisted>)
    ensures r.Some? ==> r == ParseDBValueAsWritten(value)
    ensures r.Some? <==>
              && ParseDBValueAsWritten(value).Some?
              && var p := ParseDBValueAsWritten(value).value;
                 Addressable(p.numRestarts, p.bytesPerRestart) && |p.bitmap| == p.numRestarts * p.bytesPerRestart
  {
    match ParseDBValueAsWritten(value)
    case None => None
    case Some(p) =>
      if Addressable(p.numRestarts, p.bytesPerRestart) && |p.bitmap| == p.numRestarts * p.bytesPerRestart
      then Some(p) else None
  }

  /** The value round trip: Create reads back what GetDBValue wrote. */
  lemma DBValueRoundTrip(p: Persisted)
    requires Addressable(p.numRestarts, p.bytesPerRestart) && |p.bitmap| == p.numRestarts * p.bytesPerRestart
    ensures ParseDBValue(DBValue(p)) == Some(p)
  {
    DBValueFields(p);
  }

  /** The two varints and the bitmap read back whatever their sizes. */
  lemma DBValueFields(p: Persisted)
    ensures ParseDBValueAsWritten(DBValue(p)) == Some(p)
  {
    var e1, e2 := PutVarint32(p.numRestarts), PutVarint32(p.bytesPerRestart);
    var v := DBValue(p);
    assert v == e1 + (e2 + p.bitmap);
    FirstVarint(p.numRestarts, e2 + p.bitmap);
    GetVarint32Between(e1, p.bytesPerRestart, p.bitmap);
    assert v[|e1| + |e2|..] == p.bitmap;
  }

  lemma FirstVarint(w: Uint32, rest: seq<Byte>)
    ensures GetVarint32(PutVarint32(w) + rest, 0, |PutVarint32(w) + rest|) == Some((w, |PutVarint32(w)|))
  {
    GetVarint32Between([], w, rest);
    assert [] + PutVarint32(w) + rest == PutVarint32(w) + rest;
  }

  /** A value whose bitmap is one byte longer than 1 * 2: the source's Create
      accepts it and copies three bytes into a two-byte bitmap. */
  const LongValue: seq<Byte> := [1, 2, 0, 0, 0]

  lemma ParseDBValueAcceptsLongBitmap()
    ensures ParseDBValueAsWritten(LongValue) == Some(Persisted(1, 2, [0, 0, 0]))
    ensures |[0, 0, 0]| > 1 * 2
    ensures ParseDBValue(LongValue) == None
  {
    assert GetVarint32(LongValue, 0, 5) == Some((1, 1));
    assert GetVarint32(LongValue, 1, 5) == Some((2, 2));
    assert LongValue[2..] == [0, 0, 0];
  }

  /** A value with bytes_per_restart 0: the source's Create accepts it, and
      every later RecordAccess or IsHot takes an ordinal modulo 0. */
  const ZeroWidthValue: seq<Byte> := [1, 0]

  lemma ParseDBValueAcceptsZeroWidth()
    ensures ParseDBValueAsWritten(ZeroWidthValue) == Some(Persisted(1, 0, []))
    ensures OrdinalModulus(0) == 0
    ensures ParseDBValue(ZeroWidthValue) == None
  {
    assert GetVarint32(ZeroWidthValue, 0, 2) == Some((1, 1));
    assert GetVarint32(ZeroWidthValue, 1, 2) == Some((0, 2));
    assert ZeroWidthValue[2..] == [];
  }

  // ---------------------------------------------------------------------------
  // The object
  // ---------------------------------------------------------------------------

  class BlockMetrics {
    const fileNumber: Uint64
    const blockOffset: Uint64
    const numRestarts: Uint32
    const bytesPerRestart: Uint32
    /** metrics_: numRestarts * bytesPerRestart bytes, updated in place. */
    const bits: array<bv8>

    ghost predicate Valid()
    {
      Addressable(numRestarts, bytesPerRestart) && bits.Length == numRestarts * bytesPerRestart
    }

    /** The bit of the pair (restart index, run ordinal) in this bitmap. */
    function AddressOf(ri: nat, ro: Uint32): (a: BitAddress)
      requires Valid() && ri < numRestarts
      ensures InBitmap(bits[..], a)
    {
      AddressInBitmap(numRestarts, bytesPerRestart, ri, ro);
      Address(bytesPerRestart, ri, ro)
    }

    /** A new, all-clear bitmap. */
    constructor (fileNumber: Uint64, blockOffset: Uint64, numRestarts: Uint32, bytesPerRestart: Uint32)
      requires Addressable(numRestarts, bytesPerRestart)
      ensures this.fileNumber == fileNumber && this.blockOffset == blockOffset
      ensures this.numRestarts == numRestarts && this.bytesPerRestart == bytesPerRestart
      ensures Valid() && fresh(bits) && bits[..] == Zeros(numRestarts * bytesPerRestart)
    {
      this.fileNumber := fileNumber;
      this.blockOffset := blockOffset;
      this.numRestarts := numRestarts;
      this.bytesPerRestart := bytesPerRestart;
      bits := new bv8[numRestarts * bytesPerRestart](_ => 0);
    }

    /** A bitmap restored from its bytes, which must be exactly n * bpr of them. */
    constructor Restore(fileNumber: Uint64, blockOffset: Uint64, numRestarts: Uint32, bytesPerRestart: Uint32,
                        data: seq<Byte>)
      requires Addressable(numRestarts, bytesPerRestart) && |data| == numRestarts * bytesPerRestart
      ensures this.fileNumber == fileNumber && this.blockOffset == blockOffset
      ensures this.numRestarts == numRestarts && this.bytesPerRestart == bytesPerRestart
      ensures Valid() && fresh(bits) && bits[..] == FromBytes(data)
    {
      this.fileNumber := fileNumber;
      this.blockOffset := blockOffset;
      this.numRestarts := numRestarts;
      this.bytesPerRestart := bytesPerRestart;
      bits := new bv8[|data|](i requires 0 <= i < |data| => data[i] as bv8);
    }

    /** Create(file_number, block_offset, db_value): null unless the value
      parses, else a bitmap holding the stored bytes. */
    static method Create(fileNumber: Uint64, blockOffset: Uint64, value: seq<Byte>) returns (m: BlockMetrics?)
      ensures m == null <==> ParseDBValue(value).None?
      ensures m != null ==>
                && fresh(m) && fresh(m.bits) && m.Valid()
                && m.fileNumber == fileNumber && m.blockOffset == blockOffset
                && var p := ParseDBValue(value).value;
                   m.numRestarts == p.numRestarts && m.bytesPerRestart == p.bytesPerRestart &&
                   m.bits[..] == FromBytes(p.bitmap)
    {
      var n := GetVarint32(value, 0, |value|);
      if n.None? {
        return null;
      }
      var bpr := GetVarint32(value, n.value.1, |value|);
      if bpr.None? {
        return null;
      }
      var data := value[bpr.value.1..];
      if !Addressable(n.value.0, bpr.value.0) || |data| != n.value.0 * bpr.value.0 {
        return null;
      }
      m := new BlockMetrics.Restore(fileNumber, blockOffset, n.value.0, bpr.value.0, data);
    }

    /** Create(db_key, db_value): null unless the key is 16 bytes and the value
      parses; the key supplies file number and block offset. */
    static method CreateFromKey(key: seq<Byte>, value: seq<Byte>) returns (m: BlockMetrics?)
      ensures m == null <==> ParseDBKey(key).None? || ParseDBValue(value).None?
      ensures m != null ==>
                && fresh(m) && fresh(m.bits) && m.Valid()
                && (m.fileNumber, m.blockOffset) == ParseDBKey(key).value
                && var p := ParseDBValue(value).value;
                   m.numRestarts == p.numRestarts && m.bytesPerRestart == p.bytesPerRestart &&
                   m.bits[..] == FromBytes(p.bitmap)
    {
      if |key| != 16 {
        return null;
      }
      var fileNumber := DecodeFixed64(key, 0);
      var blockOffset := DecodeFixed64(key, 8);
      m := Create(fileNumber, blockOffset, value);
    }

    /** Set the bit of (ri, ro).  The source does not check ri; a restart index
      past the last restart point writes outside the bitmap. */
    method RecordAccess(ri: nat, ro: Uint32)
      requires Valid() && ri < numRestarts
      modifies bits
      ensures bits[..] == SetBit(old(bits[..]), AddressOf(ri, ro))
      ensures IsHot(ri, ro)
    {
      var bitIdx := ro % ((bytesPerRestart * 8) % TwoTo32);
      var byteIdx := (ri * bytesPerRestart) % TwoTo32 + bitIdx / 8;
      AddressInBitmap(numRestarts, bytesPerRestart, ri, ro);
      bits[byteIdx] := bits[byteIdx] | Mask(bitIdx % 8);
      assert bits[..] == SetBit(old(bits[..]), AddressOf(ri, ro));
    }

    /** Whether the bit of (ri, ro) is set, computed as RecordAccess computes
      the bit it sets. */
    predicate IsHot(ri: nat, ro: Uint32): (hot: bool)
      requires Valid() && ri < numRestarts
      reads bits
      ensures hot <==> HotIn(bits[..], AddressOf(ri, ro))
    {
      AddressInBitmap(numRestarts, bytesPerRestart, ri, ro);
      var bitIdx := ro % ((bytesPerRestart * 8) % TwoTo32);
      var byteIdx := (ri * bytesPerRestart) % TwoTo32 + bitIdx / 8;
      bits[byteIdx] & Mask(bitIdx % 8) != 0
    }

    /** GetDBKey as the source writes it: the second fixed64 is
      bytes_per_restart, so Create(key, value) reads back bytes_per_restart
      as the block offset, and the round trip fails for every object whose
      block offset differs from it. */
    method GetDBKey() returns (key: seq<Byte>)
      ensures ParseDBKey(key) == Some((fileNumber, bytesPerRestart as Uint64))
      ensures blockOffset != bytesPerRestart ==> ParseDBKey(key) != Some((fileNumber, blockOffset))
    {
      key := DBKeyAsWritten(fileNumber, bytesPerRestart);
    }

    /** GetDBValue: Create reads back the restart count, the bytes per restart
      and the bitmap. */
    method GetDBValue() returns (value: seq<Byte>)
      requires Valid()
      ensures value == DBValue(Persisted(numRestarts, bytesPerRestart, ToBytes(bits[..])))
      ensures ParseDBValue(value) == Some(Persisted(numRestarts, bytesPerRestart, ToBytes(bits[..])))
    {
      value := PutVarint32(numRestarts) + PutVarint32(bytesPerRestart) + ToBytes(bits[..]);
      DBValueRoundTrip(Persisted(numRestarts, bytesPerRestart, ToBytes(bits[..])));
    }

    /** Non-null and all four fields equal: two valid compatible objects have
      bitmaps of one size, so Join stays inside both. */
    predicate IsCompatible(other: BlockMetrics?): (compatible: bool)
      ensures compatible ==> other != null && other.blockOffset == blockOffset
      ensures compatible && Valid() && other.Valid() ==> other.bits.Length == bits.Length
    {
      && other != null && other.numRestarts == numRestarts && other.bytesPerRestart == bytesPerRestart
      && other.fileNumber == fileNumber && other.blockOffset == blockOffset
    }

    /** OR the other bitmap into this one, byte by byte. */
    method Join(other: BlockMetrics?)
      requires Valid() && IsCompatible(other) && other.Valid()
      modifies bits
      ensures bits[..] == OrBytes(old(bits[..]), old(other.bits[..]))
    {
      var size := numRestarts * bytesPerRestart;
      var i := 0;
      while i < size
        invariant 0 <= i <= size
        invariant forall j :: 0 <= j < i ==> bits[j] == old(bits[j]) | old(other.bits[j])
        invariant forall j :: i <= j < size ==> bits[j] == old(bits[j]) && other.bits[j] == old(other.bits[j])
      {
        bits[i] := bits[i] | other.bits[i];
        i := i + 1;
      }
    }
  }
}
