/**
 * Byte-level encodings the block decoder relies on: little-endian fixed-width
 * integers (DecodeFixed32, DecodeFixed64, PutFixed64) and base-128 varints
 * (GetVarint32Ptr, PutVarint32).  util/coding.cc is not part of this model;
 * these are written from the standard meaning of the two encodings.
 */
module Coding {

  type Byte = b: int | 0 <= b < 0x100
  type Uint32 = x: int | 0 <= x < 0x1_0000_0000
  type Uint64 = x: int | 0 <= x < 0x1_0000_0000_0000_0000

  const TwoTo32: nat := 0x1_0000_0000
  const MaxUint32: Uint32 := 0xFFFF_FFFF

  datatype Option<+T> = None | Some(value: T)

  function Pow128(k: nat): (r: nat)
    ensures r > 0
  {
    if k == 0 then 1 else 128 * Pow128(k - 1)
  }

  // ---------------------------------------------------------------------------
  // Fixed-width little-endian integers
  // ---------------------------------------------------------------------------

  /** DecodeFixed32: the four bytes at p as a little-endian uint32. */
  function DecodeFixed32(data: seq<Byte>, p: nat): (r: Uint32)
    requires p + 4 <= |data|
  {
    var b0, b1, b2, b3: int := data[p], data[p + 1], data[p + 2], data[p + 3];
    b0 + 0x100 * (b1 + 0x100 * (b2 + 0x100 * b3))
  }

  /** DecodeFixed64: the low word at p, the high word at p + 4. */
  function DecodeFixed64(data: seq<Byte>, p: nat): (r: Uint64)
    requires p + 8 <= |data|
  {
    DecodeFixed32(data, p) + 0x1_0000_0000 * DecodeFixed32(data, p + 4)
  }

  /** PutFixed32: the four little-endian bytes of v; DecodeFixed32 reads v
      back. */
  function PutFixed32(v: Uint32): (r: seq<Byte>)
    ensures |r| == 4
    ensures DecodeFixed32(r, 0) == v
  {
    var v1 := v / 0x100;
    var v2 := v1 / 0x100;
    [v % 0x100, v1 % 0x100, v2 % 0x100, v2 / 0x100]
  }

  /** PutFixed64: the eight little-endian bytes of v; DecodeFixed64 reads v
      back. */
  function PutFixed64(v: Uint64): (r: seq<Byte>)
    ensures |r| == 8
    ensures DecodeFixed64(r, 0) == v
  {
    var lo, hi := PutFixed32(v % 0x1_0000_0000), PutFixed32(v / 0x1_0000_0000);
    assert (lo + hi)[4..] == hi;
    lo + hi
  }

  /** The other direction of the fixed32 round trip: any four bytes are the
      encoding of the value DecodeFixed32 reads from them. */
  lemma Fixed32Bytes(data: seq<Byte>, p: nat)
    requires p + 4 <= |data|
    ensures PutFixed32(DecodeFixed32(data, p)) == data[p..p + 4]
  {
    var b0, b1, b2, b3: int := data[p], data[p + 1], data[p + 2], data[p + 3];
    var w2: nat := b2 + 0x100 * b3;
    var w1: nat := b1 + 0x100 * w2;
    ByteSplit(b0, w1);
    ByteSplit(b1, w2);
    ByteSplit(b2, b3);
  }

  lemma ByteSplit(a: Byte, q: nat)
    ensures (a + 0x100 * q) / 0x100 == q && (a + 0x100 * q) % 0x100 == a
  {
  }

  // ---------------------------------------------------------------------------
  // Base-128 varints
  // ---------------------------------------------------------------------------

  /** The varint encoding of v: seven bits per byte, low-order group first,
      0x80 set on every byte except the last. */
  function Varint(v: nat): (r: seq<Byte>)
    ensures |r| >= 1
  {
    if v < 128 then [v] else [v % 128 + 128] + Varint(v / 128)
  }

  lemma {:induction false} VarintLength(v: nat, m: nat)
    requires 1 <= m && v < Pow128(m)
    ensures |Varint(v)| <= m
  {
    if v >= 128 {
      assert Pow128(1) == 128;
      assert m >= 2;
      assert v / 128 < Pow128(m - 1);
      VarintLength(v / 128, m - 1);
    }
  }

  /** PutVarint32: at most five bytes for a 32-bit value. */
  function PutVarint32(v: Uint32): (r: seq<Byte>)
    ensures 1 <= |r| <= 5
  {
    assert Pow128(5) == 0x8_0000_0000;
    VarintLength(v, 5);
    Varint(v)
  }

  /** The varint decoding loop, at group k (shift 7 * k) with the groups already
      read summed in acc.  A byte without the continuation bit ends the varint;
      five bytes that all carry it, or running into limit, is a failure.  The
      sum is reduced modulo 2^32, as the uint32 shifts of the decoder truncate
      the fifth group. */
  function VarintGroups(data: seq<Byte>, p: nat, limit: nat, k: nat, acc: nat): (r: Option<(Uint32, nat)>)
    requires limit <= |data| && k <= 5
    ensures r.Some? ==> p < r.value.1 <= limit && r.value.1 <= p + 5 - k
    decreases 5 - k
  {
    if k == 5 || p >= limit then None
    else if data[p] >= 128 then VarintGroups(data, p + 1, limit, k + 1, acc + (data[p] - 128) * Pow128(k))
    else Some(((acc + data[p] * Pow128(k)) % TwoTo32, p + 1))
  }

  /** GetVarint32Ptr: decodes a varint32 from the bytes in [p, limit) and
      returns its value with the offset just past it, never looking at a byte at
      or beyond limit; None if the varint is truncated or longer than five bytes. */
  function GetVarint32(data: seq<Byte>, p: nat, limit: nat): (r: Option<(Uint32, nat)>)
    requires limit <= |data|
    ensures r.Some? ==> p < r.value.1 <= limit && r.value.1 <= p + 5
    ensures p < limit && data[p] < 128 ==> r == Some((data[p], p + 1))
    ensures r.Some? && data[p] >= 128 ==> r.value.1 >= p + 2
    ensures p >= limit ==> r.None?
  {
    VarintGroups(data, p, limit, 0, 0)
  }

  /** Splitting w into its low seven bits and the rest, scaled by 128^k. */
  lemma GroupSplit(acc: nat, w: nat, k: nat)
    ensures acc + (w % 128) * Pow128(k) + (w / 128) * Pow128(k + 1) == acc + w * Pow128(k)
  {
    var P := Pow128(k);
    assert Pow128(k + 1) == 128 * P;
    var lo, hi := w % 128, w / 128;
    assert w == lo + 128 * hi;
    calc {
      lo * P + hi * (128 * P);
      lo * P + (128 * hi) * P;
      (lo + 128 * hi) * P;
      w * P;
    }
  }

  /** The encoding of w as read from p: the whole encoding of w, then (when w
      has more than one group) the encoding of w / 128 from p + 1. */
  lemma VarintHead(data: seq<Byte>, p: nat, w: nat)
    requires p + |Varint(w)| <= |data| && data[p..p + |Varint(w)|] == Varint(w)
    ensures data[p] == Varint(w)[0]
    ensures w < 128 ==> |Varint(w)| == 1 && data[p] == w
    ensures w >= 128 ==>
              && data[p] == w % 128 + 128
              && |Varint(w)| == 1 + |Varint(w / 128)|
              && data[p + 1..p + 1 + |Varint(w / 128)|] == Varint(w / 128)
  {
    var e := Varint(w);
    assert data[p] == e[0];
    if w >= 128 {
      var rest := Varint(w / 128);
      assert e == [w % 128 + 128] + rest;
      assert data[p + 1..p + 1 + |rest|] == data[p..p + |e|][1..];
    }
  }

  lemma {:induction false} VarintGroupsOfEncoding(data: seq<Byte>, p: nat, limit: nat, k: nat, acc: nat, w: nat)
    requires limit <= |data| && k <= 5
    requires p + |Varint(w)| <= limit && data[p..p + |Varint(w)|] == Varint(w)
    requires k + |Varint(w)| <= 5
    ensures VarintGroups(data, p, limit, k, acc) == Some(((acc + w * Pow128(k)) % TwoTo32, p + |Varint(w)|))
    decreases 5 - k
  {
    VarintHead(data, p, w);
    if w >= 128 {
      var acc' := GroupContinues(data, p, limit, k, acc, w);
      VarintGroupsOfEncoding(data, p + 1, limit, k + 1, acc', w / 128);
    } else {
      GroupEnds(data, p, limit, k, acc, w);
    }
  }

  /** A byte carrying the low seven bits of w and the continuation bit adds
      them at group k: the sum acc' so far, to which the groups of w / 128
      from k + 1 on add up to what w adds at group k. */
  lemma GroupContinues(data: seq<Byte>, p: nat, limit: nat, k: nat, acc: nat, w: nat) returns (acc': nat)
    requires limit <= |data| && k < 5 && p < limit && data[p] == w % 128 + 128
    ensures VarintGroups(data, p, limit, k, acc) == VarintGroups(data, p + 1, limit, k + 1, acc')
    ensures acc' + (w / 128) * Pow128(k + 1) == acc + w * Pow128(k)
  {
    acc' := acc + (w % 128) * Pow128(k);
    assert data[p] - 128 == w % 128;
    GroupSplit(acc, w, k);
  }

  /** A byte w without the continuation bit ends the varint. */
  lemma GroupEnds(data: seq<Byte>, p: nat, limit: nat, k: nat, acc: nat, w: nat)
    requires limit <= |data| && k < 5 && p < limit && data[p] == w < 128
    ensures VarintGroups(data, p, limit, k, acc) == Some(((acc + w * Pow128(k)) % TwoTo32, p + 1))
  {
  }

  /** Round trip: the varint32 decoder reads back exactly what PutVarint32
      wrote, and stops just past it. */
  lemma GetVarint32OfPut(v: Uint32, data: seq<Byte>, p: nat, limit: nat)
    requires limit <= |data| && p + |PutVarint32(v)| <= limit
    requires data[p..p + |PutVarint32(v)|] == PutVarint32(v)
    ensures GetVarint32(data, p, limit) == Some((v, p + |PutVarint32(v)|))
  {
    var e := PutVarint32(v);
    assert e == Varint(v);
    VarintGroupsOfEncoding(data, p, limit, 0, 0, v);
    assert Pow128(0) == 1;
    assert (0 + v * Pow128(0)) % TwoTo32 == v;
    assert GetVarint32(data, p, limit) == VarintGroups(data, p, limit, 0, 0);
  }

  /** The round trip inside a larger buffer: a varint32 written between any
      two byte strings is read back from where it starts. */
  lemma GetVarint32Between(pre: seq<Byte>, v: Uint32, rest: seq<Byte>)
    ensures var d := pre + PutVarint32(v) + rest;
            GetVarint32(d, |pre|, |d|) == Some((v, |pre| + |PutVarint32(v)|))
  {
    var e := PutVarint32(v);
    var d := pre + e + rest;
    assert d[|pre|..|pre| + |e|] == e;
    GetVarint32OfPut(v, d, |pre|, |d|);
  }
}
