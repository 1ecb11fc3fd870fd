/**
 * Decoding of one block entry header: shared-prefix length, non-shared key
 * length and value length, followed by the key delta and the value.
 */
module BlockEntry {
  import opened Coding

  /** The three lengths at the head of an entry, and the offset of the key
      delta that follows them. */
  datatype Header = Header(shared: Uint32, nonShared: Uint32, valueLength: Uint32, delta: nat)

  /** The one-byte-per-field form applies when each of the three header bytes
      is below 128 (tested in the source as (a | b | c) < 128). */
  predicate FastPath(data: seq<Byte>, p: nat)
    requires p + 3 <= |data|
  {
    data[p] < 128 && data[p + 1] < 128 && data[p + 2] < 128
  }

  /** count varint32s read one after the other inside [p, limit): their values
      and the offset just past the last. */
  function Varints(data: seq<Byte>, p: nat, limit: nat, count: nat): (r: Option<(seq<Uint32>, nat)>)
    requires limit <= |data|
    ensures r.Some? ==> |r.value.0| == count && p + count <= r.value.1
    ensures r.Some? && count > 0 ==> r.value.1 <= limit
    decreases count
  {
    if count == 0 then Some(([], p))
    else
      match GetVarint32(data, p, limit)
      case None => None
      case Some((v, q)) =>
        match Varints(data, q, limit, count - 1)
        case None => None
        case Some((vs, e)) => Some(([v] + vs, e))
  }

  /** Three varints starting on three bytes that are not all below 128 take
      more than three bytes. */
  lemma VarintsPastFastPath(data: seq<Byte>, p: nat, limit: nat)
    requires limit <= |data| && p + 3 <= limit && !FastPath(data, p)
    ensures Varints(data, p, limit, 3).Some? ==> Varints(data, p, limit, 3).value.1 > p + 3
  {
    var r := Varints(data, p, limit, 3);
    if r.Some? {
      var (v1, q1) := GetVarint32(data, p, limit).value;
      assert r.value.1 == Varints(data, q1, limit, 2).value.1;
      if data[p] < 128 {
        var (v2, q2) := GetVarint32(data, q1, limit).value;
        assert r.value.1 == Varints(data, q2, limit, 1).value.1;
      }
    }
  }

  /** The header part of DecodeEntry: fewer than three bytes before limit
      (including p past limit) is a failure; then either the three raw bytes,
      or three varint32s each decoded inside [p, limit). */
  function DecodeHeader(data: seq<Byte>, p: nat, limit: nat): (r: Option<Header>)
    requires limit <= |data|
    ensures limit < p + 3 ==> r.None?
    ensures r.Some? ==> p + 3 <= r.value.delta <= limit
    ensures p + 3 <= limit && FastPath(data, p) ==>
              r == Some(Header(data[p], data[p + 1], data[p + 2], p + 3))
    ensures p + 3 <= limit && r.Some? && !FastPath(data, p) ==> r.value.delta > p + 3
  {
    if limit < p + 3 then None
    else if FastPath(data, p) then Some(Header(data[p], data[p + 1], data[p + 2], p + 3))
    else
      VarintsPastFastPath(data, p, limit);
      match Varints(data, p, limit, 3)
      case None => None
      case Some((vs, q)) => Some(Header(vs[0], vs[1], vs[2], q))
  }

  /** DecodeEntry with the trailing length check done in exact arithmetic: on
      success the key delta and the value both lie before limit, so nothing
      derived from the header reaches past limit.  The block iterator uses this
      definition. */
  function DecodeEntry(data: seq<Byte>, p: nat, limit: nat): (r: Option<Header>)
    requires limit <= |data|
    ensures limit < p + 3 ==> r.None?
    ensures r.Some? ==> p + 3 <= r.value.delta
    ensures r.Some? ==> r.value.delta + r.value.nonShared + r.value.valueLength <= limit
    ensures r.Some? ==> r == DecodeHeader(data, p, limit)
    ensures DecodeHeader(data, p, limit).Some? && r.None? ==>
              var h := DecodeHeader(data, p, limit).value;
              limit < h.delta + h.nonShared + h.valueLength
  {
    match DecodeHeader(data, p, limit)
    case None => None
    case Some(h) =>
      if limit - h.delta < h.nonShared + h.valueLength then None else Some(h)
  }

  /** DecodeEntry as the source writes it: the remaining byte count and the sum
      non_shared + value_length are both uint32, so the sum wraps modulo 2^32. */
  function DecodeEntryAsWritten(data: seq<Byte>, p: nat, limit: nat): (r: Option<Header>)
    requires limit <= |data|
    ensures limit < p + 3 ==> r.None?
    ensures r.Some? ==> r == DecodeHeader(data, p, limit)
  {
    match DecodeHeader(data, p, limit)
    case None => None
    case Some(h) =>
      if (limit - h.delta) % TwoTo32 < (h.nonShared + h.valueLength) % TwoTo32 then None else Some(h)
  }

  /** When the lengths do not wrap and the block is below 4 GiB the two
      definitions agree. */
  lemma DecodeEntryAgreesWithoutWrap(data: seq<Byte>, p: nat, limit: nat)
    requires limit <= |data| && limit < TwoTo32
    requires DecodeHeader(data, p, limit).Some?
    requires DecodeHeader(data, p, limit).value.nonShared + DecodeHeader(data, p, limit).value.valueLength < TwoTo32
    ensures DecodeEntryAsWritten(data, p, limit) == DecodeEntry(data, p, limit)
  {
  }

  /** The bytes of an entry whose non_shared length is 2^32 - 1 and whose value
      length is 1: shared 0, then the five-byte varint FF FF FF FF 0F, then 1. */
  const WrappingEntry: seq<Byte> := [0x00, 0xFF, 0xFF, 0xFF, 0xFF, 0x0F, 0x01]

  /** The five-byte varint at offset 1 of WrappingEntry is 2^32 - 1. */
  lemma WrappingVarint()
    ensures GetVarint32(WrappingEntry, 1, 7) == Some((0xFFFF_FFFF, 6))
  {
    var d := WrappingEntry;
    assert Pow128(2) == 16384 && Pow128(3) == 2097152 && Pow128(4) == 268435456;
    assert VarintGroups(d, 1, 7, 0, 0) == VarintGroups(d, 2, 7, 1, 127);
    assert VarintGroups(d, 2, 7, 1, 127) == VarintGroups(d, 3, 7, 2, 127 + 127 * 128);
    assert VarintGroups(d, 3, 7, 2, 127 + 127 * 128) == VarintGroups(d, 4, 7, 3, 127 + 127 * 128 + 127 * 16384);
    assert VarintGroups(d, 4, 7, 3, 127 + 127 * 128 + 127 * 16384)
        == VarintGroups(d, 5, 7, 4, 127 + 127 * 128 + 127 * 16384 + 127 * 2097152);
  }

  /** The three header varints of WrappingEntry: 0, 2^32 - 1 and 1. */
  lemma WrappingHeader()
    ensures DecodeHeader(WrappingEntry, 0, 7) == Some(Header(0, 0xFFFF_FFFF, 1, 7))
  {
    var d := WrappingEntry;
    WrappingVarint();
    assert !FastPath(d, 0);
    assert Varints(d, 6, 7, 1) == Some(([1], 7)) by {
      assert Varints(d, 7, 7, 0) == Some(([], 7));
      assert [1] + [] == [1];
    }
    assert Varints(d, 1, 7, 2) == Some(([0xFFFF_FFFF, 1], 7)) by {
      assert [0xFFFF_FFFF] + [1] == [0xFFFF_FFFF, 1];
    }
    assert Varints(d, 0, 7, 3) == Some(([0, 0xFFFF_FFFF, 1], 7)) by {
      assert [0] + [0xFFFF_FFFF, 1] == [0, 0xFFFF_FFFF, 1];
    }
  }

  /** The wrapped check lets the entry through although its key delta alone
      claims 2^32 - 1 bytes after offset 7 in a 7-byte region; the exact check
      rejects it. */
  lemma DecodeEntryWrapAccepted()
    ensures DecodeEntryAsWritten(WrappingEntry, 0, 7) == Some(Header(0, 0xFFFF_FFFF, 1, 7))
    ensures 7 + 0xFFFF_FFFF > 7
    ensures DecodeEntry(WrappingEntry, 0, 7) == None
  {
    WrappingHeader();
  }
}
