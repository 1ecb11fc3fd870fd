/**
 * The Block: a byte span whose tail holds the restart array (one fixed32
 * offset per restart point) followed by the fixed32 restart count.
 */
module Blocks {
  import opened Coding

  /** A block after construction: the bytes, the validated size (0 marks an
      invalid block) and the offset at which the restart array begins. */
  datatype Block = Block(data: seq<Byte>, size: nat, restartOffset: nat)

  /** NumRestarts: the fixed32 in the last four bytes of the block.  The read
      itself only needs four bytes. */
  function NumRestarts(b: Block): Uint32
    requires 4 <= b.size <= |b.data|
  {
    DecodeFixed32(b.data, b.size - 4)
  }

  /** The trailer is the fixed32 encoding of the count NumRestarts returns. */
  lemma NumRestartsEncodes(b: Block)
    requires 4 <= b.size <= |b.data|
    ensures PutFixed32(NumRestarts(b)) == b.data[b.size - 4..b.size]
  {
    Fixed32Bytes(b.data, b.size - 4);
  }

  /** What every constructed block satisfies: either it is marked invalid, or
      the restart array and the trailing count exactly fill its tail. */
  ghost predicate ValidBlock(b: Block)
  {
    b.size == 0 ||
    (b.size == |b.data| && 4 <= b.size && b.restartOffset + 4 * (1 + NumRestarts(b)) == b.size)
  }

  /** The constructor, with the restart-array position computed in exact
      arithmetic: the block is kept exactly when it holds the trailer and a
      restart array of the advertised length. */
  function NewBlock(contents: seq<Byte>): (b: Block)
    ensures b.data == contents && ValidBlock(b)
    ensures b.size != 0 <==>
              4 <= |contents| && 4 * (1 + DecodeFixed32(contents, |contents| - 4)) <= |contents|
  {
    if |contents| < 4 then Block(contents, 0, 0)
    else
      var n := DecodeFixed32(contents, |contents| - 4);
      if 4 * (1 + n) > |contents| then Block(contents, 0, 0)
      else Block(contents, |contents|, |contents| - 4 * (1 + n))
  }

  /** The constructor as the source writes it.  (1 + NumRestarts()) is uint32
      arithmetic, the subtraction from size_ is size_t arithmetic, and the
      result is stored in the uint32 field restart_offset_ (declared so in
      table/block.h, which is not part of this model); all three reduce to one
      reduction modulo 2^32.  The only guard is that the stored offset does not
      exceed size_ - 4. */
  function NewBlockAsWritten(contents: seq<Byte>): (b: Block)
    ensures b.data == contents
    ensures b.size == 0 || b.size == |contents|
  {
    if |contents| < 4 then Block(contents, 0, 0)
    else
      var n := DecodeFixed32(contents, |contents| - 4);
      var offset := (|contents| - 4 * ((1 + n) % TwoTo32)) % TwoTo32;
      if offset > |contents| - 4 then Block(contents, 0, offset)
      else Block(contents, |contents|, offset)
  }

  /** For blocks below 4 GiB whose restart count is below 2^30 the two
      constructors keep and reject the same blocks, with the same offset. */
  lemma NewBlockAgreesForSmallCounts(contents: seq<Byte>)
    requires 4 <= |contents| < TwoTo32
    requires DecodeFixed32(contents, |contents| - 4) < 0x4000_0000
    ensures NewBlockAsWritten(contents).size == NewBlock(contents).size
    ensures NewBlock(contents).size != 0 ==>
              NewBlockAsWritten(contents).restartOffset == NewBlock(contents).restartOffset
  {
    var n := DecodeFixed32(contents, |contents| - 4);
    var x := 4 * (1 + n);
    assert (1 + n) % TwoTo32 == 1 + n;
    if x > |contents| {
      assert (|contents| - x) % TwoTo32 == |contents| - x + TwoTo32;
    } else {
      assert (|contents| - x) % TwoTo32 == |contents| - x;
    }
  }

  /** 100 bytes whose trailer claims 2^30 restart points (bytes 00 00 00 40). */
  const HugeCountBlock: seq<Byte> := seq(96, _ => 0) + [0x00, 0x00, 0x00, 0x40]

  /** The source's check lets this block through: (1 + 2^30) * 4 is the
      64-bit size_t value 2^32 + 4, and 100 - (2^32 + 4) truncates to 96 in
      the uint32 restart_offset_, so a restart array of 2^30 entries is taken
      to start 4 bytes before the end of a 100-byte block.  The exact
      constructor rejects it. */
  lemma NewBlockAsWrittenAcceptsHugeCount()
    ensures NewBlockAsWritten(HugeCountBlock).size == 100
    ensures NumRestarts(NewBlockAsWritten(HugeCountBlock)) == 0x4000_0000
    ensures NewBlockAsWritten(HugeCountBlock).restartOffset == 96
    ensures 96 + 4 * 0x4000_0000 > |HugeCountBlock|
    ensures NewBlock(HugeCountBlock).size == 0
  {
    var c := HugeCountBlock;
    assert c[96] == 0 && c[97] == 0 && c[98] == 0 && c[99] == 0x40;
    assert DecodeFixed32(c, 96) == 0x4000_0000;
  }

  /** GetRestartPoint: the fixed32 offset of restart point k, read from the
      restart array that begins at restarts. */
  function RestartPoint(data: seq<Byte>, restarts: nat, k: nat): Uint32
    requires restarts + 4 * k + 4 <= |data|
  {
    DecodeFixed32(data, restarts + 4 * k)
  }

  /** Entry k of the restart array is the fixed32 encoding of the offset
      RestartPoint returns. */
  lemma RestartPointEncodes(data: seq<Byte>, restarts: nat, k: nat)
    requires restarts + 4 * k + 4 <= |data|
    ensures PutFixed32(RestartPoint(data, restarts, k)) == data[restarts + 4 * k..restarts + 4 * k + 4]
  {
    Fixed32Bytes(data, restarts + 4 * k);
  }

  /** Which iterator the factories hand out for a block. */
  datatype Shape = TooShort | NoRestarts | Restarts(count: nat)

  /** The dispatch of NewIterator and NewMetricsIterator. */
  function ShapeOf(b: Block): (s: Shape)
    requires ValidBlock(b)
    ensures s.TooShort? <==> b.size < 8
    ensures s.NoRestarts? <==> 8 <= b.size && NumRestarts(b) == 0
    ensures s.Restarts? ==> s.count == NumRestarts(b) > 0 &&
                            b.restartOffset + 4 * s.count + 4 == |b.data|
  {
    if b.size < 8 then TooShort
    else
      var n := NumRestarts(b);
      if n == 0 then NoRestarts else Restarts(n)
  }
}
