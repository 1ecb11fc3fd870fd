/**
 * Block::MetricsIter, the two iterator factories of a Block, and Block::IsHot.
 * A MetricsIter is a Block::Iter that, after every positioning operation that
 * leaves it valid, sets the bit of its (restart index, run ordinal) in a
 * BlockMetrics it shares with whoever asked for it.
 */
module MetricsIterator {
  import opened Coding
  import opened Blocks
  import opened BlockLayout
  import opened IterModel
  import opened BlockIterator
  import opened Metrics

  /** What the factories hand out: the error iterator (a "bad block contents"
      corruption), the empty iterator, or an iterator over the block. */
  datatype Handout<I> = ErrorIterator | EmptyIterator | Over(iter: I)

  class MetricsIter {
    const iter: Iter
    /** metrics_: may be null, then nothing is recorded. */
    const metrics: BlockMetrics?

    /** The iterator is between operations and the bitmap fits its block. */
    ghost predicate Inv()
      reads iter
    {
      && Settled(iter.View(), iter.Snapshot())
      && (metrics != null ==> metrics.Valid() && metrics.numRestarts as nat == iter.numRestarts)
    }

    /** What the operations may change: the iterator and the bitmap. */
    ghost function Footprint(): set<object>
    {
      {iter} + (if metrics == null then {} else {metrics.bits})
    }

    /** The bitmap after RecordAccess, from the bitmap before it: the current
        position's bit is set when the iterator is valid, nothing otherwise. */
    ghost function Recorded(before: seq<bv8>): (after: seq<bv8>)
      requires Inv() && metrics != null && |before| == metrics.bits.Length
      reads iter
      ensures |after| == |before|
    {
      if iter.Valid() then SetBit(before, metrics.AddressOf(iter.restartIndex, iter.restartOffset))
      else before
    }

    constructor (cmp: (Key, Key) -> int, data: seq<Byte>, restarts: nat, numRestarts: nat, metrics: BlockMetrics?)
      requires 0 < numRestarts && restarts + 4 * numRestarts <= |data|
      requires metrics != null ==> metrics.Valid() && metrics.numRestarts as nat == numRestarts
      ensures this.metrics == metrics && fresh(iter)
      ensures iter.cmp == cmp && iter.data == data
      ensures iter.restarts == restarts && iter.numRestarts == numRestarts
      ensures iter.Snapshot() == Initial(iter.View())
      ensures Inv() && !iter.Valid()
    {
      iter := new Iter(cmp, data, restarts, numRestarts);
      this.metrics := metrics;
    }

    /** RecordAccess: set the current position's bit when there is a bitmap
        and the iterator is valid. */
    method RecordAccess()
      requires Inv()
      modifies if metrics == null then {} else {metrics.bits}
      ensures metrics != null ==> metrics.bits[..] == Recorded(old(metrics.bits[..]))
      ensures metrics != null && iter.Valid() ==> metrics.IsHot(iter.restartIndex, iter.restartOffset)
    {
      if metrics != null && iter.Valid() {
        metrics.RecordAccess(iter.restartIndex, iter.restartOffset);
      }
    }

    method Next()
      requires Inv() && iter.Valid()
      modifies Footprint()
      ensures iter.Snapshot() == Parse(iter.View(), old(iter.Snapshot())).0
      ensures Inv()
      ensures metrics != null ==> metrics.bits[..] == Recorded(old(metrics.bits[..]))
      ensures metrics != null && iter.Valid() ==> metrics.IsHot(iter.restartIndex, iter.restartOffset)
    {
      iter.Next();
      RecordAccess();
    }

    method Prev()
      requires Inv() && iter.Valid()
      modifies Footprint()
      ensures iter.Snapshot() == PrevState(iter.View(), old(iter.Snapshot()))
      ensures Inv()
      ensures metrics != null ==> metrics.bits[..] == Recorded(old(metrics.bits[..]))
      ensures metrics != null && iter.Valid() ==> metrics.IsHot(iter.restartIndex, iter.restartOffset)
    {
      iter.Prev();
      RecordAccess();
    }

    method Seek(target: Key)
      requires Inv()
      modifies Footprint()
      ensures iter.Snapshot() == SeekState(iter.View(), iter.cmp, old(iter.Snapshot()), target)
      ensures Inv()
      ensures metrics != null ==> metrics.bits[..] == Recorded(old(metrics.bits[..]))
      ensures metrics != null && iter.Valid() ==> metrics.IsHot(iter.restartIndex, iter.restartOffset)
    {
      iter.Seek(target);
      RecordAccess();
    }

    method SeekToFirst()
      requires Inv()
      modifies Footprint()
      ensures iter.Snapshot() == FirstState(iter.View(), old(iter.Snapshot()))
      ensures Inv()
      ensures metrics != null ==> metrics.bits[..] == Recorded(old(metrics.bits[..]))
      ensures metrics != null && iter.Valid() ==> metrics.IsHot(iter.restartIndex, iter.restartOffset)
    {
      iter.SeekToFirst();
      RecordAccess();
    }

    method SeekToLast()
      requires Inv()
      modifies Footprint()
      ensures iter.Snapshot() == LastState(iter.View(), old(iter.Snapshot()))
      ensures Inv()
      ensures metrics != null ==> metrics.bits[..] == Recorded(old(metrics.bits[..]))
      ensures metrics != null && iter.Valid() ==> metrics.IsHot(iter.restartIndex, iter.restartOffset)
    {
      iter.SeekToLast();
      RecordAccess();
    }
  }

  /** Recording never clears a bit: a position that was hot before any
      MetricsIter operation is still hot after it. */
  lemma RecordedKeepsHot(before: seq<bv8>, a: BitAddress, b: BitAddress)
    requires InBitmap(before, a) && InBitmap(before, b) && HotIn(before, b)
    ensures HotIn(SetBit(before, a), b)
  {
    SetBitExactly(before, a, b);
  }

  /** NewIterator: the error iterator for a block shorter than two fixed32s
      (which includes every block the constructor marked invalid), the empty
      iterator for a block with no restart point, else a fresh iterator past
      the end of the block. */
  method NewIterator(b: Block, cmp: (Key, Key) -> int) returns (r: Handout<Iter>)
    requires ValidBlock(b)
    ensures r.ErrorIterator? <==> ShapeOf(b).TooShort?
    ensures r.EmptyIterator? <==> ShapeOf(b).NoRestarts?
    ensures r.Over? ==>
              && fresh(r.iter) && r.iter.cmp == cmp && r.iter.data == b.data
              && r.iter.restarts == b.restartOffset && r.iter.numRestarts == ShapeOf(b).count
              && r.iter.View().Framed() && r.iter.Snapshot() == Initial(r.iter.View())
  {
    if b.size < 8 {
      return ErrorIterator;
    }
    var n := NumRestarts(b);
    if n == 0 {
      return EmptyIterator;
    }
    var it := new Iter(cmp, b.data, b.restartOffset, n);
    return Over(it);
  }

  /** NewMetricsIterator: as NewIterator, and for an iterator over the block a
      fresh all-clear BlockMetrics of BytesPerRestart bytes per restart point,
      shared by the iterator and the caller; null in the two other cases. */
  method NewMetricsIterator(b: Block, cmp: (Key, Key) -> int, fileNumber: Uint64, blockOffset: Uint64)
    returns (r: Handout<MetricsIter>, m: BlockMetrics?)
    requires ValidBlock(b) && |b.data| < TwoTo32
    ensures r.ErrorIterator? <==> ShapeOf(b).TooShort?
    ensures r.EmptyIterator? <==> ShapeOf(b).NoRestarts?
    ensures m == null <==> !r.Over?
    ensures r.Over? ==>
              && fresh(r.iter) && fresh(r.iter.iter) && r.iter.metrics == m
              && r.iter.iter.cmp == cmp && r.iter.iter.data == b.data
              && r.iter.iter.restarts == b.restartOffset && r.iter.iter.numRestarts == ShapeOf(b).count
              && r.iter.iter.Snapshot() == Initial(r.iter.iter.View()) && r.iter.Inv()
    ensures m != null ==>
              && fresh(m) && fresh(m.bits)
              && m.fileNumber == fileNumber && m.blockOffset == blockOffset
              && m.numRestarts == NumRestarts(b) && m.bytesPerRestart == BytesPerRestart
              && m.bits[..] == Zeros(NumRestarts(b) * BytesPerRestart)
  {
    m := null;
    if b.size < 8 {
      return ErrorIterator, m;
    }
    var n := NumRestarts(b);
    if n == 0 {
      return EmptyIterator, m;
    }
    m := new BlockMetrics(fileNumber, blockOffset, n, BytesPerRestart);
    var it := new MetricsIter(cmp, b.data, b.restartOffset, n, m);
    return Over(it), m;
  }

  /** The iterator was handed out by this block: it reads the block's bytes
      and restart array. */
  predicate IssuedBy(b: Block, it: Iter)
    requires ValidBlock(b) && 8 <= b.size
  {
    it.data == b.data && it.restarts == b.restartOffset && it.numRestarts == NumRestarts(b) as nat
  }

  /** Block::IsHot: whether the bitmap has the bit of the iterator's current
      (restart index, run ordinal) set.  The source asserts that the iterator
      belongs to this block, is valid, and that the bitmap was made for a
      block with this many restart points. */
  predicate BlockIsHot(b: Block, it: Iter, bm: BlockMetrics): (hot: bool)
    requires ValidBlock(b) && 8 <= b.size && IssuedBy(b, it)
    requires Settled(it.View(), it.Snapshot()) && it.Valid()
    requires bm.Valid() && bm.numRestarts == NumRestarts(b)
    reads it, bm.bits
    ensures it.restartIndex < bm.numRestarts
    ensures hot <==> HotIn(bm.bits[..], bm.AddressOf(it.restartIndex, it.restartOffset))
  {
    bm.IsHot(it.restartIndex, it.restartOffset)
  }

  /** Block::IsHot reads the bit a MetricsIter over the same block sets: after
      any MetricsIter operation that leaves the iterator valid, the block
      reports its position hot. */
  lemma BlockIsHotAfterRecord(b: Block, mi: MetricsIter)
    requires ValidBlock(b) && 8 <= b.size && IssuedBy(b, mi.iter)
    requires mi.Inv() && mi.iter.Valid() && mi.metrics != null
    requires mi.metrics.IsHot(mi.iter.restartIndex, mi.iter.restartOffset)
    ensures mi.metrics.numRestarts == NumRestarts(b)
    ensures BlockIsHot(b, mi.iter, mi.metrics)
  {
  }

  /** In the bitmap where only the bit at a was set in a new bitmap of size
      bytes, a is hot and c is cold. */
  ghost predicate OnlyHot(size: nat, a: BitAddress, c: BitAddress)
  {
    && InBitmap(Zeros(size), a) && InBitmap(Zeros(size), c)
    && HotIn(SetBit(Zeros(size), a), a)
    && !HotIn(SetBit(Zeros(size), a), c)
  }

  /** In a bitmap where only the bit of (ri, ro) was recorded, that position is
      hot and every position of another run is cold. */
  lemma OnlyRecordedHot(n: Uint32, bpr: Uint32, ri: nat, ro: Uint32, ri': nat, ro': Uint32)
    requires Addressable(n, bpr) && ri < n && ri' < n && ri != ri'
    ensures OrdinalModulus(bpr) == bpr * 8
    ensures OnlyHot(n * bpr, Address(bpr, ri, ro), Address(bpr, ri', ro'))
  {
    AddressSplitModulus(bpr);
    var a, c := Address(bpr, ri, ro), Address(bpr, ri', ro');
    AddressInRun(n, bpr, ri, ro);
    AddressInRun(n, bpr, ri', ro');
    AddressInjective(n, bpr, ri, ro, ri', ro');
    SetBitExactly(Zeros(n * bpr), a, a);
    SetBitExactly(Zeros(n * bpr), a, c);
    ZerosCold(n * bpr, c);
  }

  /** A bitmap in which only the bit Next records on reaching the entry at
      restart point k (k >= 1) is set reports that same entry cold when
      SeekToRestartPoint(k) has put the iterator on it, as Prev, SeekToFirst
      and SeekToLast do: the two paths give the entry bits in two different
      runs.  Seek on the entry's key lands with Next's address instead
      (IterModel.SeekRunKeyAddress). */
  lemma RestartEntryColdByRestartPoint(g: Region, L: Layout, k: nat, bpr: Uint32)
    requires Indexed(g, L) && 1 <= k < g.numRestarts < TwoTo32
    requires Addressable(g.numRestarts, bpr)
    ensures L.runs[k - 1] < L.runs[k] < |L.entries|
    ensures OrdinalModulus(bpr) == bpr * 8
    ensures var byNext := AddressFrom(g, L, k - 1, L.runs[k]);
            var byRestart := AddressFrom(g, L, k, L.runs[k]);
            OnlyHot(g.numRestarts * bpr, Address(bpr, byNext.0, byNext.1), Address(bpr, byRestart.0, byRestart.1))
  {
    RestartEntryAddressByRestartPoint(g, L, k);
    RestartEntryAddressByNext(g, L, k);
    var byNext := AddressFrom(g, L, k - 1, L.runs[k]);
    OnlyRecordedHot(g.numRestarts, bpr, k - 1, byNext.1, k, 0);
  }
}
