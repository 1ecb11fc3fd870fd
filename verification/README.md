# LevelDB block reader with access metrics, in Dafny

This project models the reading side of a LevelDB table block, `table/block.cc`,
in a fork that records which entries of a block are read.

A block is a run of key/value entries, then an array of fixed32 restart
offsets, then a fixed32 restart count. Each entry starts with a header of
three lengths: the bytes its key shares with the previous key, the bytes of
key that follow, and the bytes of value. The header is either three single
bytes (the fast path) or three varint32s. Every entry at a restart offset
stores its whole key.

The model has four parts:

- **Decoding.** `BlockEntry.DecodeEntry` decodes an entry header.
  `Blocks.NewBlock` is the `Block` constructor with its validity check.
  `Blocks.NumRestarts` and `Blocks.RestartPoint` read the trailer and the
  restart array.
- **`Block::Iter`.** `BlockIterator.Iter` is a class whose fields are the
  iterator's mutable state. Each method is proved equal to a state-transition
  function in `IterModel`.
- **Properties over well-formed blocks.** `BlockLayout` describes what a
  well-formed block contains, as a ghost layout (entries and restart runs).
  `IterModel`'s lemmas state what each transition does on such a block:
  - `Next` moves to the following entry and `Prev` to the preceding one.
  - `SeekToFirst` and `SeekToLast` land on the first and last entry.
  - `Seek` lands on the first entry whose key is at or above the target.
  - The (restart index, run ordinal) pair the iterator ends with is derived
    for each operation.
- **Metrics.** `Metrics` models `BlockMetrics`:
  - a bitmap with `bytes_per_restart` bytes per restart point, one bit per
    (restart index, ordinal modulo `8 * bytes_per_restart`);
  - its database key and value encodings;
  - `RecordAccess`, `IsHot` and `Join`.

  `MetricsIterator` models `Block::MetricsIter`, which records the iterator's
  position after every move. It also models the factories `NewIterator` and
  `NewMetricsIterator`, and `Block::IsHot`.

Some things are parameters or ghost data:

- The comparator is a function parameter `(Key, Key) -> int`. Well-formedness
  asks that its "less than" be transitive.
- Whether a block is well formed is a ghost precondition. The encoder,
  `table/block_builder.cc`, is not part of this model.
- `util/coding.cc` (fixed and varint coding) and `table/block.h` are not part
  of this model. The module `Coding` restates the coding functions that
  `table/block.cc` calls: little-endian fixed32/fixed64 and the varint32
  reader and writer.

The model follows the code where it differs from the format's description:

- The restart-index loop at the end of `ParseNextKey` moves on only while the
  next restart offset is strictly below the current entry. So an entry that
  begins a restart run, reached by `Next`, is attributed to the previous run
  with a non-zero ordinal. `Seek` on that entry's key settles on the previous
  restart point too, and gives the entry the same address as `Next`
  (`IterModel.SeekRunKeyAddress`). Only `SeekToRestartPoint` on the entry's
  own restart point, as `Prev`, `SeekToFirst` and `SeekToLast` use it, gives
  it its own run and ordinal 0 (`BlockLayout.RestartEntryAddressDependsOnPath`).
  The iterator keeps that behaviour, and the consequence for the metrics
  bitmap is proved (`MetricsIterator.RestartEntryColdByRestartPoint`).
- `NumRestarts` asserts a block of at least 8 bytes, but the constructor calls
  it on any block of at least 4 bytes. `Blocks.NumRestarts` requires 4 bytes.

## Model

| member | source | states |
|---|---|---|
| Coding.PutFixed64 | table/block.cc:436-440 | The eight bytes written for a uint64 decode back to it with DecodeFixed64. |
| Coding.PutVarint32 | table/block.cc:443-447 | A varint32 takes between one and five bytes. |
| Coding.GetVarint32 | table/block.cc:69-71 | The reader never passes the limit or five bytes; a byte below 128 is a one-byte value; an empty range fails. |
| Coding.VarintGroupsOfEncoding | table/block.cc:69-71 | Reading the encoding of w accumulates acc + w * 128^k modulo 2^32 and consumes exactly the encoding's bytes. |
| Coding.VarintLength | table/block.cc:443-447 | The encoding of a value below 128^m is at most m bytes long. |
| Coding.GetVarint32OfPut | table/block.cc:400-402 | Reading a varint32 wherever its encoding sits returns the encoded value and the offset just past it (the varint round trip). |
| Coding.GetVarint32Between | table/block.cc:400-402 | The round trip holds for an encoding between any prefix and any suffix. |
| BlockEntry.Varints | table/block.cc:68-72 | The slow path reads the requested number of varints, each within the limit, or fails. |
| BlockEntry.VarintsPastFastPath | table/block.cc:65-72 | Three varints that decode always take more than three bytes, so the slow path never overlaps the fast path. |
| BlockEntry.DecodeHeader | table/block.cc:61-72 | Fewer than three bytes fail; the fast path consumes exactly three bytes; a successful slow path consumes more than three. |
| BlockEntry.DecodeEntry | table/block.cc:57-78 | A decoded entry's key delta and value lie inside the limit; fewer than three bytes fail; a decoded header is rejected only because its key and value overrun the limit. |
| BlockEntry.DecodeEntryAsWritten | table/block.cc:74-77 | The length check in 32-bit arithmetic accepts only headers that DecodeHeader produces, and rejects anything shorter than three bytes. |
| BlockEntry.DecodeEntryAgreesWithoutWrap | table/block.cc:74-77 | When non_shared + value_length fits in 32 bits, the source's check and the exact check agree. |
| BlockEntry.WrappingHeader | table/block.cc:61-72 | The example entry's header decodes to shared 0, non_shared 2^32 - 1, value_length 1. |
| BlockEntry.DecodeEntryWrapAccepted | table/block.cc:74-77 | The source's check accepts that entry, whose key and value overrun the limit; the exact check rejects it. |
| Blocks.NewBlock | table/block.cc:28-42 | The block is valid iff it has a trailer and its restart array fits before the trailer; the restart array then begins at size - 4 * (1 + count). |
| Blocks.NewBlockAsWritten | table/block.cc:32-41 | The constructor in 32-bit arithmetic keeps the bytes and leaves either size 0 or the full size. |
| Blocks.NewBlockAgreesForSmallCounts | table/block.cc:35-40 | For blocks under 4 GiB with a restart count under 2^30, both constructors keep the same blocks with the same restart offset. |
| Blocks.NewBlockAsWrittenAcceptsHugeCount | table/block.cc:35-40 | A 100-byte block claiming 2^30 restarts passes the source's check with restart offset 96; the exact constructor rejects it. |
| Blocks.NumRestartsEncodes | table/block.cc:22-25 | The trailer's four bytes are the fixed32 encoding of the count NumRestarts returns. |
| Blocks.RestartPointEncodes | table/block.cc:104-107 | The four bytes at restarts + 4 * index are the fixed32 encoding of the offset GetRestartPoint returns. |
| Coding.Fixed32Bytes | table/block.cc:24 | Any four bytes are the fixed32 encoding of the value DecodeFixed32 reads from them. |
| Blocks.ShapeOf | table/block.cc:324-334 | Under 8 bytes is a bad block; a zero count is an empty block; otherwise the count is positive and the restart array fits. |
| BlockLayout.EntryGrows | table/block.cc:241-263 | An entry of a well-formed block has at least three header bytes, and its value ends at or after its key. |
| BlockLayout.Adjacent | table/block.cc:241-263 | The first entry starts at offset 0; each entry ends where the next begins; the last one ends at the restart array. |
| BlockLayout.LastEntryEnds | table/block.cc:222-227 | The last entry ends exactly at the restart array. |
| BlockLayout.Touching | table/block.cc:155-175 | Each entry begins where the previous one ends. |
| BlockLayout.OffsetsIncrease | table/block.cc:155-175 | An earlier entry ends at or before any later entry begins. |
| BlockLayout.OffsetOrder | table/block.cc:155-175 | Entry index order and entry offset order coincide, in both directions. |
| BlockLayout.EntryInRegion | table/block.cc:241-263 | Every entry is non-empty and lies before the restart array. |
| BlockLayout.RestartFacts | table/block.cc:104-119 | With no entries, every restart offset is the restart array's offset; otherwise each restart offset is the start of an entry with a whole key. |
| BlockLayout.RestartsIncrease | table/block.cc:158-169 | Restart offsets strictly increase with their index. |
| BlockLayout.NextFacts | table/block.cc:241-263 | An entry's end is the next entry's start (or the restart array), and the next entry shares no more than the current key's length. |
| BlockLayout.ParseOnWellFormed | table/block.cc:254-263 | Every entry decodes at its offset to its recorded header, and its key is the shared prefix of the previous key plus its own delta. |
| BlockLayout.AdvanceRun | table/block.cc:264-268 | The loop stops at the first run whose successor does not start strictly before the entry, and moves past only runs starting before it. |
| BlockLayout.AdvanceRunIsClimb | table/block.cc:264-268 | On a well-formed block the loop over restart offsets is the same climb over entry indices. |
| BlockLayout.ClimbRunResumes | table/block.cc:264-268 | Climbing entry by entry is the same as climbing straight to the last entry. |
| BlockLayout.ClimbStep | table/block.cc:264-268 | One more entry either keeps the run or moves to a later run whose first entry is just before it. |
| BlockLayout.WellFormedIndexed | table/block.cc:104-119 | A well-formed block's restart offsets are the offsets of its run-start entries, and offset order is index order. |
| BlockLayout.ClosedOrdinalStep | table/block.cc:241-268 | The closed-form ordinal increments by one per entry within a run and resets to 0 when the run changes. |
| BlockLayout.ClosedFormNext | table/block.cc:241-268 | The closed form of the (run, ordinal) address survives one more entry. |
| BlockLayout.ClosedOrdinalAtRestart | table/block.cc:264-268 | The ordinal is 0 just after the climb enters a new run. |
| BlockLayout.ClosedFormStart | table/block.cc:109-119 | Starting at a restart point, the address is that run with ordinal 0. |
| BlockLayout.AddressFromClosedForm | table/block.cc:241-268 | The address reached by parsing from a restart point to any later entry is the climb run paired with the closed-form ordinal. |
| BlockLayout.RestartEntryAddressByRestartPoint | table/block.cc:109-119 | Reached by SeekToRestartPoint on its own restart point, a run's first entry gets address (k, 0). |
| BlockLayout.RestartEntryAddressByNext | table/block.cc:264-268 | Reached by Next from the previous run, the same entry gets (k - 1, its distance from run k - 1's first entry). |
| BlockLayout.RestartEntryAddressDependsOnPath | table/block.cc:89-90 | The two addresses of a run-start entry always differ. |
| BlockLayout.RunOrdinalDependsOnPath | table/block.cc:89-90 | Inside run k, parsing from run k - 1 gives ordinals one below those from run k's own restart point. |
| BlockLayout.FirstAtLeast | table/block.cc:205-214 | The first entry at or after from whose key is not below the target; all earlier ones are below it. |
| BlockLayout.FirstAtLeastIs | table/block.cc:205-214 | Any index with all keys before it below the target and its own key not below is FirstAtLeast. |
| BlockLayout.LastRunBelow | table/block.cc:177-203 | The last restart run up to j whose first key is below the target (or run 0); every later one is at or above it. |
| BlockLayout.LastRunBelowIs | table/block.cc:180-203 | Any run with the binary search's loop invariant is LastRunBelow. |
| BlockLayout.RunKeyDecodes | table/block.cc:184-193 | The binary search's probe of restart k decodes, shares nothing, and reads the run's first key. |
| BlockLayout.RunKeysAtOrAbove | table/block.cc:198-202 | If run mid's key is not below the target, neither is any later run's key (sortedness). |
| BlockLayout.RunKeySearch | table/block.cc:180-214 | For the key of run k's first entry (k >= 1), the first entry not below it is that entry, and the binary search settles on run k - 1. |
| BlockLayout.RunKeyFirst | table/block.cc:207-214 | Every entry before a run's first entry has a smaller key. |
| BlockLayout.EntriesBeforeRunBelow | table/block.cc:194-197 | If run left's key is below the target, so is every entry before run left begins. |
| IterModel.Initial | table/block.cc:122-134 | A new iterator is settled and not valid. |
| IterModel.Corrupt | table/block.cc:232-239 | CorruptionError leaves the iterator settled, not valid, with a corruption status. |
| IterModel.Parse | table/block.cc:241-271 | ParseNextKey's result is true iff the new state is valid; it keeps the status or sets corruption; on success the entry begins where the previous one ended. |
| IterModel.ParseCases | table/block.cc:241-271 | ParseNextKey invalidates past the entries, reports corruption on a bad header or an over-long shared prefix, else takes the entry. |
| IterModel.ParseTakes | table/block.cc:260-268 | Taking an entry sets the key to the shared prefix plus the delta, the value after it, and the run and ordinal by the restart-index loop. |
| IterModel.SeekRestart | table/block.cc:109-119 | SeekToRestartPoint clears the key, leaves the position and status alone, and primes parsing at that restart offset. |
| IterModel.Replay | table/block.cc:171-174 | Parsing until the end of an entry reaches until: if still valid, it ends at or after until, on an entry that begins before it. |
| IterModel.ReplayStep | table/block.cc:172-174 | One turn of the do-while loop preserves the replay's result. |
| IterModel.Scan | table/block.cc:207-214 | The linear scan ends past the end, on corruption, or on a key not below the target. |
| IterModel.ScanStep | table/block.cc:207-214 | One turn of the scan loop preserves its result. |
| IterModel.Search | table/block.cc:180-203 | When the binary search succeeds, the restart index lies between its bounds. |
| IterModel.ScanBack | table/block.cc:158-169 | Prev's backward loop finds the last restart point at or below the start index whose offset is before the current entry; it fails iff no such restart point exists. |
| IterModel.PrevState | table/block.cc:155-175 | Prev invalidates when no restart point lies before the entry; if the result is valid, it is the entry that ends at or after the old one's start. |
| IterModel.SeekState | table/block.cc:177-215 | Seek leaves a valid iterator only on a key at or above the target. |
| IterModel.FirstState | table/block.cc:217-220 | SeekToFirst lands on the entry at restart 0. |
| IterModel.LastState | table/block.cc:222-227 | SeekToLast lands on the entry that ends at the restart array. |
| IterModel.SearchProbe | table/block.cc:183-202 | The search is one probe at the upper middle, then the search over the narrowed bounds. |
| IterModel.SeekStateFromSearch | table/block.cc:177-215 | Seek is corruption after a failed binary search, else the scan from that restart point. |
| IterModel.ParseOnLayout | table/block.cc:241-271 | From the end of entry m - 1, ParseNextKey succeeds iff entry m exists, and then lands on it with its key, value and climbed address. |
| IterModel.ReadyAfter | table/block.cc:241-271 | After landing on entry i, the iterator is ready to parse entry i + 1. |
| IterModel.NextOnLayout | table/block.cc:150-153 | Next from entry i is valid iff entry i + 1 exists, and then it is at entry i + 1 with the same status. |
| IterModel.RestartParseOnLayout | table/block.cc:109-119 | SeekToRestartPoint(k) then ParseNextKey lands on the run's first entry with address (k, 0). |
| IterModel.ReplayOnLayout | table/block.cc:172-174 | Replaying from an entry of run k stops on the entry j whose end reaches until, with address AddressFrom(k, j). |
| IterModel.PrevStateReplays | table/block.cc:155-175 | Prev is the replay from the restart point the backward loop found. |
| IterModel.ReplayToPrevious | table/block.cc:171-174 | Replaying from that restart point to the start of entry i stops on entry i - 1. |
| IterModel.PrevOnLayout | table/block.cc:155-175 | Prev from entry i is valid iff i > 0, and then it is at entry i - 1 with the same status. |
| IterModel.PrevReturns | table/block.cc:155-175 | Prev from entry i + 1 comes back to entry i with the key, value and status the iterator had there. |
| IterModel.NextThenPrev | table/block.cc:150-175 | Next then Prev returns to the same entry, key and value. |
| IterModel.ScanBackOnWellFormed | table/block.cc:158-169 | The backward loop fails iff the entry is the first; otherwise the run it finds begins before entry i, and every later run up to the start index begins at or after entry i. |
| IterModel.FirstOnLayout | table/block.cc:217-220 | SeekToFirst is valid iff the block has entries, and then it is at entry 0 with address (0, 0). |
| IterModel.LastOnLayout | table/block.cc:222-227 | SeekToLast is valid iff the block has entries, and then it is at the last entry. |
| IterModel.ReplayToLast | table/block.cc:223-226 | SeekToLast's loop stops on the last entry, addressed from the last restart point. |
| IterModel.SearchProbeOnLayout | table/block.cc:183-202 | On a well-formed block every probe decodes, and the narrowed bounds keep the last run below the target. |
| IterModel.SearchOnLayout | table/block.cc:180-203 | On a well-formed block the binary search never fails and returns LastRunBelow. |
| IterModel.ScanOnLayout | table/block.cc:207-214 | The linear scan from an entry with every earlier key below the target stops at the first entry not below it, or goes past the end. |
| IterModel.ScanStepOnLayout | table/block.cc:207-214 | One scan step from an entry below the target keeps the scan's precondition for the next entry. |
| IterModel.SeekOnLayout | table/block.cc:177-215 | Seek on a well-formed block keeps the status and lands on the first entry not below the target, or past the end if there is none. |
| IterModel.ScanFromRunBelow | table/block.cc:205-214 | Every entry before the chosen run is below the target, so the scan may start there. |
| IterModel.SeekRunKeyAddress | table/block.cc:177-215 | Seek on the key of run k's first entry (k >= 1) lands on that entry with the address Next gives it, in run k - 1. |
| IterModel.LandedAt | table/block.cc:205-214 | Once the search's two results are known, Seek's landing entry and address follow. |
| BlockIterator.Narrow | table/block.cc:183-202 | One probe either fails exactly when the search fails, or strictly narrows the bounds and keeps the search's result. |
| BlockIterator.SearchRestarts | table/block.cc:180-203 | The loop computes the binary search's result. |
| BlockIterator.AdvanceRestartIndex | table/block.cc:264-268 | The loop computes AdvanceRun; the ordinal resets to 0 iff the index moved. |
| BlockIterator.Iter.constructor | table/block.cc:122-134 | A new iterator is past the end, over the given bytes and restart array. |
| BlockIterator.Iter.SeekToRestartPoint | table/block.cc:109-119 | The fields become SeekRestart of the old fields. |
| BlockIterator.Iter.CorruptionError | table/block.cc:232-239 | The fields become the corruption state. |
| BlockIterator.Iter.ParseNextKey | table/block.cc:241-271 | The fields and the result are Parse of the old fields. |
| BlockIterator.Iter.Next | table/block.cc:150-153 | The fields become Parse of the old fields. |
| BlockIterator.Iter.Prev | table/block.cc:155-175 | The fields become PrevState of the old fields. |
| BlockIterator.Iter.Seek | table/block.cc:177-215 | The fields become SeekState of the old fields. |
| BlockIterator.Iter.SeekToFirst | table/block.cc:217-220 | The fields become FirstState of the old fields. |
| BlockIterator.Iter.SeekToLast | table/block.cc:222-227 | The fields become LastState of the old fields. |
| Metrics.Address | table/block.cc:421-422 | The bit index within a byte is below 8. |
| Metrics.AddressInBitmap | table/block.cc:421-422 | Without wrap-around, a restart index below the count addresses a byte within its own bytes_per_restart bytes; a larger index addresses a byte past the bitmap. |
| Metrics.AddressInRun | table/block.cc:421-422 | The byte of restart index ri lies in [ri * bpr, (ri + 1) * bpr), inside the bitmap. |
| Metrics.AddressPastEnd | table/block.cc:422 | An unchecked restart index at or past the count addresses a byte past the bitmap. |
| Metrics.AddressInjective | table/block.cc:421-422 | Two accesses share a bit only with the same restart index and the same ordinal modulo 8 * bpr. |
| Metrics.SetBitExactly | table/block.cc:424 | Setting a bit makes that bit hot and leaves every other bit as it was. |
| Metrics.OrBytesHot | table/block.cc:462-464 | A bit is hot in the OR of two bitmaps iff it is hot in either. |
| Metrics.OrBytesIdempotent | table/block.cc:459-465 | Joining a bitmap with itself changes nothing. |
| Metrics.OrBytesCommutative | table/block.cc:459-465 | Joining is symmetric. |
| Metrics.OrBytesAbsorbs | table/block.cc:459-465 | Joining the same bitmap twice has the effect of joining it once. |
| Metrics.ZerosCold | table/block.cc:375 | A new bitmap has every bit cold. |
| Metrics.BytesRoundTrip | table/block.cc:386-387 | Writing a bitmap out as bytes and copying those bytes back gives the same bitmap. |
| Metrics.ParseDBKey | table/block.cc:410-413 | A key is accepted iff it is 16 bytes long. |
| Metrics.DBKeyRoundTrip | table/block.cc:408-416 | Reading the database key gives back the file number and block offset it was written from. |
| Metrics.DBKeyAsWritten | table/block.cc:436-441 | The 16-byte key the source writes reads back as (file number, bytes_per_restart). |
| Metrics.DBValue | table/block.cc:443-450 | The value holds at least two bytes of varints before the bitmap. |
| Metrics.ParseDBValueAsWritten | table/block.cc:394-406 | A value under two bytes is refused; an accepted value ends with its bitmap, after at least two bytes of varints. |
| Metrics.ParseDBValue | table/block.cc:394-406 | A value is accepted iff the source's Create accepts it, the bitmap is exactly count * bytes_per_restart bytes, and the sizes are addressable. |
| Metrics.DBValueRoundTrip | table/block.cc:443-450 | Create reads back what GetDBValue wrote. |
| Metrics.DBValueFields | table/block.cc:401-405 | The source's Create reads back both varints and the bitmap of any written value. |
| Metrics.ParseDBValueAcceptsLongBitmap | table/block.cc:385-387 | The source's Create accepts a three-byte bitmap for one restart point of two bytes; the checked parse rejects it. |
| Metrics.ParseDBValueAcceptsZeroWidth | table/block.cc:401-405 | The source's Create accepts bytes_per_restart 0, whose ordinal modulus is 0; the checked parse rejects it. |
| Metrics.BlockMetrics.AddressOf | table/block.cc:421-422 | The bit of a restart index below the count is inside the bitmap. |
| Metrics.BlockMetrics.constructor | table/block.cc:369-376 | A new BlockMetrics has the given fields and an all-zero bitmap of count * bytes_per_restart bytes. |
| Metrics.BlockMetrics.Restore | table/block.cc:378-388 | A restored BlockMetrics has the given fields and exactly the given bytes as its bitmap. |
| Metrics.BlockMetrics.Create | table/block.cc:394-406 | Corrected: null iff the value fails the checked parse (bad varints, zero or wrapping sizes, wrong bitmap length); otherwise the fields and bitmap are those the value encodes. |
| Metrics.BlockMetrics.CreateFromKey | table/block.cc:408-416 | Corrected: null iff the key is not 16 bytes or the value fails Create's checked parse; otherwise the file number and block offset are read from the key. |
| Metrics.BlockMetrics.RecordAccess | table/block.cc:418-425 | Exactly the access's bit is set, and the access is then hot. |
| Metrics.BlockMetrics.IsHot | table/block.cc:427-434 | Computed as the source computes it, the answer is whether the bit RecordAccess sets for the same access is set. |
| Metrics.BlockMetrics.GetDBKey | table/block.cc:436-441 | As written: the key reads back as (file number, bytes_per_restart), so for a block offset other than bytes_per_restart it does not read back as (file number, block offset). |
| Metrics.BlockMetrics.GetDBValue | table/block.cc:443-450 | The value is the two varints and the bitmap bytes, and reads back as (count, bytes_per_restart, bitmap). |
| Metrics.BlockMetrics.IsCompatible | table/block.cc:452-457 | Compatible objects are non-null with the same block offset, and two valid compatible objects have bitmaps of one size. |
| Metrics.BlockMetrics.Join | table/block.cc:459-465 | The bitmap becomes the bytewise OR of both bitmaps, even when other is this. |
| MetricsIterator.MetricsIter.Recorded | table/block.cc:317-321 | Recording keeps the bitmap's size. |
| MetricsIterator.MetricsIter.constructor | table/block.cc:279-286 | The inner iterator starts past the end and shares the given metrics. |
| MetricsIterator.MetricsIter.RecordAccess | table/block.cc:317-321 | A valid position's bit is set and nothing else changes; without metrics or when not valid, the bitmap is unchanged. |
| MetricsIterator.MetricsIter.Next | table/block.cc:291-294 | The iterator moves as Block::Iter::Next, and its new position is recorded and hot. |
| MetricsIterator.MetricsIter.Prev | table/block.cc:296-299 | The iterator moves as Block::Iter::Prev, and its new position is recorded and hot. |
| MetricsIterator.MetricsIter.Seek | table/block.cc:301-304 | The iterator moves as Block::Iter::Seek, and its new position is recorded and hot. |
| MetricsIterator.MetricsIter.SeekToFirst | table/block.cc:306-309 | The iterator moves as Block::Iter::SeekToFirst, and its new position is recorded and hot. |
| MetricsIterator.MetricsIter.SeekToLast | table/block.cc:311-314 | The iterator moves as Block::Iter::SeekToLast, and its new position is recorded and hot. |
| MetricsIterator.RecordedKeepsHot | table/block.cc:424 | Recording another access never clears a bit that was hot. |
| MetricsIterator.NewIterator | table/block.cc:324-334 | Error iterator iff the block is under 8 bytes; empty iterator iff no restart points; otherwise a fresh iterator over the block's entries and restart array. |
| MetricsIterator.NewMetricsIterator | table/block.cc:336-354 | As NewIterator. A BlockMetrics is handed out iff an iterator over the block is; it is all clear, with 2 bytes per restart point, and shared with the iterator. |
| MetricsIterator.BlockIsHot | table/block.cc:356-367 | Under the source's asserts, the iterator's restart index is inside the bitmap, and the answer is whether the bit of its (restart index, ordinal) is set. |
| MetricsIterator.BlockIsHotAfterRecord | table/block.cc:356-367 | Block::IsHot's asserts hold for a MetricsIter over the block, and it reports the recorded position hot. |
| MetricsIterator.OnlyRecordedHot | table/block.cc:418-434 | After one access in a new bitmap, that access is hot and every access in another run is cold. |
| MetricsIterator.RestartEntryColdByRestartPoint | table/block.cc:264-268 | A run-start entry recorded by Next is reported cold when SeekToRestartPoint on its own restart point (from Prev, SeekToFirst or SeekToLast) puts the iterator on it. |

## Left out

- Ownership: `owned_`, the destructors (`table/block.cc:44-48`, `390-392`) and the raw pointers. Memory is managed by Dafny.
- Virtual dispatch, `dynamic_cast` and `reinterpret_cast` are left out. `MetricsIter` holds an `Iter` rather than deriving from it.
- `Status` messages are a two-valued status, `Ok` or `Corruption`.
- The accessors `Valid`, `key`, `value` and `status` are plain fields and predicates, not separate operations.
- The block encoder is left out. Well-formedness is a ghost predicate over the decoded layout, not a property produced by an encoder.
- `NewErrorIterator` and `NewEmptyIterator` (defined in `table/iterator.cc`, not part of this model) are the markers `ErrorIterator` and `EmptyIterator`.
- The comparator is a function value. Well-formedness asks only that "less than" be transitive.
- BlockIterator.Iter: `current_` and `restart_index_` are unbounded naturals rather than uint32. A block whose restart array lies under 4 GiB never makes them wrap. `restart_offset_` keeps its uint32 wrap-around.
- MetricsIterator.NewMetricsIterator requires a block under 4 GiB, so that `num_restarts * 2` fits the bitmap arithmetic. The source does not check this.
- Metrics.BlockMetrics.constructor and Metrics.BlockMetrics.Restore require `Addressable` sizes: a non-zero `bytes_per_restart`, and `8 * bytes_per_restart` and `num_restarts * bytes_per_restart` below 2^32. The source does not check these.
- Metrics.BlockMetrics.RecordAccess and Metrics.BlockMetrics.IsHot require a restart index below the count. The source does not check it (`table/block.cc:422`, `431`); `Metrics.AddressPastEnd` shows where an unchecked index lands.
- Blocks.NumRestarts requires only the 4 bytes the read needs. The source asserts at least 8 bytes (`table/block.cc:23`), but the constructor calls it on any block of at least 4 bytes (`table/block.cc:35`), so a 4 to 7-byte block fails that assert in a debug build; the model follows the release build and has no assert failure.
- Metrics.BytesRoundTrip states one direction only: bitmap to bytes to bitmap. The other direction is not proved: that GetDBValue gives back the very bitmap bytes Create was given.
- IterModel.Parse, IterModel.Probe, BlockIterator.Iter.ParseNextKey and BlockIterator.Narrow call the corrected `BlockEntry.DecodeEntry`. Where the source's uint32 sum wraps (`BlockEntry.DecodeEntryWrapAccepted`), the source goes on to read past the limit, which is undefined behaviour and has no model.
- MetricsIterator.NewIterator and MetricsIterator.NewMetricsIterator require a block that the corrected `Blocks.NewBlock` accepts. A block only the source's constructor keeps (`Blocks.NewBlockAsWrittenAcceptsHugeCount`) makes the source read restart offsets past the data, which has no model.
- Metrics.BlockMetrics.Create returns null for a value the source accepts when `bytes_per_restart` is 0, when the sizes wrap in 32 bits, or when the bitmap is not exactly `num_restarts * bytes_per_restart` bytes (`01 00`, `01 02 00`, `01 02 00 00 00`). The source returns an object for these; its later `% 0`, short copy or overlong copy has no model.
- Metrics.BlockMetrics.CreateFromKey inherits Create's null cases for the same values.
- Concurrency: `BlockMetrics` is not synchronised in the source, and the model is sequential.

## Findings

| source | as written | input that shows it | evidently intended | confidence | as-written member | corrected member |
|---|---|---|---|---|---|---|
| table/block.cc:74 | `limit - p < non_shared + value_length` is computed in uint32, so the sum wraps | the 7 bytes `00 FF FF FF FF 0F 01` (shared 0, non_shared 2^32 - 1, value_length 1): the sum wraps to 0, so the entry is accepted although its key runs past the limit | reject an entry whose key and value do not fit before the limit | high; not executed | BlockEntry.DecodeEntryWrapAccepted | BlockEntry.DecodeEntry |
| table/block.cc:35-36 | `size_ - (1 + NumRestarts()) * sizeof(uint32_t)` is a 64-bit `size_t` value truncated into the uint32 `restart_offset_` | a 100-byte block whose trailer says 2^30 restarts: 100 - (2^30 + 1) * 4 truncates to 96, restart offset 96 passes the check, and the block claims a 4 GiB restart array | reject a block whose restart array does not fit | high; not executed | Blocks.NewBlockAsWrittenAcceptsHugeCount | Blocks.NewBlock |
| table/block.cc:385-387 | the bitmap length is only asserted, then `data.size()` bytes are copied into `num_restarts * bytes_per_restart` bytes | the value `01 02 00 00 00` (1 restart, 2 bytes each, 3 bitmap bytes) | refuse a value whose bitmap is not exactly `num_restarts * bytes_per_restart` bytes | high; not executed | Metrics.ParseDBValueAcceptsLongBitmap | Metrics.ParseDBValue |
| table/block.cc:401-405 | any decoded `bytes_per_restart` is accepted, and RecordAccess and IsHot take `% (bytes_per_restart * 8)` | the value `01 00` (1 restart, 0 bytes each) | refuse a zero `bytes_per_restart` | medium; not executed | Metrics.ParseDBValueAcceptsZeroWidth | Metrics.ParseDBValue |
| table/block.cc:439 | GetDBKey writes `bytes_per_restart_` as the key's second fixed64, while Create reads that slot as the block offset (`table/block.cc:413`) | a BlockMetrics with block offset 4096 and 2 bytes per restart: its key reads back with block offset 2 | write `block_offset_` | high; not executed | Metrics.BlockMetrics.GetDBKey | Metrics.DBKeyRoundTrip |
