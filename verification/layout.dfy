/**
 * The decoded content of a block, as the encoder lays it out: a sequence of
 * prefix-compressed entries that exactly fill [0, restarts), sorted by the
 * comparator, with restart points at entries stored without a shared prefix.
 * This is the precondition under which the iterator's positioning results are
 * stated; it is never computed at run time.
 */
module BlockLayout {
  import opened Coding
  import opened BlockEntry
  import opened Blocks

  type Key = seq<Byte>

  /** What an iterator is bound to: the bytes, the offset of the restart array
      (where the entries end) and the number of restart points. */
  datatype Region = Region(data: seq<Byte>, restarts: nat, numRestarts: nat) {
    /** At least one restart point, and the restart array lies inside the data. */
    predicate Framed()
    {
      0 < numRestarts && restarts + 4 * numRestarts <= |data|
    }

    function Restart(k: nat): Uint32
      requires Framed() && k < numRestarts
    {
      RestartPoint(data, restarts, k)
    }
  }

  /** One entry: where it starts, its decoded header and its full key. */
  datatype Entry = Entry(offset: nat, header: Header, key: Key) {
    function ValueStart(): nat
    {
      header.delta + header.nonShared
    }

    function End(): nat
    {
      ValueStart() + header.valueLength
    }
  }

  /** The entries in order, and for each restart point the index of the entry
      it points at. */
  datatype Layout = Layout(entries: seq<Entry>, runs: seq<nat>)

  /** a orders before b: the comparator returns a negative value. */
  predicate Below(cmp: (Key, Key) -> int, a: Key, b: Key)
  {
    cmp(a, b) < 0
  }

  /** The part of the comparator's contract (a total order) the iterator
      relies on: "orders before" is irreflexive and transitive. */
  ghost predicate TotalOrder(cmp: (Key, Key) -> int)
  {
    && (forall a {:trigger Below(cmp, a, a)} :: !Below(cmp, a, a))
    && (forall a, b, c {:trigger Below(cmp, a, b), Below(cmp, b, c)} ::
          Below(cmp, a, b) && Below(cmp, b, c) ==> Below(cmp, a, c))
  }

  ghost function PrevKey(es: seq<Entry>, i: nat): Key
    requires i <= |es|
  {
    if i == 0 then [] else es[i - 1].key
  }

  /** Entry i decodes at its offset, shares no more than the previous key
      holds, and its key is that shared prefix followed by its key delta. */
  ghost predicate EntryDecodes(g: Region, es: seq<Entry>, i: nat)
    requires i < |es| && g.restarts <= |g.data|
  {
    var e := es[i];
    && DecodeEntry(g.data, e.offset, g.restarts) == Some(e.header)
    && e.header.shared <= |PrevKey(es, i)|
    && e.key == PrevKey(es, i)[..e.header.shared] + g.data[e.header.delta..e.header.delta + e.header.nonShared]
  }

  /** Where entry i must start: at 0, or where entry i - 1 ends. */
  ghost function Start(es: seq<Entry>, i: nat): nat
    requires i <= |es|
  {
    if i == 0 then 0 else es[i - 1].End()
  }

  /** The entries follow one another without gaps from offset 0 to restarts. */
  ghost predicate Tiled(g: Region, es: seq<Entry>)
  {
    && Start(es, |es|) == g.restarts
    && (forall i {:trigger Start(es, i)} :: 0 <= i < |es| ==> es[i].offset == Start(es, i))
  }

  ghost predicate RestartEntry(g: Region, L: Layout, k: nat)
    requires g.Framed() && k < g.numRestarts
  {
    k < |L.runs| && L.runs[k] < |L.entries| &&
    g.Restart(k) == L.entries[L.runs[k]].offset && L.entries[L.runs[k]].header.shared == 0
  }

  /** Restart point k is the offset of entry runs[k], stored with no shared
      prefix; the indices increase and the first is entry 0.  A block without
      entries has the single restart point 0. */
  ghost predicate RestartsIndexEntries(g: Region, L: Layout)
    requires g.Framed()
  {
    && |L.runs| == g.numRestarts
    && (|L.entries| == 0 ==> g.numRestarts == 1 && g.Restart(0) == 0)
    && (|L.entries| > 0 ==> L.runs[0] == 0)
    && (forall k :: 0 <= k < g.numRestarts && |L.entries| > 0 ==> RestartEntry(g, L, k))
    && RunsIncrease(L)
  }

  /** Keys strictly increase. */
  ghost predicate Sorted(cmp: (Key, Key) -> int, es: seq<Entry>)
  {
    forall i, j {:trigger Below(cmp, es[i].key, es[j].key)} ::
      0 <= i < j < |es| ==> Below(cmp, es[i].key, es[j].key)
  }

  /** L is what the encoder wrote into g: the well-formed block. */
  ghost predicate WellFormed(g: Region, cmp: (Key, Key) -> int, L: Layout)
  {
    && g.Framed()
    && TotalOrder(cmp)
    && Tiled(g, L.entries)
    && (forall i :: 0 <= i < |L.entries| ==> EntryDecodes(g, L.entries, i))
    && RestartsIndexEntries(g, L)
    && Sorted(cmp, L.entries)
  }

  // ---------------------------------------------------------------------------
  // Offsets
  // ---------------------------------------------------------------------------

  lemma EntryGrows(g: Region, cmp: (Key, Key) -> int, L: Layout, i: nat)
    requires WellFormed(g, cmp, L) && i < |L.entries|
    ensures L.entries[i].offset + 3 <= L.entries[i].ValueStart() <= L.entries[i].End()
  {
    assert EntryDecodes(g, L.entries, i);
  }

  /** Consecutive entries touch; the first starts at 0 and the last ends at
      restarts. */
  lemma Adjacent(g: Region, cmp: (Key, Key) -> int, L: Layout, i: nat)
    requires WellFormed(g, cmp, L) && i < |L.entries|
    ensures i == 0 ==> L.entries[i].offset == 0
    ensures i + 1 < |L.entries| ==> L.entries[i].End() == L.entries[i + 1].offset
    ensures i + 1 == |L.entries| ==> L.entries[i].End() == g.restarts
  {
    assert L.entries[i].offset == Start(L.entries, i);
    if i + 1 < |L.entries| {
      assert L.entries[i + 1].offset == Start(L.entries, i + 1);
    }
  }

  /** The last entry ends where the restart array begins. */
  lemma LastEntryEnds(g: Region, cmp: (Key, Key) -> int, L: Layout)
    requires WellFormed(g, cmp, L) && |L.entries| > 0
    ensures L.entries[|L.entries| - 1].End() == g.restarts
  {
    Adjacent(g, cmp, L, |L.entries| - 1);
  }

  /** Entry i starts where entry i - 1 ends. */
  lemma Touching(g: Region, cmp: (Key, Key) -> int, L: Layout, i: nat)
    requires WellFormed(g, cmp, L) && 0 < i < |L.entries|
    ensures L.entries[i - 1].End() == L.entries[i].offset
  {
    Adjacent(g, cmp, L, i - 1);
    assert i - 1 + 1 == i;
  }

  /** Every entry ends at or before the start of every later one. */
  lemma {:induction false} OffsetsIncrease(g: Region, cmp: (Key, Key) -> int, L: Layout, i: nat, j: nat)
    requires WellFormed(g, cmp, L) && i < j < |L.entries|
    ensures L.entries[i].End() <= L.entries[j].offset
    decreases j - i
  {
    Adjacent(g, cmp, L, j - 1);
    if j > i + 1 {
      OffsetsIncrease(g, cmp, L, i, j - 1);
      EntryGrows(g, cmp, L, j - 1);
    }
  }

  /** Entry order and offset order coincide. */
  lemma OffsetOrder(g: Region, cmp: (Key, Key) -> int, L: Layout, i: nat, j: nat)
    requires WellFormed(g, cmp, L) && i < |L.entries| && j < |L.entries|
    ensures i < j <==> L.entries[i].offset < L.entries[j].offset
  {
    if i < j {
      OffsetsIncrease(g, cmp, L, i, j);
      EntryGrows(g, cmp, L, i);
    } else if j < i {
      OffsetsIncrease(g, cmp, L, j, i);
      EntryGrows(g, cmp, L, j);
    }
  }

  /** Every entry lies inside [0, restarts). */
  lemma EntryInRegion(g: Region, cmp: (Key, Key) -> int, L: Layout, i: nat)
    requires WellFormed(g, cmp, L) && i < |L.entries|
    ensures L.entries[i].offset < L.entries[i].End() <= g.restarts
  {
    EntryGrows(g, cmp, L, i);
    Adjacent(g, cmp, L, |L.entries| - 1);
    if i < |L.entries| - 1 {
      OffsetsIncrease(g, cmp, L, i, |L.entries| - 1);
      EntryGrows(g, cmp, L, |L.entries| - 1);
    }
  }

  /** What SeekToRestartPoint(k) meets: the restart offset is an entry stored
      with no shared prefix (or, in a block without entries, restarts itself). */
  lemma RestartFacts(g: Region, cmp: (Key, Key) -> int, L: Layout, k: nat)
    requires WellFormed(g, cmp, L) && k < g.numRestarts
    ensures |L.entries| == 0 ==> g.Restart(k) == g.restarts
    ensures |L.entries| > 0 ==> RestartEntry(g, L, k)
  {
  }

  /** Restart offsets strictly increase. */
  lemma RestartsIncrease(g: Region, cmp: (Key, Key) -> int, L: Layout, k: nat, k': nat)
    requires WellFormed(g, cmp, L) && k < k' < g.numRestarts
    ensures g.Restart(k) < g.Restart(k')
  {
    assert RestartEntry(g, L, k) && RestartEntry(g, L, k') && RunBefore(L, k, k');
    OffsetOrder(g, cmp, L, L.runs[k], L.runs[k']);
  }

  /** From entry i, the next parse starts at entry i + 1 (or at restarts after
      the last entry) and may share up to the whole of entry i's key. */
  lemma NextFacts(g: Region, cmp: (Key, Key) -> int, L: Layout, i: nat)
    requires WellFormed(g, cmp, L) && i < |L.entries|
    ensures i + 1 < |L.entries| ==> L.entries[i].End() == L.entries[i + 1].offset
    ensures i + 1 == |L.entries| ==> L.entries[i].End() == g.restarts
    ensures i + 1 < |L.entries| ==> L.entries[i + 1].header.shared <= |L.entries[i].key|
  {
    Adjacent(g, cmp, L, i);
    if i + 1 < |L.entries| {
      assert EntryDecodes(g, L.entries, i + 1);
    }
  }

  /** Parsing entry m with a key that supplies its shared prefix: the entry
      lies before restarts, decodes to its header, and the rebuilt key is its
      key. */
  lemma ParseOnWellFormed(g: Region, cmp: (Key, Key) -> int, L: Layout, m: nat, key: Key)
    requires WellFormed(g, cmp, L) && m < |L.entries|
    requires var sh := L.entries[m].header.shared;
             sh <= |key| && sh <= |PrevKey(L.entries, m)| && key[..sh] == PrevKey(L.entries, m)[..sh]
    ensures L.entries[m].offset < g.restarts
    ensures DecodeEntry(g.data, L.entries[m].offset, g.restarts) == Some(L.entries[m].header)
    ensures var h := L.entries[m].header;
            key[..h.shared] + g.data[h.delta..h.delta + h.nonShared] == L.entries[m].key
  {
    EntryInRegion(g, cmp, L, m);
    assert EntryDecodes(g, L.entries, m);
  }

  // ---------------------------------------------------------------------------
  // Restart index and run ordinal
  // ---------------------------------------------------------------------------

  /** The restart-index loop of ParseNextKey: from ri, move to the next restart
      point while that point lies strictly before cur. */
  function AdvanceRun(g: Region, ri: nat, cur: nat): (r: nat)
    requires g.Framed() && ri < g.numRestarts
    ensures ri <= r < g.numRestarts
    ensures r + 1 < g.numRestarts ==> cur <= g.Restart(r + 1)
    ensures ri < r ==> g.Restart(r) < cur
    decreases g.numRestarts - ri
  {
    if ri + 1 < g.numRestarts && g.Restart(ri + 1) < cur then AdvanceRun(g, ri + 1, cur) else ri
  }

  /** (restart index, run ordinal) after ParseNextKey lands on the entry at
      offset cur: the ordinal is incremented modulo 2^32 and reset to 0 when the
      restart index moves. */
  function NextAddress(g: Region, a: (nat, Uint32), cur: nat): (nat, Uint32)
    requires g.Framed() && a.0 < g.numRestarts
  {
    var r := AdvanceRun(g, a.0, cur);
    (r, if r == a.0 then (a.1 + 1) % TwoTo32 else 0)
  }

  /** The address ParseNextKey gives entry m when the iterator was put on
      restart point k by SeekToRestartPoint (address (k, -1)) and then moved
      forward one entry at a time. */
  ghost function AddressFrom(g: Region, L: Layout, k: nat, m: nat): (a: (nat, Uint32))
    requires g.Framed() && k < |L.runs| == g.numRestarts && L.runs[k] <= m < |L.entries|
    ensures a.0 < g.numRestarts
    decreases m
  {
    var before := if m == L.runs[k] then (k, MaxUint32) else AddressFrom(g, L, k, m - 1);
    NextAddress(g, before, L.entries[m].offset)
  }

  /** In entry indices: from restart point k, climb while the next restart
      entry comes strictly before entry m. */
  ghost function ClimbRun(L: Layout, k: nat, m: nat): (r: nat)
    requires k < |L.runs|
    ensures k <= r < |L.runs|
    ensures r + 1 < |L.runs| ==> L.runs[r + 1] >= m
    ensures k < r ==> L.runs[r] < m
    decreases |L.runs| - k
  {
    if k + 1 < |L.runs| && L.runs[k + 1] < m then ClimbRun(L, k + 1, m) else k
  }

  lemma {:induction false} AdvanceRunIsClimb(g: Region, L: Layout, k: nat, m: nat)
    requires Indexed(g, L) && k < g.numRestarts && m < |L.entries|
    ensures AdvanceRun(g, k, L.entries[m].offset) == ClimbRun(L, k, m)
    decreases g.numRestarts - k
  {
    if k + 1 < g.numRestarts {
      var i := L.runs[k + 1];
      assert g.Restart(k + 1) == L.entries[i].offset;
      assert i < m <==> L.entries[i].offset < L.entries[m].offset by {
        if m < i {
          assert EntryBefore(L, m, i);
        } else if i < m {
          assert EntryBefore(L, i, m);
        }
      }
      AdvanceRunIsClimb(g, L, k + 1, m);
    }
  }

  lemma {:induction false} ClimbRunResumes(L: Layout, k: nat, m: nat)
    requires k < |L.runs| && m >= 1
    ensures ClimbRun(L, k, m) == ClimbRun(L, ClimbRun(L, k, m - 1), m)
    decreases |L.runs| - k
  {
    if k + 1 < |L.runs| && L.runs[k + 1] < m - 1 {
      ClimbRunResumes(L, k + 1, m);
    }
  }

  /** Restart entries in increasing order. */
  ghost predicate RunsIncrease(L: Layout)
  {
    forall k, k' :: 0 <= k < k' < |L.runs| ==> RunBefore(L, k, k')
  }

  /** Restart point k indexes an earlier entry than restart point k'.  Named
      so that the pairwise order is used only where a proof asks for it. */
  ghost predicate RunBefore(L: Layout, k: nat, k': nat)
  {
    k < |L.runs| && k' < |L.runs| && L.runs[k] < L.runs[k']
  }

  /** One more entry moves the climb by at most one restart point, and only onto
      a restart entry that is exactly the previous entry. */
  lemma ClimbStep(L: Layout, k0: nat, m: nat)
    requires RunsIncrease(L) && k0 < |L.runs| && m >= 1
    ensures var r', r := ClimbRun(L, k0, m - 1), ClimbRun(L, k0, m);
            r == r' || (r == r' + 1 && L.runs[r] == m - 1)
  {
    var r' := ClimbRun(L, k0, m - 1);
    ClimbRunResumes(L, k0, m);
    if r' + 1 < |L.runs| && L.runs[r' + 1] < m {
      assert L.runs[r' + 1] == m - 1;
      if r' + 2 < |L.runs| {
        assert RunBefore(L, r' + 1, r' + 2);
      }
    }
  }

  lemma ModSucc(x: nat)
    ensures ((x % TwoTo32) + 1) % TwoTo32 == (x + 1) % TwoTo32
  {
  }

  /** The run ordinal of entry m in the closed form below. */
  ghost function ClosedOrdinal(L: Layout, k0: nat, m: nat): Uint32
    requires k0 < |L.runs|
  {
    var r := ClimbRun(L, k0, m);
    (m - L.runs[r] - (if r == k0 then 0 else 1)) % TwoTo32
  }

  /** The part of well-formedness the address arithmetic needs: restart point
      k is the offset of entry runs[k], and entry offsets increase. */
  ghost predicate Indexed(g: Region, L: Layout)
  {
    && g.Framed()
    && |L.runs| == g.numRestarts
    && RunsIncrease(L)
    && (forall k :: 0 <= k < |L.runs| ==>
          L.runs[k] < |L.entries| && g.Restart(k) == L.entries[L.runs[k]].offset)
    && (forall i, j :: 0 <= i < j < |L.entries| ==> EntryBefore(L, i, j))
  }

  /** Entry i starts before entry j. */
  ghost predicate EntryBefore(L: Layout, i: nat, j: nat)
  {
    i < |L.entries| && j < |L.entries| && L.entries[i].offset < L.entries[j].offset
  }

  lemma WellFormedIndexed(g: Region, cmp: (Key, Key) -> int, L: Layout)
    requires WellFormed(g, cmp, L) && |L.entries| > 0
    ensures Indexed(g, L)
  {
    forall k | 0 <= k < |L.runs|
      ensures L.runs[k] < |L.entries| && g.Restart(k) == L.entries[L.runs[k]].offset
    {
      assert RestartEntry(g, L, k);
    }
    forall i, j | 0 <= i < j < |L.entries|
      ensures EntryBefore(L, i, j)
    {
      OffsetOrder(g, cmp, L, i, j);
    }
  }

  /** The closed-form ordinal moves as NextAddress moves the run ordinal: up by
      one (modulo 2^32) within a run, to 0 when the climb enters a new run. */
  lemma ClosedOrdinalStep(L: Layout, k0: nat, m: nat)
    requires RunsIncrease(L) && k0 < |L.runs| && L.runs[k0] < m
    ensures ClosedOrdinal(L, k0, m) ==
              if ClimbRun(L, k0, m) == ClimbRun(L, k0, m - 1) then (ClosedOrdinal(L, k0, m - 1) + 1) % TwoTo32 else 0
  {
    var r', r := ClimbRun(L, k0, m - 1), ClimbRun(L, k0, m);
    ClimbStep(L, k0, m);
    if r == r' {
      var x: nat := m - 1 - L.runs[r'] - (if r' == k0 then 0 else 1);
      ModSucc(x);
    } else {
      ClosedOrdinalAtRestart(L, k0, m);
    }
  }

  /** AddressFrom(k0, m) is given by the closed form. */
  ghost predicate ClosedForm(g: Region, L: Layout, k0: nat, m: nat)
    requires g.Framed() && k0 < |L.runs| == g.numRestarts && L.runs[k0] <= m < |L.entries|
  {
    AddressFrom(g, L, k0, m) == (ClimbRun(L, k0, m), ClosedOrdinal(L, k0, m))
  }

  lemma ClosedFormStep(g: Region, L: Layout, k0: nat, m: nat)
    requires g.Framed() && |L.runs| == g.numRestarts && RunsIncrease(L)
    requires k0 < g.numRestarts && L.runs[k0] < m < |L.entries|
    requires AdvanceRun(g, ClimbRun(L, k0, m - 1), L.entries[m].offset) == ClimbRun(L, ClimbRun(L, k0, m - 1), m)
    requires AddressFrom(g, L, k0, m - 1) == (ClimbRun(L, k0, m - 1), ClosedOrdinal(L, k0, m - 1))
    ensures AddressFrom(g, L, k0, m) == (ClimbRun(L, k0, m), ClosedOrdinal(L, k0, m))
  {
    ClimbRunResumes(L, k0, m);
    ClosedOrdinalStep(L, k0, m);
    assert AddressFrom(g, L, k0, m) == NextAddress(g, AddressFrom(g, L, k0, m - 1), L.entries[m].offset);
  }

  lemma ClosedFormNext(g: Region, L: Layout, k0: nat, m: nat)
    requires Indexed(g, L) && k0 < g.numRestarts && L.runs[k0] < m < |L.entries|
    requires ClosedForm(g, L, k0, m - 1)
    ensures ClosedForm(g, L, k0, m)
  {
    AdvanceRunIsClimb(g, L, ClimbRun(L, k0, m - 1), m);
    ClosedFormStep(g, L, k0, m);
  }

  /** Entry m sits on the restart entry of a run the climb has moved into. */
  lemma ClosedOrdinalAtRestart(L: Layout, k0: nat, m: nat)
    requires k0 < |L.runs| && ClimbRun(L, k0, m) != k0 && L.runs[ClimbRun(L, k0, m)] == m - 1
    ensures ClosedOrdinal(L, k0, m) == 0
  {
  }

  lemma ClosedFormStart(g: Region, L: Layout, k0: nat)
    requires Indexed(g, L) && k0 < g.numRestarts
    ensures ClosedForm(g, L, k0, L.runs[k0])
  {
    var m := L.runs[k0];
    AdvanceRunIsClimb(g, L, k0, m);
    if k0 + 1 < g.numRestarts {
      assert RunBefore(L, k0, k0 + 1);
    }
    assert ClimbRun(L, k0, m) == k0;
    assert AddressFrom(g, L, k0, m) == NextAddress(g, (k0, MaxUint32), L.entries[m].offset);
  }

  /** The closed form of AddressFrom: started from restart point k0, entry m is
      recorded in run r = ClimbRun(k0, m), at ordinal m - runs[r] in the
      starting run and m - runs[r] - 1 in every later one. */
  lemma {:induction false} AddressFromClosedForm(g: Region, L: Layout, k0: nat, m: nat)
    requires Indexed(g, L) && k0 < g.numRestarts && L.runs[k0] <= m < |L.entries|
    ensures ClosedForm(g, L, k0, m)
    decreases m
  {
    if m == L.runs[k0] {
      ClosedFormStart(g, L, k0);
    } else {
      AddressFromClosedForm(g, L, k0, m - 1);
      ClosedFormNext(g, L, k0, m);
    }
  }

  /** Put on restart point k by SeekToRestartPoint, the iterator records the
      restart entry at (k, 0). */
  lemma RestartEntryAddressByRestartPoint(g: Region, L: Layout, k: nat)
    requires Indexed(g, L) && k < g.numRestarts
    ensures AddressFrom(g, L, k, L.runs[k]) == (k, 0)
  {
    var m := L.runs[k];
    AddressFromClosedForm(g, L, k, m);
    if k + 1 < g.numRestarts {
      assert RunBefore(L, k, k + 1);
    }
    assert ClosedOrdinal(L, k, m) == 0;
  }

  /** Coming by Next from run k - 1, the iterator records the restart entry of
      run k still in run k - 1. */
  lemma RestartEntryAddressByNext(g: Region, L: Layout, k: nat)
    requires Indexed(g, L) && 1 <= k < g.numRestarts
    ensures L.runs[k - 1] < L.runs[k]
    ensures AddressFrom(g, L, k - 1, L.runs[k]) == (k - 1, (L.runs[k] - L.runs[k - 1]) % TwoTo32)
  {
    var m := L.runs[k];
    assert RunBefore(L, k - 1, k);
    AddressFromClosedForm(g, L, k - 1, m);
    assert ClimbRun(L, k - 1, m) == k - 1;
    assert ClosedOrdinal(L, k - 1, m) == (m - L.runs[k - 1]) % TwoTo32;
  }

  /** The entry sitting exactly on restart point k (k >= 1) gets two different
      addresses: (k, 0) when it is reached through SeekToRestartPoint(k), but
      (k - 1, runs[k] - runs[k - 1]) when Next reaches it from run k - 1,
      because the restart-index loop advances only while the next restart point
      is strictly before the current entry. */
  lemma RestartEntryAddressDependsOnPath(g: Region, L: Layout, k: nat)
    requires Indexed(g, L) && 1 <= k < g.numRestarts
    ensures L.runs[k - 1] < L.runs[k]
    ensures AddressFrom(g, L, k, L.runs[k]) != AddressFrom(g, L, k - 1, L.runs[k])
  {
    RestartEntryAddressByRestartPoint(g, L, k);
    RestartEntryAddressByNext(g, L, k);
  }

  /** The later entries of run k are shifted too: reached from run k - 1 by
      Next, entry m of run k is recorded at ordinal m - runs[k] - 1, one below
      the ordinal m - runs[k] it gets when Seek starts at restart point k. */
  lemma RunOrdinalDependsOnPath(g: Region, L: Layout, k: nat, m: nat)
    requires Indexed(g, L) && 1 <= k < g.numRestarts
    requires L.runs[k] < m < |L.entries| && (k + 1 < g.numRestarts ==> m <= L.runs[k + 1])
    ensures L.runs[k - 1] < L.runs[k]
    ensures AddressFrom(g, L, k, m) == (k, (m - L.runs[k]) % TwoTo32)
    ensures AddressFrom(g, L, k - 1, m) == (k, (m - L.runs[k] - 1) % TwoTo32)
  {
    assert RunBefore(L, k - 1, k);
    AddressFromClosedForm(g, L, k, m);
    AddressFromClosedForm(g, L, k - 1, m);
    assert ClimbRun(L, k, m) == k;
    assert ClimbRun(L, k - 1, m) == k;
    assert ClosedOrdinal(L, k, m) == (m - L.runs[k]) % TwoTo32;
    assert ClosedOrdinal(L, k - 1, m) == (m - L.runs[k] - 1) % TwoTo32;
  }

  // ---------------------------------------------------------------------------
  // Seek
  // ---------------------------------------------------------------------------

  /** The key stored at restart point k (the empty key when there is none). */
  ghost function RunKey(L: Layout, k: nat): Key
  {
    if k < |L.runs| && L.runs[k] < |L.entries| then L.entries[L.runs[k]].key else []
  }

  /** The first entry at or after from whose key is not below t, or |es|. */
  ghost function FirstAtLeast(cmp: (Key, Key) -> int, es: seq<Entry>, t: Key, from: nat): (r: nat)
    requires from <= |es|
    ensures from <= r <= |es|
    ensures forall j :: from <= j < r ==> cmp(es[j].key, t) < 0
    ensures r < |es| ==> cmp(es[r].key, t) >= 0
    decreases |es| - from
  {
    if from == |es| then from
    else if cmp(es[from].key, t) >= 0 then from
    else FirstAtLeast(cmp, es, t, from + 1)
  }

  lemma FirstAtLeastIs(cmp: (Key, Key) -> int, es: seq<Entry>, t: Key, r: nat)
    requires r <= |es|
    requires forall j :: 0 <= j < r ==> cmp(es[j].key, t) < 0
    requires r < |es| ==> cmp(es[r].key, t) >= 0
    ensures FirstAtLeast(cmp, es, t, 0) == r
  {
  }

  /** The restart point Seek's binary search settles on: the last of 0..j whose
      key is below t, or 0. */
  ghost function LastRunBelow(cmp: (Key, Key) -> int, L: Layout, t: Key, j: nat): (r: nat)
    ensures r <= j
    ensures r == 0 || cmp(RunKey(L, r), t) < 0
    ensures forall k :: r < k <= j ==> cmp(RunKey(L, k), t) >= 0
  {
    if j == 0 then 0
    else if cmp(RunKey(L, j), t) < 0 then j
    else LastRunBelow(cmp, L, t, j - 1)
  }

  /** The binary search's two invariants pin its result down. */
  lemma {:induction false} LastRunBelowIs(cmp: (Key, Key) -> int, L: Layout, t: Key, j: nat, left: nat)
    requires left <= j
    requires left == 0 || cmp(RunKey(L, left), t) < 0
    requires forall k :: left < k <= j ==> cmp(RunKey(L, k), t) >= 0
    ensures LastRunBelow(cmp, L, t, j) == left
    decreases j
  {
    if j > left {
      LastRunBelowIs(cmp, L, t, j - 1, left);
    }
  }

  /** A restart point other than the first decodes, at its offset, to an entry
      stored without a shared prefix whose key delta is the whole run key. */
  lemma RunKeyDecodes(g: Region, cmp: (Key, Key) -> int, L: Layout, k: nat)
    requires WellFormed(g, cmp, L) && 1 <= k < g.numRestarts
    ensures var d := DecodeEntry(g.data, g.Restart(k), g.restarts);
            && d.Some? && d.value.shared == 0
            && g.data[d.value.delta..d.value.delta + d.value.nonShared] == RunKey(L, k)
  {
    assert |L.entries| > 0;
    assert RestartEntry(g, L, k);
    var i := L.runs[k];
    assert EntryDecodes(g, L.entries, i);
    var e := L.entries[i];
    assert e.key == PrevKey(L.entries, i)[..0] + g.data[e.header.delta..e.header.delta + e.header.nonShared];
  }

  /** Once a run key is at or above t, every later run key is too. */
  lemma RunKeysAtOrAbove(g: Region, cmp: (Key, Key) -> int, L: Layout, t: Key, mid: nat)
    requires WellFormed(g, cmp, L) && mid < g.numRestarts && |L.entries| > 0
    requires cmp(RunKey(L, mid), t) >= 0
    ensures forall k :: mid <= k < g.numRestarts ==> cmp(RunKey(L, k), t) >= 0
  {
    forall k | mid < k < g.numRestarts
      ensures cmp(RunKey(L, k), t) >= 0
    {
      assert RestartEntry(g, L, mid) && RestartEntry(g, L, k) && RunBefore(L, mid, k);
      assert Below(cmp, RunKey(L, mid), RunKey(L, k));
      assert Below(cmp, RunKey(L, mid), RunKey(L, k)) && Below(cmp, RunKey(L, k), t) ==>
               Below(cmp, RunKey(L, mid), t);
    }
  }

  /** The key of run-start entry k >= 1: the first entry at or above it is
      that entry, and the last restart point below it is k - 1. */
  lemma RunKeySearch(g: Region, cmp: (Key, Key) -> int, L: Layout, k: nat)
    requires WellFormed(g, cmp, L) && 1 <= k < g.numRestarts
    ensures L.runs[k - 1] < L.runs[k] < |L.entries|
    ensures FirstAtLeast(cmp, L.entries, RunKey(L, k), 0) == L.runs[k]
    ensures LastRunBelow(cmp, L, RunKey(L, k), g.numRestarts - 1) == k - 1
  {
    assert |L.entries| > 0;
    var t, m := RunKey(L, k), L.runs[k];
    assert RestartEntry(g, L, k) && RestartEntry(g, L, k - 1) && RunBefore(L, k - 1, k);
    assert !Below(cmp, t, t);
    RunKeyFirst(g, cmp, L, k);
    RunKeysAtOrAbove(g, cmp, L, t, k);
    if k - 1 > 0 {
      assert Below(cmp, L.entries[L.runs[k - 1]].key, L.entries[m].key);
    }
    LastRunBelowIs(cmp, L, t, g.numRestarts - 1, k - 1);
  }

  /** No entry before a run-start entry reaches its key. */
  lemma RunKeyFirst(g: Region, cmp: (Key, Key) -> int, L: Layout, k: nat)
    requires WellFormed(g, cmp, L) && 1 <= k < g.numRestarts && |L.entries| > 0
    requires L.runs[k] < |L.entries| && !Below(cmp, RunKey(L, k), RunKey(L, k))
    ensures FirstAtLeast(cmp, L.entries, RunKey(L, k), 0) == L.runs[k]
  {
    var t, m := RunKey(L, k), L.runs[k];
    forall j | 0 <= j < m
      ensures cmp(L.entries[j].key, t) < 0
    {
      assert Below(cmp, L.entries[j].key, L.entries[m].key);
    }
    FirstAtLeastIs(cmp, L.entries, t, m);
  }

  /** Every entry before the restart point the search settles on is below t. */
  lemma EntriesBeforeRunBelow(g: Region, cmp: (Key, Key) -> int, L: Layout, t: Key, left: nat)
    requires WellFormed(g, cmp, L) && left < g.numRestarts && |L.entries| > 0
    requires left == 0 || cmp(RunKey(L, left), t) < 0
    ensures L.runs[left] < |L.entries|
    ensures forall j :: 0 <= j < L.runs[left] ==> cmp(L.entries[j].key, t) < 0
  {
    assert RestartEntry(g, L, left);
    forall j | 0 <= j < L.runs[left]
      ensures cmp(L.entries[j].key, t) < 0
    {
      assert left != 0;
      assert Below(cmp, L.entries[j].key, L.entries[L.runs[left]].key);
      assert Below(cmp, L.entries[L.runs[left]].key, t);
    }
  }
}
