/**
 * Block::Iter: a cursor over the entries of one block.  It keeps the offset of
 * the current entry, the restart point whose run it believes the entry is in,
 * the number of entries since that restart point, the key rebuilt from the
 * shared prefixes, the value as (start, length) inside the block, and a status.
 * Every operation is proved to leave the fields as the function of the same
 * role in IterModel computes from the old fields.
 */
module BlockIterator {
  import opened Coding
  import opened BlockEntry
  import opened Blocks
  import opened BlockLayout
  import opened IterModel

  /** One probe of Seek's binary search: the narrower bounds, or None when the
      probed restart entry does not decode or shares a prefix. */
  method Narrow(g: Region, cmp: (Key, Key) -> int, target: Key, left: nat, right: nat) returns (r: Option<(nat, nat)>)
    requires g.Framed() && left < right < g.numRestarts
    ensures r.None? ==> Search(g, cmp, target, left, right).None?
    ensures r.Some? ==> left <= r.value.0 <= r.value.1 <= right && r.value.1 - r.value.0 < right - left
    ensures r.Some? ==> Search(g, cmp, target, r.value.0, r.value.1) == Search(g, cmp, target, left, right)
  {
    var mid := (left + right + 1) / 2;
    SearchProbe(g, cmp, target, left, right);
    var regionOffset := RestartPoint(g.data, g.restarts, mid);
    var h := DecodeEntry(g.data, regionOffset, g.restarts);
    if h.None? || h.value.shared != 0 {
      return None;
    }
    var midKey := g.data[h.value.delta..h.value.delta + h.value.nonShared];
    if Below(cmp, midKey, target) {
      return Some((mid, right));
    } else {
      return Some((left, mid - 1));
    }
  }

  /** The binary search of Seek over the restart points: the last one whose
      key is below target, or None when a probed restart entry does not decode
      or shares a prefix. */
  method SearchRestarts(g: Region, cmp: (Key, Key) -> int, target: Key) returns (found: Option<nat>)
    requires g.Framed()
    ensures found == Search(g, cmp, target, 0, g.numRestarts - 1)
  {
    var left: nat := 0;
    var right: nat := g.numRestarts - 1;
    while left < right
      invariant left <= right < g.numRestarts
      invariant Search(g, cmp, target, left, right) == Search(g, cmp, target, 0, g.numRestarts - 1)
      decreases right - left
    {
      var next := Narrow(g, cmp, target, left, right);
      if next.None? {
        return None;
      }
      left, right := next.value.0, next.value.1;
    }
    return Some(left);
  }

  /** The restart-index loop at the end of ParseNextKey: move to the next
      restart point while it lies strictly before cur, resetting the run
      ordinal whenever the index moves. */
  method AdvanceRestartIndex(g: Region, index: nat, ordinal: Uint32, cur: nat) returns (r: nat, o: Uint32)
    requires g.Framed() && index < g.numRestarts
    ensures r == AdvanceRun(g, index, cur)
    ensures o == if r == index then ordinal else 0
  {
    r, o := index, ordinal;
    while r + 1 < g.numRestarts && RestartPoint(g.data, g.restarts, r + 1) < cur
      invariant index <= r < g.numRestarts
      invariant AdvanceRun(g, r, cur) == AdvanceRun(g, index, cur)
      invariant o == if r == index then ordinal else 0
      decreases g.numRestarts - r
    {
      r, o := r + 1, 0;
    }
  }

  class Iter {
    const cmp: (Key, Key) -> int
    const data: seq<Byte>
    const restarts: nat
    const numRestarts: nat

    var current: nat
    var restartIndex: nat
    var restartOffset: Uint32
    var key: Key
    var valueStart: nat
    var valueLength: nat
    var status: Status

    function View(): Region
    {
      Region(data, restarts, numRestarts)
    }

    function Snapshot(): State
      reads this
    {
      State(current, restartIndex, restartOffset, key, valueStart, valueLength, status)
    }

    /** Valid: the current entry starts before the restart array. */
    predicate Valid()
      reads this
    {
      current < restarts
    }

    function NextEntryOffset(): nat
      reads this
    {
      valueStart + valueLength
    }

    /** A new iterator starts past the end: current is restarts and the
        restart index is the restart count. */
    constructor(cmp: (Key, Key) -> int, data: seq<Byte>, restarts: nat, numRestarts: nat)
      requires 0 < numRestarts && restarts + 4 * numRestarts <= |data|
      ensures this.cmp == cmp && this.data == data
      ensures this.restarts == restarts && this.numRestarts == numRestarts
      ensures Snapshot() == Initial(View())
      ensures Settled(View(), Snapshot()) && !Valid()
    {
      this.cmp := cmp;
      this.data := data;
      this.restarts := restarts;
      this.numRestarts := numRestarts;
      current := restarts;
      restartIndex := numRestarts;
      restartOffset := 0;
      key := [];
      valueStart, valueLength := 0, 0;
      status := Ok;
    }

    method SeekToRestartPoint(index: nat)
      requires View().Framed() && index < numRestarts
      modifies this
      ensures Snapshot() == SeekRestart(View(), old(Snapshot()), index)
    {
      key := [];
      restartIndex := index;
      restartOffset := MaxUint32;
      var offset := RestartPoint(data, restarts, index);
      valueStart, valueLength := offset, 0;
    }

    method CorruptionError()
      modifies this
      ensures Snapshot() == Corrupt(View())
    {
      current := restarts;
      restartIndex := numRestarts;
      restartOffset := 0;
      status := Corruption;
      key := [];
      valueStart, valueLength := 0, 0;
    }

    method ParseNextKey() returns (ok: bool)
      requires Primed(View(), Snapshot())
      modifies this
      ensures (Snapshot(), ok) == Parse(View(), old(Snapshot()))
    {
      var g, s := View(), Snapshot();
      ParseCases(g, s);
      var p := s.NextEntryOffset();
      var offset := (s.restartOffset + 1) % TwoTo32;
      if p >= g.restarts {
        current, restartIndex, restartOffset := g.restarts, g.numRestarts, 0;
        return false;
      }
      var h := DecodeEntry(g.data, p, g.restarts);
      if h.None? || |s.key| < h.value.shared {
        CorruptionError();
        return false;
      }
      var e := h.value;
      ParseTakes(g, s, e);
      var index, ordinal := AdvanceRestartIndex(g, s.restartIndex, offset, p);
      var newKey := s.key[..e.shared] + g.data[e.delta..e.delta + e.nonShared];
      ghost var next := State(p, index, ordinal, newKey, e.delta + e.nonShared, e.valueLength, s.status);
      assert Parse(g, s) == (next, true);
      current, restartIndex, restartOffset, key, valueStart, valueLength :=
        p, index, ordinal, newKey, e.delta + e.nonShared, e.valueLength;
      assert Snapshot() == next;
      ok := true;
    }

    method Next()
      requires Settled(View(), Snapshot()) && Valid()
      modifies this
      ensures Snapshot() == Parse(View(), old(Snapshot())).0
    {
      var _ := ParseNextKey();
    }

    method Prev()
      requires Settled(View(), Snapshot()) && Valid()
      modifies this
      ensures Snapshot() == PrevState(View(), old(Snapshot()))
    {
      ghost var g := View();
      var original := current;
      var r: nat := restartIndex;
      while RestartPoint(data, restarts, r) >= original
        invariant unchanged(this)
        invariant r <= old(restartIndex) < numRestarts
        invariant ScanBack(g, r, original) == ScanBack(g, old(restartIndex), original)
        decreases r
      {
        if r == 0 {
          current := restarts;
          restartIndex := numRestarts;
          restartOffset := 0;
          return;
        }
        r := r - 1;
      }
      SeekToRestartPoint(r);
      var ok := ParseNextKey();
      while ok && NextEntryOffset() < original
        invariant Settled(g, Snapshot()) && (Valid() <==> ok)
        invariant Replay(g, Snapshot(), original) == PrevState(g, old(Snapshot()))
        decreases ok, restarts - NextEntryOffset()
      {
        ReplayStep(g, Snapshot(), original);
        ok := ParseNextKey();
      }
    }

    method Seek(target: Key)
      requires View().Framed()
      modifies this
      ensures Snapshot() == SeekState(View(), cmp, old(Snapshot()), target)
    {
      ghost var g := View();
      SeekStateFromSearch(g, cmp, Snapshot(), target);
      var found := SearchRestarts(View(), cmp, target);
      if found.None? {
        CorruptionError();
        return;
      }
      SeekToRestartPoint(found.value);
      var ok := ParseNextKey();
      while ok && Below(cmp, key, target)
        invariant Settled(g, Snapshot()) && (Valid() <==> ok)
        invariant Scan(g, cmp, Snapshot(), target) == SeekState(g, cmp, old(Snapshot()), target)
        decreases ok, restarts - NextEntryOffset()
      {
        ScanStep(g, cmp, Snapshot(), target);
        ok := ParseNextKey();
      }
    }

    method SeekToFirst()
      requires View().Framed()
      modifies this
      ensures Snapshot() == FirstState(View(), old(Snapshot()))
    {
      SeekToRestartPoint(0);
      var _ := ParseNextKey();
    }

    method SeekToLast()
      requires View().Framed()
      modifies this
      ensures Snapshot() == LastState(View(), old(Snapshot()))
    {
      ghost var g := View();
      ghost var last := LastState(g, Snapshot());
      SeekToRestartPoint(numRestarts - 1);
      ghost var seeked := Snapshot();
      assert last == Replay(g, Parse(g, seeked).0, restarts);
      var ok := ParseNextKey();
      while ok && NextEntryOffset() < restarts
        invariant Settled(g, Snapshot()) && (Valid() <==> ok)
        invariant Replay(g, Snapshot(), restarts) == last
        decreases ok, restarts - NextEntryOffset()
      {
        ReplayStep(g, Snapshot(), restarts);
        ok := ParseNextKey();
      }
    }
  }
}
