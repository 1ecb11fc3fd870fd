/**
 * The state transitions of Block::Iter as functions on the iterator's fields.
 * Each operation of the class in BlockIterator is proved to compute exactly
 * the function of the same role here; what the operations promise on a
 * well-formed block is proved about these functions.
 */
module IterModel {
  import opened Coding
  import opened BlockEntry
  import opened Blocks
  import opened BlockLayout

  datatype Status = Ok | Corruption

  /** The fields of Block::Iter that its operations change.  value_ is kept as
      its start offset and length inside the block. */
  datatype State = State(current: nat, restartIndex: nat, restartOffset: Uint32, key: Key,
                         valueStart: nat, valueLength: nat, status: Status)
  {
    /** NextEntryOffset: just past the current value. */
    function NextEntryOffset(): nat
    {
      valueStart + valueLength
    }

    /** (restart index, run ordinal): what MetricsIter records. */
    function Address(): (nat, Uint32)
    {
      (restartIndex, restartOffset)
    }
  }

  /** Valid: the current entry starts before the restart array. */
  predicate Valid(g: Region, s: State)
  {
    s.current < g.restarts
  }

  /** What every state between two operations satisfies.  On a valid position
      the current entry, its key delta and its value lie in [0, restarts), and
      current lies between restart point restartIndex and the next one, both
      ends included. */
  ghost predicate Inv(g: Region, s: State)
  {
    && g.Framed()
    && s.current <= g.restarts
    && s.restartIndex <= g.numRestarts
    && (Valid(g, s) ==>
          && s.restartIndex < g.numRestarts
          && g.Restart(s.restartIndex) <= s.current < s.valueStart
          && s.NextEntryOffset() <= g.restarts
          && (s.restartIndex + 1 < g.numRestarts ==> s.current <= g.Restart(s.restartIndex + 1)))
  }

  /** The invalid position every failing move leaves behind. */
  ghost predicate Invalidated(g: Region, s: State)
  {
    s.current == g.restarts && s.restartIndex == g.numRestarts && s.restartOffset == 0
  }

  /** The state after every public operation. */
  ghost predicate Settled(g: Region, s: State)
  {
    Inv(g, s) && (!Valid(g, s) ==> Invalidated(g, s))
  }

  /** The state ParseNextKey starts from: a restart index in range whose
      restart point is at or before the offset it will parse. */
  ghost predicate Primed(g: Region, s: State)
  {
    && g.Framed()
    && s.restartIndex < g.numRestarts
    && g.Restart(s.restartIndex) <= s.NextEntryOffset()
  }

  /** The constructor's state: past the end, restart index at the count. */
  function Initial(g: Region): (s: State)
    ensures g.Framed() ==> Settled(g, s) && !Valid(g, s)
  {
    State(g.restarts, g.numRestarts, 0, [], 0, 0, Ok)
  }

  function Invalidate(g: Region, s: State): State
  {
    s.(current := g.restarts, restartIndex := g.numRestarts, restartOffset := 0)
  }

  /** CorruptionError: invalid, status Corruption, key and value cleared. */
  function Corrupt(g: Region): (s: State)
    ensures g.Framed() ==> Settled(g, s) && !Valid(g, s) && s.status == Corruption
  {
    State(g.restarts, g.numRestarts, 0, [], 0, 0, Corruption)
  }

  /** ParseNextKey: decode the entry that starts where the current value ends,
      returning the new state and whether an entry was found.  Running into the
      restart array invalidates the iterator and keeps its status; an entry that
      does not decode, or shares more than the key holds, is corruption.  On
      success the key is the kept prefix plus the key delta, and the address
      moves as NextAddress says. */
  function Parse(g: Region, s: State): (r: (State, bool))
    requires Primed(g, s)
    ensures Settled(g, r.0) && (Valid(g, r.0) <==> r.1)
    ensures r.0.status == s.status || r.0.status == Corruption
    ensures r.1 ==> r.0.status == s.status && r.0.current == s.NextEntryOffset()
    ensures s.NextEntryOffset() >= g.restarts ==>
              !r.1 && r.0.status == s.status && r.0.key == s.key
  {
    var p := s.NextEntryOffset();
    if p >= g.restarts then (Invalidate(g, s), false)
    else
      match DecodeEntry(g.data, p, g.restarts)
      case None => (Corrupt(g), false)
      case Some(h) =>
        if |s.key| < h.shared then (Corrupt(g), false)
        else
          var a := NextAddress(g, s.Address(), p);
          (State(p, a.0, a.1, s.key[..h.shared] + g.data[h.delta..h.delta + h.nonShared],
                 h.delta + h.nonShared, h.valueLength, s.status), true)
  }

  /** The three outcomes of Parse, one per exit of ParseNextKey. */
  lemma ParseCases(g: Region, s: State)
    requires Primed(g, s)
    ensures s.NextEntryOffset() >= g.restarts ==> Parse(g, s) == (Invalidate(g, s), false)
    ensures var p := s.NextEntryOffset();
            var d := DecodeEntry(g.data, p, g.restarts);
            p < g.restarts && (d.None? || |s.key| < d.value.shared) ==> Parse(g, s) == (Corrupt(g), false)
  {
  }

  /** The successful outcome of Parse, for the header h read at the next
      entry offset. */
  lemma ParseTakes(g: Region, s: State, h: Header)
    requires Primed(g, s) && s.NextEntryOffset() < g.restarts
    requires DecodeEntry(g.data, s.NextEntryOffset(), g.restarts) == Some(h) && h.shared <= |s.key|
    ensures var a := NextAddress(g, s.Address(), s.NextEntryOffset());
            Parse(g, s) == (State(s.NextEntryOffset(), a.0, a.1, s.key[..h.shared] + g.data[h.delta..h.delta + h.nonShared],
                                  h.delta + h.nonShared, h.valueLength, s.status), true)
  {
  }

  /** SeekToRestartPoint: clear the key, set the address to (index, -1) so that
      the next parse records ordinal 0, and make the next parse start at restart
      point index.  current is left for the parse to set. */
  function SeekRestart(g: Region, s: State, index: nat): (r: State)
    requires g.Framed() && index < g.numRestarts
    ensures Primed(g, r) && r.NextEntryOffset() == g.Restart(index)
    ensures r.current == s.current && r.status == s.status && r.key == []
  {
    s.(key := [], restartIndex := index, restartOffset := MaxUint32,
       valueStart := g.Restart(index), valueLength := 0)
  }

  /** The forward loop of Prev and SeekToLast: parse again while the last parse
      succeeded and the current entry ends before until. */
  function Replay(g: Region, s: State, until: nat): (r: State)
    requires Settled(g, s)
    ensures Settled(g, r)
    ensures r.status == s.status || r.status == Corruption
    ensures Valid(g, r) ==> until <= r.NextEntryOffset()
    ensures Valid(g, r) && s.current < until ==> r.current < until
    decreases if Valid(g, s) then 1 else 0, g.restarts - s.NextEntryOffset(), 1
  {
    if Valid(g, s) && s.NextEntryOffset() < until then ReplayNext(g, s, until) else s
  }

  /** One turn of that loop: parse, then replay from the new state. */
  function ReplayNext(g: Region, s: State, until: nat): (r: State)
    requires Settled(g, s) && Valid(g, s) && s.NextEntryOffset() < until
    ensures Settled(g, r)
    ensures r.status == s.status || r.status == Corruption
    ensures Valid(g, r) ==> until <= r.NextEntryOffset() && r.current < until
    decreases 1, g.restarts - s.NextEntryOffset(), 0
  {
    Replay(g, Parse(g, s).0, until)
  }

  /** One turn of the forward replay, as the loops of Prev and SeekToLast take
      it. */
  lemma ReplayStep(g: Region, s: State, until: nat)
    requires Settled(g, s) && Valid(g, s) && s.NextEntryOffset() < until
    ensures Primed(g, s) && Replay(g, s, until) == Replay(g, Parse(g, s).0, until)
  {
    assert Replay(g, s, until) == ReplayNext(g, s, until);
  }

  /** The forward loop of Seek: parse again while the last parse succeeded and
      the key is below t. */
  function Scan(g: Region, cmp: (Key, Key) -> int, s: State, t: Key): (r: State)
    requires Settled(g, s)
    ensures Settled(g, r)
    ensures r.status == s.status || r.status == Corruption
    ensures Valid(g, r) ==> !Below(cmp, r.key, t)
    decreases if Valid(g, s) then 1 else 0, g.restarts - s.NextEntryOffset(), 1
  {
    if Valid(g, s) && Below(cmp, s.key, t) then ScanNext(g, cmp, s, t) else s
  }

  /** One turn of that loop: parse, then scan on from the new state. */
  function ScanNext(g: Region, cmp: (Key, Key) -> int, s: State, t: Key): (r: State)
    requires Settled(g, s) && Valid(g, s)
    ensures Settled(g, r)
    ensures r.status == s.status || r.status == Corruption
    ensures Valid(g, r) ==> !Below(cmp, r.key, t)
    decreases 1, g.restarts - s.NextEntryOffset(), 0
  {
    Scan(g, cmp, Parse(g, s).0, t)
  }

  /** One turn of the forward scan, as the loop of Seek takes it. */
  lemma ScanStep(g: Region, cmp: (Key, Key) -> int, s: State, t: Key)
    requires Settled(g, s) && Valid(g, s) && Below(cmp, s.key, t)
    ensures Primed(g, s) && Scan(g, cmp, s, t) == Scan(g, cmp, Parse(g, s).0, t)
  {
    assert Scan(g, cmp, s, t) == ScanNext(g, cmp, s, t);
  }

  /** Seek's binary search over restart points left..right for the last one
      whose key is below t.  None when a probed restart entry does not decode
      or shares a prefix (corruption). */
  function Search(g: Region, cmp: (Key, Key) -> int, t: Key, left: nat, right: nat): (r: Option<nat>)
    requires g.Framed() && left <= right < g.numRestarts
    ensures r.Some? ==> left <= r.value <= right
    decreases right - left, 2
  {
    if left == right then Some(left) else Halve(g, cmp, t, left, right)
  }

  function Halve(g: Region, cmp: (Key, Key) -> int, t: Key, left: nat, right: nat): (r: Option<nat>)
    requires g.Framed() && left < right < g.numRestarts
    ensures r.Some? ==> left <= r.value <= right
    decreases right - left, 1
  {
    Probe(g, cmp, t, left, (left + right + 1) / 2, right)
  }

  /** One probe of Search, at the restart point halfway up from left. */
  function Probe(g: Region, cmp: (Key, Key) -> int, t: Key, left: nat, mid: nat, right: nat): (r: Option<nat>)
    requires g.Framed() && left < mid <= right < g.numRestarts
    ensures r.Some? ==> left <= r.value <= right
    decreases right - left, 0
  {
    match DecodeEntry(g.data, g.Restart(mid), g.restarts)
    case None => None
    case Some(h) =>
      if h.shared != 0 then None
      else if Below(cmp, g.data[h.delta..h.delta + h.nonShared], t) then Search(g, cmp, t, mid, right)
      else Search(g, cmp, t, left, mid - 1)
  }

  /** Prev's backward scan: the last restart point at or below ri that lies
      before cur.  None when even restart point 0 is not before cur. */
  function ScanBack(g: Region, ri: nat, cur: nat): (r: Option<nat>)
    requires g.Framed() && ri < g.numRestarts
    ensures r.Some? ==> r.value <= ri && g.Restart(r.value) < cur
    ensures r.Some? ==> forall k :: r.value < k <= ri ==> cur <= g.Restart(k)
    ensures r.None? ==> forall k :: 0 <= k <= ri ==> cur <= g.Restart(k)
  {
    if g.Restart(ri) < cur then Some(ri)
    else if ri == 0 then None
    else ScanBack(g, ri - 1, cur)
  }

  /** Prev: scan the restart array down to a restart point before the current
      entry (none: invalid, with status and key kept), then replay forward to
      the entry that ends at or after where the original one starts. */
  function PrevState(g: Region, s: State): (r: State)
    requires Settled(g, s) && Valid(g, s)
    ensures Settled(g, r)
    ensures r.status == s.status || r.status == Corruption
    ensures ScanBack(g, s.restartIndex, s.current).None? ==>
              !Valid(g, r) && r.status == s.status && r.key == s.key
    ensures Valid(g, r) ==> r.current < s.current <= r.NextEntryOffset()
  {
    match ScanBack(g, s.restartIndex, s.current)
    case None => Invalidate(g, s)
    case Some(j) => Replay(g, Parse(g, SeekRestart(g, s, j)).0, s.current)
  }

  /** Seek: binary search, then the linear scan from the restart point found. */
  function SeekState(g: Region, cmp: (Key, Key) -> int, s: State, t: Key): (r: State)
    requires g.Framed()
    ensures Settled(g, r)
    ensures r.status == s.status || r.status == Corruption
    ensures Valid(g, r) ==> !Below(cmp, r.key, t)
  {
    match Search(g, cmp, t, 0, g.numRestarts - 1)
    case None => Corrupt(g)
    case Some(left) => Scan(g, cmp, Parse(g, SeekRestart(g, s, left)).0, t)
  }

  /** SeekToFirst: restart point 0, then one parse. */
  function FirstState(g: Region, s: State): (r: State)
    requires g.Framed()
    ensures Settled(g, r)
    ensures r.status == s.status || r.status == Corruption
    ensures Valid(g, r) ==> r.current == g.Restart(0)
  {
    Parse(g, SeekRestart(g, s, 0)).0
  }

  /** SeekToLast: the last restart point, then parse until an entry ends at
      restarts. */
  function LastState(g: Region, s: State): (r: State)
    requires g.Framed()
    ensures Settled(g, r)
    ensures r.status == s.status || r.status == Corruption
    ensures Valid(g, r) ==> r.NextEntryOffset() == g.restarts
  {
    Replay(g, Parse(g, SeekRestart(g, s, g.numRestarts - 1)).0, g.restarts)
  }

  /** One step of the binary search is the probe at the restart point
      halfway up from left. */
  lemma SearchProbe(g: Region, cmp: (Key, Key) -> int, t: Key, left: nat, right: nat)
    requires g.Framed() && left < right < g.numRestarts
    ensures Search(g, cmp, t, left, right) == Probe(g, cmp, t, left, (left + right + 1) / 2, right)
  {
    assert Search(g, cmp, t, left, right) == Halve(g, cmp, t, left, right);
  }

  lemma SeekStateFromSearch(g: Region, cmp: (Key, Key) -> int, s: State, t: Key)
    requires g.Framed()
    ensures Search(g, cmp, t, 0, g.numRestarts - 1).None? ==> SeekState(g, cmp, s, t) == Corrupt(g)
    ensures Search(g, cmp, t, 0, g.numRestarts - 1).Some? ==>
              var left := Search(g, cmp, t, 0, g.numRestarts - 1).value;
              SeekState(g, cmp, s, t) == Scan(g, cmp, Parse(g, SeekRestart(g, s, left)).0, t)
  {
  }

  // ---------------------------------------------------------------------------
  // On a well-formed block
  // ---------------------------------------------------------------------------

  /** The iterator sits on entry i of L. */
  ghost predicate At(s: State, L: Layout, i: nat)
  {
    i < |L.entries| &&
    s.current == L.entries[i].offset && s.key == L.entries[i].key &&
    s.valueStart == L.entries[i].ValueStart() && s.valueLength == L.entries[i].header.valueLength
  }

  /** The next parse reads entry m of L (or finds restarts when m is past the
      last entry), and the key held so far supplies its shared prefix. */
  ghost predicate ReadyFor(g: Region, s: State, L: Layout, m: nat)
  {
    && m <= |L.entries|
    && s.NextEntryOffset() == (if m < |L.entries| then L.entries[m].offset else g.restarts)
    && (m < |L.entries| ==>
          var sh := L.entries[m].header.shared;
          sh <= |s.key| && sh <= |PrevKey(L.entries, m)| && s.key[..sh] == PrevKey(L.entries, m)[..sh])
  }

  /** From a state ready for entry m, one parse lands on entry m with the
      address NextAddress gives it, or goes invalid (status kept) when m is past
      the last entry. */
  lemma ParseOnLayout(g: Region, cmp: (Key, Key) -> int, L: Layout, s: State, m: nat)
    requires WellFormed(g, cmp, L) && Primed(g, s) && ReadyFor(g, s, L, m)
    ensures Parse(g, s).0.status == s.status
    ensures Parse(g, s).1 <==> m < |L.entries|
    ensures m < |L.entries| ==>
              At(Parse(g, s).0, L, m) &&
              Parse(g, s).0.Address() == NextAddress(g, s.Address(), L.entries[m].offset)
  {
    if m < |L.entries| {
      ParseOnWellFormed(g, cmp, L, m, s.key);
    }
  }

  /** On entry i, the next parse is ready for entry i + 1. */
  lemma ReadyAfter(g: Region, cmp: (Key, Key) -> int, L: Layout, s: State, i: nat)
    requires WellFormed(g, cmp, L) && Settled(g, s) && At(s, L, i)
    ensures Valid(g, s) && Primed(g, s) && ReadyFor(g, s, L, i + 1)
  {
    EntryInRegion(g, cmp, L, i);
    NextFacts(g, cmp, L, i);
  }

  /** Next: from entry i, the iterator lands on entry i + 1, or goes invalid
      after the last entry, keeping its status. */
  lemma NextOnLayout(g: Region, cmp: (Key, Key) -> int, L: Layout, s: State, i: nat)
    requires WellFormed(g, cmp, L) && Settled(g, s) && At(s, L, i)
    ensures Valid(g, s)
    ensures Parse(g, s).0.status == s.status
    ensures Valid(g, Parse(g, s).0) <==> i + 1 < |L.entries|
    ensures i + 1 < |L.entries| ==>
              At(Parse(g, s).0, L, i + 1) &&
              Parse(g, s).0.Address() == NextAddress(g, s.Address(), L.entries[i + 1].offset)
  {
    ReadyAfter(g, cmp, L, s, i);
    ParseOnLayout(g, cmp, L, s, i + 1);
  }

  /** After SeekToRestartPoint(k) on a block with entries, the next parse lands
      on the restart entry of k with address (k, 0) as AddressFrom counts it. */
  lemma RestartParseOnLayout(g: Region, cmp: (Key, Key) -> int, L: Layout, s: State, k: nat)
    requires WellFormed(g, cmp, L) && k < g.numRestarts && |L.entries| > 0
    ensures L.runs[k] < |L.entries|
    ensures Parse(g, SeekRestart(g, s, k)).0.status == s.status
    ensures At(Parse(g, SeekRestart(g, s, k)).0, L, L.runs[k])
    ensures Parse(g, SeekRestart(g, s, k)).0.Address() == AddressFrom(g, L, k, L.runs[k])
  {
    assert RestartEntry(g, L, k);
    var s1 := SeekRestart(g, s, k);
    assert ReadyFor(g, s1, L, L.runs[k]);
    ParseOnLayout(g, cmp, L, s1, L.runs[k]);
  }

  /** The forward replay from entry m reaches entry j (m <= j) when until is
      where entry j ends, and the address is what replaying from restart point
      k gives entry j. */
  lemma {:induction false} ReplayOnLayout(g: Region, cmp: (Key, Key) -> int, L: Layout, s: State, k: nat, m: nat, j: nat, until: nat)
    requires WellFormed(g, cmp, L) && Settled(g, s) && k < g.numRestarts
    requires L.runs[k] <= m <= j < |L.entries| && until == L.entries[j].End()
    requires At(s, L, m) && s.Address() == AddressFrom(g, L, k, m)
    ensures Replay(g, s, until).status == s.status
    ensures At(Replay(g, s, until), L, j)
    ensures Replay(g, s, until).Address() == AddressFrom(g, L, k, j)
    decreases j - m
  {
    ReadyAfter(g, cmp, L, s, m);
    if m < j {
      if m + 1 < j {
        OffsetsIncrease(g, cmp, L, m + 1, j);
      }
      EntryGrows(g, cmp, L, j);
      ParseOnLayout(g, cmp, L, s, m + 1);
      ReplayOnLayout(g, cmp, L, Parse(g, s).0, k, m + 1, j, until);
    }
  }

  /** Prev when the backward scan finds restart point j: replay from the entry
      after restart point j up to where the current entry starts. */
  lemma PrevStateReplays(g: Region, s: State, j: nat)
    requires Settled(g, s) && Valid(g, s) && ScanBack(g, s.restartIndex, s.current) == Some(j)
    ensures PrevState(g, s) == Replay(g, Parse(g, SeekRestart(g, s, j)).0, s.current)
  {
  }

  /** From entry i, seeking restart point j at or before entry i - 1 and
      replaying up to where entry i starts lands on entry i - 1. */
  lemma ReplayToPrevious(g: Region, cmp: (Key, Key) -> int, L: Layout, s: State, i: nat, j: nat)
    requires WellFormed(g, cmp, L) && At(s, L, i) && 0 < i
    requires j < g.numRestarts && L.runs[j] < i
    ensures var r := Replay(g, Parse(g, SeekRestart(g, s, j)).0, s.current);
            r.status == s.status && At(r, L, i - 1) && r.Address() == AddressFrom(g, L, j, i - 1)
  {
    RestartParseOnLayout(g, cmp, L, s, j);
    Touching(g, cmp, L, i);
    ReplayOnLayout(g, cmp, L, Parse(g, SeekRestart(g, s, j)).0, j, L.runs[j], i - 1, s.current);
  }

  /** Prev on a well-formed block: from entry i it lands on entry i - 1, or goes
      invalid from the first entry, keeping its status; the address is what
      replaying from the restart point the backward scan found gives it. */
  lemma PrevOnLayout(g: Region, cmp: (Key, Key) -> int, L: Layout, s: State, i: nat)
    requires WellFormed(g, cmp, L) && Settled(g, s) && At(s, L, i)
    ensures Valid(g, s)
    ensures PrevState(g, s).status == s.status
    ensures Valid(g, PrevState(g, s)) <==> i > 0
    ensures i > 0 ==>
              && ScanBack(g, s.restartIndex, s.current).Some?
              && var j := ScanBack(g, s.restartIndex, s.current).value;
                 && L.runs[j] < i
                 && At(PrevState(g, s), L, i - 1)
                 && PrevState(g, s).Address() == AddressFrom(g, L, j, i - 1)
  {
    EntryInRegion(g, cmp, L, i);
    ScanBackOnWellFormed(g, cmp, L, s.restartIndex, i);
    if i > 0 {
      var j := ScanBack(g, s.restartIndex, s.current).value;
      PrevStateReplays(g, s, j);
      ReplayToPrevious(g, cmp, L, s, i, j);
    }
  }

  /** p is back on entry i where s was: same key, value and status. */
  ghost predicate BackAt(p: State, s: State, L: Layout, i: nat)
  {
    && p.status == s.status && At(p, L, i)
    && p.key == s.key && p.valueStart == s.valueStart && p.valueLength == s.valueLength
  }

  /** Prev from entry i + 1 comes back to entry i where s was. */
  lemma PrevReturns(g: Region, cmp: (Key, Key) -> int, L: Layout, s: State, n: State, i: nat)
    requires WellFormed(g, cmp, L) && At(s, L, i)
    requires Settled(g, n) && At(n, L, i + 1) && n.status == s.status
    ensures Valid(g, n) && BackAt(PrevState(g, n), s, L, i)
  {
    PrevOnLayout(g, cmp, L, n, i + 1);
  }

  /** Next then Prev: from entry i, when there is an entry after it, Next
      followed by Prev comes back to entry i, with the same key and value. */
  lemma NextThenPrev(g: Region, cmp: (Key, Key) -> int, L: Layout, s: State, i: nat)
    requires WellFormed(g, cmp, L) && Settled(g, s) && At(s, L, i) && i + 1 < |L.entries|
    ensures Valid(g, s) && Valid(g, Parse(g, s).0)
    ensures BackAt(PrevState(g, Parse(g, s).0), s, L, i)
  {
    NextOnLayout(g, cmp, L, s, i);
    PrevReturns(g, cmp, L, s, Parse(g, s).0, i);
  }

  /** From the entry i with the restart index the iterator keeps for it, the
      backward scan stops on a restart point before entry i, and it finds none
      exactly when i is the first entry. */
  lemma ScanBackOnWellFormed(g: Region, cmp: (Key, Key) -> int, L: Layout, ri: nat, i: nat)
    requires WellFormed(g, cmp, L) && ri < g.numRestarts && i < |L.entries|
    requires g.Restart(ri) <= L.entries[i].offset
    ensures ScanBack(g, ri, L.entries[i].offset).None? <==> i == 0
    ensures ScanBack(g, ri, L.entries[i].offset).Some? ==>
              var j := ScanBack(g, ri, L.entries[i].offset).value;
              L.runs[j] < i && forall k :: j < k <= ri ==> i <= L.runs[k]
  {
    var r := ScanBack(g, ri, L.entries[i].offset);
    assert RestartEntry(g, L, 0);
    Adjacent(g, cmp, L, 0);
    OffsetOrder(g, cmp, L, 0, i);
    if r.Some? {
      assert RestartEntry(g, L, r.value);
      OffsetOrder(g, cmp, L, L.runs[r.value], i);
      forall k | r.value < k <= ri
        ensures i <= L.runs[k]
      {
        assert RestartEntry(g, L, k);
        OffsetOrder(g, cmp, L, L.runs[k], i);
      }
    }
  }

  /** SeekToFirst on a well-formed block: entry 0 at address (0, 0), or invalid
      when the block has no entries. */
  lemma FirstOnLayout(g: Region, cmp: (Key, Key) -> int, L: Layout, s: State)
    requires WellFormed(g, cmp, L)
    ensures FirstState(g, s).status == s.status
    ensures Valid(g, FirstState(g, s)) <==> |L.entries| > 0
    ensures |L.entries| > 0 ==> At(FirstState(g, s), L, 0) && FirstState(g, s).Address() == (0, 0)
  {
    if |L.entries| > 0 {
      RestartParseOnLayout(g, cmp, L, s, 0);
      WellFormedIndexed(g, cmp, L);
      RestartEntryAddressByRestartPoint(g, L, 0);
    } else {
      assert Start(L.entries, 0) == g.restarts;
    }
  }

  /** SeekToLast on a well-formed block: the last entry, at the address that
      replaying from the last restart point gives it, or invalid when the block
      has no entries. */
  lemma LastOnLayout(g: Region, cmp: (Key, Key) -> int, L: Layout, s: State)
    requires WellFormed(g, cmp, L)
    ensures LastState(g, s).status == s.status
    ensures Valid(g, LastState(g, s)) <==> |L.entries| > 0
    ensures |L.entries| > 0 ==>
              && L.runs[g.numRestarts - 1] < |L.entries|
              && At(LastState(g, s), L, |L.entries| - 1)
              && LastState(g, s).Address() == AddressFrom(g, L, g.numRestarts - 1, |L.entries| - 1)
  {
    if |L.entries| > 0 {
      var s1 := Parse(g, SeekRestart(g, s, g.numRestarts - 1)).0;
      RestartParseOnLayout(g, cmp, L, s, g.numRestarts - 1);
      ReplayToLast(g, cmp, L, s1);
    } else {
      assert Start(L.entries, 0) == g.restarts;
    }
  }

  /** From the restart entry of the last restart point, replaying up to
      restarts lands on the last entry. */
  lemma ReplayToLast(g: Region, cmp: (Key, Key) -> int, L: Layout, s: State)
    requires WellFormed(g, cmp, L) && Settled(g, s) && |L.entries| > 0
    requires L.runs[g.numRestarts - 1] < |L.entries| && At(s, L, L.runs[g.numRestarts - 1])
    requires s.Address() == AddressFrom(g, L, g.numRestarts - 1, L.runs[g.numRestarts - 1])
    ensures Replay(g, s, g.restarts).status == s.status
    ensures At(Replay(g, s, g.restarts), L, |L.entries| - 1)
    ensures Replay(g, s, g.restarts).Address() == AddressFrom(g, L, g.numRestarts - 1, |L.entries| - 1)
  {
    var last := g.numRestarts - 1;
    LastEntryEnds(g, cmp, L);
    ReplayOnLayout(g, cmp, L, s, last, L.runs[last], |L.entries| - 1, g.restarts);
  }

  /** One probe of the binary search on a well-formed block compares the key
      of the run that starts at restart point mid. */
  lemma SearchProbeOnLayout(g: Region, cmp: (Key, Key) -> int, L: Layout, t: Key, left: nat, right: nat)
    requires WellFormed(g, cmp, L) && left < right < g.numRestarts
    ensures var mid := (left + right + 1) / 2;
            Search(g, cmp, t, left, right) ==
              if cmp(RunKey(L, mid), t) < 0 then Search(g, cmp, t, mid, right) else Search(g, cmp, t, left, mid - 1)
  {
    SearchProbe(g, cmp, t, left, right);
    RunKeyDecodes(g, cmp, L, (left + right + 1) / 2);
  }

  /** The binary search, from bounds that keep its two invariants, settles on
      the last restart point whose key is below t. */
  lemma {:induction false} SearchOnLayout(g: Region, cmp: (Key, Key) -> int, L: Layout, t: Key, left: nat, right: nat)
    requires WellFormed(g, cmp, L) && left <= right < g.numRestarts
    requires left == 0 || cmp(RunKey(L, left), t) < 0
    requires forall k :: right < k < g.numRestarts ==> cmp(RunKey(L, k), t) >= 0
    ensures Search(g, cmp, t, left, right) == Some(LastRunBelow(cmp, L, t, g.numRestarts - 1))
    decreases right - left
  {
    if left == right {
      LastRunBelowIs(cmp, L, t, g.numRestarts - 1, left);
    } else {
      var mid := (left + right + 1) / 2;
      SearchProbeOnLayout(g, cmp, L, t, left, right);
      if cmp(RunKey(L, mid), t) < 0 {
        SearchOnLayout(g, cmp, L, t, mid, right);
      } else {
        RunKeysAtOrAbove(g, cmp, L, t, mid);
        SearchOnLayout(g, cmp, L, t, left, mid - 1);
      }
    }
  }

  /** The scan is at entry m (invalid when m is past the last entry), with the
      address replaying from restart point k gives it, and every entry before
      m is below t. */
  ghost predicate ScanReady(g: Region, cmp: (Key, Key) -> int, L: Layout, s: State, t: Key, k: nat, m: nat)
  {
    && g.Framed() && Settled(g, s) && k < |L.runs| == g.numRestarts
    && m <= |L.entries| && (Valid(g, s) <==> m < |L.entries|)
    && (m < |L.entries| ==> L.runs[k] <= m && At(s, L, m) && s.Address() == AddressFrom(g, L, k, m))
    && (forall j :: 0 <= j < m ==> cmp(L.entries[j].key, t) < 0)
  }

  /** The linear scan from a state ScanReady for entry m stops on the first
      entry at or above t (invalid when there is none). */
  lemma {:induction false} ScanOnLayout(g: Region, cmp: (Key, Key) -> int, L: Layout, s: State, t: Key, k: nat, m: nat)
    requires WellFormed(g, cmp, L) && ScanReady(g, cmp, L, s, t, k, m)
    ensures Scan(g, cmp, s, t).status == s.status
    ensures var f := FirstAtLeast(cmp, L.entries, t, 0);
            && (Valid(g, Scan(g, cmp, s, t)) <==> f < |L.entries|)
            && (f < |L.entries| ==>
                  L.runs[k] <= f && At(Scan(g, cmp, s, t), L, f) &&
                  Scan(g, cmp, s, t).Address() == AddressFrom(g, L, k, f))
    decreases |L.entries| - m
  {
    if m < |L.entries| && Below(cmp, s.key, t) {
      ScanStepOnLayout(g, cmp, L, s, t, k, m);
      ScanOnLayout(g, cmp, L, Parse(g, s).0, t, k, m + 1);
    } else {
      FirstAtLeastIs(cmp, L.entries, t, m);
    }
  }

  /** One turn of the scan on a well-formed block: from entry m, whose key is
      below t, the parse keeps the status and is ready for entry m + 1. */
  lemma ScanStepOnLayout(g: Region, cmp: (Key, Key) -> int, L: Layout, s: State, t: Key, k: nat, m: nat)
    requires WellFormed(g, cmp, L) && ScanReady(g, cmp, L, s, t, k, m)
    requires m < |L.entries| && Below(cmp, s.key, t)
    ensures Valid(g, s) && Primed(g, s)
    ensures Parse(g, s).0.status == s.status
    ensures ScanReady(g, cmp, L, Parse(g, s).0, t, k, m + 1)
  {
    NextOnLayout(g, cmp, L, s, m);
    ReadyAfter(g, cmp, L, s, m);
  }

  /** Where Seek lands on a well-formed block: on the first entry whose key is
      at or above t (invalid if there is none), with the address that
      replaying from the restart point the binary search chose gives it. */
  ghost predicate SeekLanded(g: Region, cmp: (Key, Key) -> int, L: Layout, t: Key, s: State)
    requires WellFormed(g, cmp, L)
  {
    var k := LastRunBelow(cmp, L, t, g.numRestarts - 1);
    var m := FirstAtLeast(cmp, L.entries, t, 0);
    && (Valid(g, s) <==> m < |L.entries|)
    && (Valid(g, s) ==> k < |L.runs| && L.runs[k] <= m && At(s, L, m) && s.Address() == AddressFrom(g, L, k, m))
  }

  /** Seek on a well-formed block: no corruption, and it lands where
      SeekLanded says. */
  lemma SeekOnLayout(g: Region, cmp: (Key, Key) -> int, L: Layout, s: State, t: Key)
    requires WellFormed(g, cmp, L)
    ensures SeekState(g, cmp, s, t).status == s.status
    ensures SeekLanded(g, cmp, L, t, SeekState(g, cmp, s, t))
  {
    var n := g.numRestarts;
    SearchOnLayout(g, cmp, L, t, 0, n - 1);
    ScanFromRunBelow(g, cmp, L, s, t);
  }

  /** Seeking the restart point the binary search settles on and scanning
      forward lands where SeekLanded says. */
  lemma ScanFromRunBelow(g: Region, cmp: (Key, Key) -> int, L: Layout, s: State, t: Key)
    requires WellFormed(g, cmp, L)
    ensures var k := LastRunBelow(cmp, L, t, g.numRestarts - 1);
            var r := Scan(g, cmp, Parse(g, SeekRestart(g, s, k)).0, t);
            r.status == s.status && SeekLanded(g, cmp, L, t, r)
  {
    var left := LastRunBelow(cmp, L, t, g.numRestarts - 1);
    var s1 := Parse(g, SeekRestart(g, s, left)).0;
    if |L.entries| > 0 {
      EntriesBeforeRunBelow(g, cmp, L, t, left);
      RestartParseOnLayout(g, cmp, L, s, left);
      ScanOnLayout(g, cmp, L, s1, t, left, L.runs[left]);
    } else {
      assert Start(L.entries, 0) == g.restarts;
      ScanOnLayout(g, cmp, L, s1, t, left, 0);
    }
  }

  /** r is valid, on entry i, with the address parsing from restart point k
      gives that entry. */
  ghost predicate OnEntryFrom(g: Region, L: Layout, r: State, k: nat, i: nat)
    requires g.Framed() && k < |L.runs| == g.numRestarts && L.runs[k] <= i < |L.entries|
  {
    Valid(g, r) && At(r, L, i) && r.Address() == AddressFrom(g, L, k, i)
  }

  /** Seek for the key of a run-start entry k >= 1 settles on restart point
      k - 1, since that key is not below itself, and lands on the entry with
      the address Next gives it, not (k, 0). */
  lemma SeekRunKeyAddress(g: Region, cmp: (Key, Key) -> int, L: Layout, s: State, k: nat)
    requires WellFormed(g, cmp, L) && 1 <= k < g.numRestarts
    ensures L.runs[k - 1] < L.runs[k] < |L.entries|
    ensures SeekState(g, cmp, s, RunKey(L, k)).status == s.status
    ensures OnEntryFrom(g, L, SeekState(g, cmp, s, RunKey(L, k)), k - 1, L.runs[k])
  {
    var t := RunKey(L, k);
    RunKeySearch(g, cmp, L, k);
    SeekOnLayout(g, cmp, L, s, t);
    LandedAt(g, cmp, L, t, SeekState(g, cmp, s, t), k - 1, L.runs[k]);
  }

  /** SeekLanded, once the search's two results are known. */
  lemma LandedAt(g: Region, cmp: (Key, Key) -> int, L: Layout, t: Key, r: State, k: nat, m: nat)
    requires WellFormed(g, cmp, L) && SeekLanded(g, cmp, L, t, r)
    requires LastRunBelow(cmp, L, t, g.numRestarts - 1) == k
    requires FirstAtLeast(cmp, L.entries, t, 0) == m < |L.entries|
    ensures k < g.numRestarts && L.runs[k] <= m
    ensures OnEntryFrom(g, L, r, k, m)
  {
  }
}
