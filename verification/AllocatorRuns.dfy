/**
 What every interleaving of allocator steps keeps: the books of each domain balance,
 the high-water mark is the true peak, and every block is in, and goes back to, the
 heap its size calls for.
 */
module AllocatorRuns {
  import opened Common
  import opened Allocator
  import opened Words

  /** One step of a run takes the memory before it to the memory after it. */
  ghost predicate Follows(states: seq<Memory>, events: seq<Event>, i: nat)
    requires i < |events| && |states| == |events| + 1
  {
    Enabled(states[i], events[i]) && states[i + 1] == Step(states[i], events[i])
  }

  /** A run: the memory before the first step and after every step. */
  ghost predicate Run(externalRam: bool, states: seq<Memory>, events: seq<Event>) {
    && |states| == |events| + 1
    && states[0] == Empty(externalRam)
    && forall i {:trigger Follows(states, events, i)} :: 0 <= i < |events| ==> Follows(states, events, i)
  }

  // ----- What is on the books ----------------------------------------------------

  predicate Booked(s: Slot) {
    s.phase.Live? || s.phase.Moved? || s.phase.Recharged?
  }

  /** The bytes a block is charged with: its header's size until a resize is booked. */
  function BookedBytes(s: Slot): nat {
    if s.phase.Recharged? then s.phase.request else if Booked(s) then s.size else 0
  }

  function TotalBytes(slots: seq<Slot>, d: Domain): nat {
    if slots == [] then 0
    else
      var s := slots[|slots| - 1];
      TotalBytes(slots[..|slots| - 1], d) + if s.domain == d then BookedBytes(s) else 0
  }

  function TotalBlocks(slots: seq<Slot>, d: Domain): nat {
    if slots == [] then 0
    else
      var s := slots[|slots| - 1];
      TotalBlocks(slots[..|slots| - 1], d) + if s.domain == d && Booked(s) then 1 else 0
  }

  /** What one step means for one domain's books. */
  datatype Entry = Nothing | Opened(bytes: nat) | Closed(bytes: nat) | Resized(from: nat, to: nat)

  function EntryOf(m: Memory, e: Event, d: Domain): Entry
    requires Enabled(m, e)
  {
    match e
    case Account(i) => if m.slots[i].domain == d then Opened(m.slots[i].phase.request) else Nothing
    case Unaccount(i) => if m.slots[i].domain == d then Closed(m.slots[i].size) else Nothing
    case Reaccount(i) =>
      if m.slots[i].domain == d then Resized(m.slots[i].size, m.slots[i].phase.request) else Nothing
    case _ => Nothing
  }

  function BytesOf(entry: Entry): int {
    match entry
    case Nothing => 0
    case Opened(bytes) => bytes
    case Closed(bytes) => 0 - bytes
    case Resized(from, to) => to - from
  }

  function BlocksOf(entry: Entry): int {
    if entry.Opened? then 1 else if entry.Closed? then -1 else 0
  }

  function Post(m: Metrics, entry: Entry): Metrics {
    match entry
    case Nothing => m
    case Opened(bytes) => Charge(m, bytes)
    case Closed(bytes) => Refund(m, bytes)
    case Resized(from, to) => Recharge(m, from, to)
  }

  lemma {:induction false} TotalsUpdate(slots: seq<Slot>, i: nat, s: Slot, d: Domain)
    requires i < |slots| && s.domain == slots[i].domain
    ensures TotalBytes(slots[i := s], d) ==
      TotalBytes(slots, d) + if s.domain == d then BookedBytes(s) - BookedBytes(slots[i]) else 0
    ensures TotalBlocks(slots[i := s], d) ==
      TotalBlocks(slots, d)
      + if s.domain == d then (if Booked(s) then 1 else 0) - (if Booked(slots[i]) then 1 else 0) else 0
  {
    var last := |slots| - 1;
    if i == last {
      assert slots[i := s][..last] == slots[..last];
    } else {
      assert slots[i := s][..last] == slots[..last][i := s];
      TotalsUpdate(slots[..last], i, s, d);
    }
  }

  lemma TotalsAppend(slots: seq<Slot>, s: Slot, d: Domain)
    requires s.phase.Raw?
    ensures TotalBytes(slots + [s], d) == TotalBytes(slots, d)
    ensures TotalBlocks(slots + [s], d) == TotalBlocks(slots, d)
  {
    assert (slots + [s])[..|slots|] == slots;
  }

  /** Each step posts exactly its entry, to its own domain and to no other. */
  lemma StepPosts(m: Memory, e: Event, d: Domain)
    requires Enabled(m, e)
    ensures Step(m, e).Of(d) == Post(m.Of(d), EntryOf(m, e, d))
  {
  }

  /** A step changes what its own block is booked for by exactly its entry. */
  lemma NextSlotBooked(m: Memory, e: Event, d: Domain)
    requires Enabled(m, e) && !e.HeapAlloc?
    ensures var s, next := m.slots[e.slot], NextSlot(m.externalRam, m.slots[e.slot], e);
      var entry := EntryOf(m, e, d);
      && next.domain == s.domain
      && BytesOf(entry) == (if s.domain == d then BookedBytes(next) - BookedBytes(s) else 0)
      && BlocksOf(entry) ==
           if s.domain == d then (if Booked(next) then 1 else 0) - (if Booked(s) then 1 else 0) else 0
  {
  }

  lemma StepSlots(m: Memory, e: Event)
    requires Enabled(m, e) && !e.HeapAlloc?
    ensures Step(m, e).slots == m.slots[e.slot := NextSlot(m.externalRam, m.slots[e.slot], e)]
  {
  }

  lemma StepTotals(m: Memory, e: Event, d: Domain)
    requires Enabled(m, e)
    ensures TotalBytes(Step(m, e).slots, d) == TotalBytes(m.slots, d) + BytesOf(EntryOf(m, e, d))
    ensures TotalBlocks(Step(m, e).slots, d) == TotalBlocks(m.slots, d) + BlocksOf(EntryOf(m, e, d))
  {
    if e.HeapAlloc? {
      TotalsAppend(m.slots, Step(m, e).slots[|m.slots|], d);
    } else {
      StepSlots(m, e);
      NextSlotBooked(m, e, d);
      TotalsUpdate(m.slots, e.slot, NextSlot(m.externalRam, m.slots[e.slot], e), d);
    }
  }

  // ----- Wrapped counters --------------------------------------------------------

  lemma RechargeLive(m: Metrics, bytes: int, from: nat, to: nat)
    requires m.live == Wrap(bytes)
    ensures Recharge(m, from, to).live == Wrap(bytes + to - from)
  {
    WrapAdd(bytes, 0 - from);
    WrapAdd(bytes - from, to);
  }

  lemma PostKeepsLive(m: Metrics, entry: Entry, bytes: int)
    requires m.live == Wrap(bytes)
    ensures Post(m, entry).live == Wrap(bytes + BytesOf(entry))
  {
    match entry
    case Nothing =>
    case Opened(n) => WrapAdd(bytes, n);
    case Closed(n) => WrapAdd(bytes, 0 - n);
    case Resized(from, to) => RechargeLive(m, bytes, from, to);
  }

  function CallsOf(entry: Entry): nat {
    if entry.Opened? || entry.Resized? then 1 else 0
  }

  function FreesOf(entry: Entry): nat {
    if entry.Closed? then 1 else 0
  }

  lemma PostCounts(m: Metrics, entry: Entry, calls: nat, frees: nat)
    requires m.calls == Wrap(calls) && m.frees == Wrap(frees)
    ensures Post(m, entry).calls == Wrap(calls + CallsOf(entry))
    ensures Post(m, entry).frees == Wrap(frees + FreesOf(entry))
  {
    WrapAdd(calls, 1);
    WrapAdd(frees, 1);
  }

  // ----- A domain's ledger -------------------------------------------------------

  const NEW_BOOKS := Metrics(0, 0, 0, 0)

  function PostAll(entries: seq<Entry>): Metrics {
    if entries == [] then NEW_BOOKS
    else Post(PostAll(entries[..|entries| - 1]), entries[|entries| - 1])
  }

  function SumBytes(entries: seq<Entry>): int {
    if entries == [] then 0 else SumBytes(entries[..|entries| - 1]) + BytesOf(entries[|entries| - 1])
  }

  function SumBlocks(entries: seq<Entry>): int {
    if entries == [] then 0 else SumBlocks(entries[..|entries| - 1]) + BlocksOf(entries[|entries| - 1])
  }

  function SumCalls(entries: seq<Entry>): nat {
    if entries == [] then 0 else SumCalls(entries[..|entries| - 1]) + CallsOf(entries[|entries| - 1])
  }

  function SumFrees(entries: seq<Entry>): nat {
    if entries == [] then 0 else SumFrees(entries[..|entries| - 1]) + FreesOf(entries[|entries| - 1])
  }

  /** Successful resizes of existing blocks. */
  function Resizes(entries: seq<Entry>): nat {
    if entries == [] then 0
    else Resizes(entries[..|entries| - 1]) + if entries[|entries| - 1].Resized? then 1 else 0
  }

  lemma {:induction false} LedgerCounts(entries: seq<Entry>)
    ensures PostAll(entries).calls == Wrap(SumCalls(entries))
    ensures PostAll(entries).frees == Wrap(SumFrees(entries))
  {
    if entries != [] {
      var earlier := entries[..|entries| - 1];
      LedgerCounts(earlier);
      PostCounts(PostAll(earlier), entries[|entries| - 1], SumCalls(earlier), SumFrees(earlier));
    }
  }

  lemma {:induction false} LedgerBytes(entries: seq<Entry>)
    ensures PostAll(entries).live == Wrap(SumBytes(entries))
  {
    if entries != [] {
      var earlier := entries[..|entries| - 1];
      LedgerBytes(earlier);
      PostKeepsLive(PostAll(earlier), entries[|entries| - 1], SumBytes(earlier));
    }
  }

  lemma {:induction false} CallsSplit(entries: seq<Entry>)
    ensures SumCalls(entries) - SumFrees(entries) == SumBlocks(entries) + Resizes(entries)
  {
    if entries != [] {
      CallsSplit(entries[..|entries| - 1]);
    }
  }

  /** Metrics agree with what is booked: modulo the counters' range, and exactly while they fit it. */
  predicate Agree(m: Metrics, bytes: int, blocks: int, resizes: nat, calls: nat) {
    && m.live == Wrap(bytes)
    && Wrap(m.calls - m.frees) == Wrap(blocks + resizes)
    && (0 <= bytes < RANGE ==> m.live == bytes)
    && (0 <= blocks && calls < RANGE ==> m.calls - m.frees == blocks + resizes)
  }

  lemma CountersAgree(m: Metrics, bytes: int, blocks: int, resizes: nat, calls: nat, frees: nat)
    requires m.live == Wrap(bytes) && m.calls == Wrap(calls) && m.frees == Wrap(frees)
    requires calls - frees == blocks + resizes
    ensures Agree(m, bytes, blocks, resizes, calls)
  {
    WrapDifference(calls, frees);
  }

  lemma LedgerBalances(entries: seq<Entry>)
    ensures Agree(PostAll(entries), SumBytes(entries), SumBlocks(entries), Resizes(entries), SumCalls(entries))
  {
    LedgerBytes(entries);
    LedgerCounts(entries);
    CallsSplit(entries);
    CountersAgree(PostAll(entries), SumBytes(entries), SumBlocks(entries), Resizes(entries),
                  SumCalls(entries), SumFrees(entries));
  }

  // ----- Books over whole runs ---------------------------------------------------

  /** The entries the first `k` steps of a run make in one domain's books. */
  ghost function Ledger(externalRam: bool, states: seq<Memory>, events: seq<Event>, d: Domain, k: nat)
    : (entries: seq<Entry>)
    requires Run(externalRam, states, events) && k <= |events|
    ensures |entries| == k
  {
    if k == 0 then []
    else
      assert Follows(states, events, k - 1);
      Ledger(externalRam, states, events, d, k - 1) + [EntryOf(states[k - 1], events[k - 1], d)]
  }

  lemma LedgerAppend(entries: seq<Entry>, entry: Entry)
    ensures PostAll(entries + [entry]) == Post(PostAll(entries), entry)
    ensures SumBytes(entries + [entry]) == SumBytes(entries) + BytesOf(entry)
    ensures SumBlocks(entries + [entry]) == SumBlocks(entries) + BlocksOf(entry)
  {
    assert (entries + [entry])[..|entries|] == entries;
  }

  /** Step `i` of a run as its entry describes it. */
  lemma RunPosts(externalRam: bool, states: seq<Memory>, events: seq<Event>, d: Domain, i: nat)
    requires Run(externalRam, states, events) && i < |events|
    ensures Enabled(states[i], events[i])
    ensures var entry := EntryOf(states[i], events[i], d);
      && states[i + 1].Of(d) == Post(states[i].Of(d), entry)
      && TotalBytes(states[i + 1].slots, d) == TotalBytes(states[i].slots, d) + BytesOf(entry)
      && TotalBlocks(states[i + 1].slots, d) == TotalBlocks(states[i].slots, d) + BlocksOf(entry)
  {
    assert Follows(states, events, i);
    StepPosts(states[i], events[i], d);
    StepTotals(states[i], events[i], d);
  }

  /** A domain's metrics and booked totals are those of its ledger. */
  ghost predicate Recorded(m: Memory, d: Domain, entries: seq<Entry>) {
    && m.Of(d) == PostAll(entries)
    && TotalBytes(m.slots, d) == SumBytes(entries)
    && TotalBlocks(m.slots, d) == SumBlocks(entries)
  }

  lemma RecordsNext(before: Memory, after: Memory, d: Domain, entries: seq<Entry>, entry: Entry)
    requires Recorded(before, d, entries) && after.Of(d) == Post(before.Of(d), entry)
    requires TotalBytes(after.slots, d) == TotalBytes(before.slots, d) + BytesOf(entry)
    requires TotalBlocks(after.slots, d) == TotalBlocks(before.slots, d) + BlocksOf(entry)
    ensures Recorded(after, d, entries + [entry])
  {
    LedgerAppend(entries, entry);
  }

  /** The metrics and the slots of a run both follow its ledger. */
  lemma {:induction false} LedgerRecordsRun(
      externalRam: bool, states: seq<Memory>, events: seq<Event>, d: Domain, k: nat)
    requires Run(externalRam, states, events) && k <= |events|
    ensures Recorded(states[k], d, Ledger(externalRam, states, events, d, k))
  {
    if k > 0 {
      LedgerRecordsRun(externalRam, states, events, d, k - 1);
      RunPosts(externalRam, states, events, d, k - 1);
      RecordsNext(states[k - 1], states[k], d, Ledger(externalRam, states, events, d, k - 1),
                  EntryOf(states[k - 1], events[k - 1], d));
    }
  }

  /**
   In every interleaving each domain's live bytes are the bytes booked against its
   blocks, and calls less frees are its booked blocks plus the successful resizes.
   The counters are `size_t`: both hold modulo its range, the bytes exactly while they
   fit it and the count exactly while the number of successful calls does.
   */
  lemma BooksBalance(externalRam: bool, states: seq<Memory>, events: seq<Event>, d: Domain, k: nat)
    requires Run(externalRam, states, events) && k <= |events|
    ensures var ledger := Ledger(externalRam, states, events, d, k);
      Agree(states[k].Of(d), TotalBytes(states[k].slots, d), TotalBlocks(states[k].slots, d),
            Resizes(ledger), SumCalls(ledger))
  {
    LedgerRecordsRun(externalRam, states, events, d, k);
    LedgerBalances(Ledger(externalRam, states, events, d, k));
  }

  /** Successful allocations and resizes of a domain among the first `k` steps, read off the events. */
  function CallsMade(states: seq<Memory>, events: seq<Event>, d: Domain, k: nat): nat
    requires k <= |events| <= |states|
  {
    if k == 0 then 0
    else CallsMade(states, events, d, k - 1) + CallOf(states[k - 1], events[k - 1], d)
  }

  /** Frees of a domain among the first `k` steps. */
  function FreesMade(states: seq<Memory>, events: seq<Event>, d: Domain, k: nat): nat
    requires k <= |events| <= |states|
  {
    if k == 0 then 0
    else FreesMade(states, events, d, k - 1) + FreeOf(states[k - 1], events[k - 1], d)
  }

  function CallOf(m: Memory, e: Event, d: Domain): nat {
    if (e.Account? || e.Reaccount?) && e.slot < |m.slots| && m.slots[e.slot].domain == d then 1 else 0
  }

  function FreeOf(m: Memory, e: Event, d: Domain): nat {
    if e.Unaccount? && e.slot < |m.slots| && m.slots[e.slot].domain == d then 1 else 0
  }

  lemma EntryCounts(m: Memory, e: Event, d: Domain)
    requires Enabled(m, e)
    ensures CallsOf(EntryOf(m, e, d)) == CallOf(m, e, d) && FreesOf(EntryOf(m, e, d)) == FreeOf(m, e, d)
  {
  }

  lemma CountsStep(before: Memory, e: Event, after: Memory, d: Domain, calls: nat, frees: nat)
    requires Enabled(before, e) && after.Of(d) == Post(before.Of(d), EntryOf(before, e, d))
    requires before.Of(d).calls == Wrap(calls) && before.Of(d).frees == Wrap(frees)
    ensures after.Of(d).calls == Wrap(calls + CallOf(before, e, d))
    ensures after.Of(d).frees == Wrap(frees + FreeOf(before, e, d))
  {
    EntryCounts(before, e, d);
    PostCounts(before.Of(d), EntryOf(before, e, d), calls, frees);
  }

  /** In every interleaving the two counters count a domain's calls and frees, modulo their range. */
  lemma {:induction false} CountersCount(externalRam: bool, states: seq<Memory>, events: seq<Event>, d: Domain, k: nat)
    requires Run(externalRam, states, events) && k <= |events|
    ensures states[k].Of(d).calls == Wrap(CallsMade(states, events, d, k))
    ensures states[k].Of(d).frees == Wrap(FreesMade(states, events, d, k))
  {
    if k > 0 {
      CountersCount(externalRam, states, events, d, k - 1);
      RunPosts(externalRam, states, events, d, k - 1);
      CountsStep(states[k - 1], events[k - 1], states[k], d,
                 CallsMade(states, events, d, k - 1), FreesMade(states, events, d, k - 1));
    }
  }

  lemma {:induction false} BytesIncludeBlock(slots: seq<Slot>, i: nat)
    requires i < |slots|
    ensures BookedBytes(slots[i]) <= TotalBytes(slots, slots[i].domain)
  {
    if i < |slots| - 1 {
      BytesIncludeBlock(slots[..|slots| - 1], i);
    }
  }

  /** A block about to be refunded or resized is part of what is booked, so its size can be taken off. */
  lemma NoUnderflow(externalRam: bool, states: seq<Memory>, events: seq<Event>, k: nat, i: nat)
    requires Run(externalRam, states, events) && k <= |events|
    requires Enabled(states[k], Unaccount(i)) || Enabled(states[k], Reaccount(i))
    ensures var s := states[k].slots[i];
      var total := TotalBytes(states[k].slots, s.domain);
      s.size <= total && (total < RANGE ==> s.size <= states[k].Of(s.domain).live)
  {
    BooksBalance(externalRam, states, events, states[k].slots[i].domain, k);
    BytesIncludeBlock(states[k].slots, i);
  }

  // ----- The high-water mark -----------------------------------------------------

  /** The most bytes ever booked up to a point of a run. */
  function Peak(states: seq<Memory>, d: Domain, k: nat): nat
    requires k < |states|
  {
    var now := TotalBytes(states[k].slots, d);
    if k == 0 then now else Max(Peak(states, d, k - 1), now)
  }

  /** No earlier total exceeds the peak, and one of them is it. */
  lemma {:induction false} PeakIsGreatest(states: seq<Memory>, d: Domain, k: nat) returns (at: nat)
    requires k < |states|
    ensures forall j :: 0 <= j <= k ==> TotalBytes(states[j].slots, d) <= Peak(states, d, k)
    ensures at <= k && TotalBytes(states[at].slots, d) == Peak(states, d, k)
  {
    at := k;
    if k > 0 {
      var earlier := PeakIsGreatest(states, d, k - 1);
      if Peak(states, d, k) != TotalBytes(states[k].slots, d) {
        at := earlier;
      }
    }
  }

  function LedgerPeak(entries: seq<Entry>): int {
    if entries == [] then 0
    else
      var peak, now := LedgerPeak(entries[..|entries| - 1]), SumBytes(entries);
      if peak < now then now else peak
  }

  ghost predicate NeverNegative(entries: seq<Entry>) {
    forall k :: 0 <= k <= |entries| ==> SumBytes(entries[..k]) >= 0
  }

  lemma PostHighWater(m: Metrics, entry: Entry, bytes: nat)
    requires m.live == bytes <= m.high && 0 <= bytes + BytesOf(entry) < RANGE
    ensures Post(m, entry).high == Max(m.high, bytes + BytesOf(entry))
    ensures Post(m, entry).live == bytes + BytesOf(entry)
  {
    if entry.Resized? {
      WrapAdd(bytes - entry.from, entry.to);
    }
  }

  lemma {:induction false} LedgerHighWater(entries: seq<Entry>)
    requires NeverNegative(entries) && LedgerPeak(entries) < RANGE
    ensures PostAll(entries).high == LedgerPeak(entries)
    ensures PostAll(entries).live == SumBytes(entries) <= LedgerPeak(entries)
  {
    if entries != [] {
      var earlier := entries[..|entries| - 1];
      forall k | 0 <= k <= |earlier|
        ensures SumBytes(earlier[..k]) >= 0
      {
        assert earlier[..k] == entries[..k];
      }
      assert entries[..|entries|] == entries && earlier[..|earlier|] == earlier;
      LedgerHighWater(earlier);
      PostHighWater(PostAll(earlier), entries[|entries| - 1], SumBytes(earlier));
    }
  }

  lemma {:induction false} LedgerPrefix(
      externalRam: bool, states: seq<Memory>, events: seq<Event>, d: Domain, j: nat, k: nat)
    requires Run(externalRam, states, events) && j <= k <= |events|
    ensures Ledger(externalRam, states, events, d, k)[..j] == Ledger(externalRam, states, events, d, j)
  {
    if j < k {
      LedgerPrefix(externalRam, states, events, d, j, k - 1);
      var entries := Ledger(externalRam, states, events, d, k);
      assert entries[..k - 1] == Ledger(externalRam, states, events, d, k - 1);
      assert entries[..j] == entries[..k - 1][..j];
    }
  }

  lemma LedgerNeverNegative(externalRam: bool, states: seq<Memory>, events: seq<Event>, d: Domain, k: nat)
    requires Run(externalRam, states, events) && k <= |events|
    ensures NeverNegative(Ledger(externalRam, states, events, d, k))
  {
    forall j | 0 <= j <= k
      ensures SumBytes(Ledger(externalRam, states, events, d, k)[..j]) >= 0
    {
      LedgerPrefix(externalRam, states, events, d, j, k);
      LedgerRecordsRun(externalRam, states, events, d, j);
    }
  }

  lemma {:induction false} PeakIsLedgerPeak(
      externalRam: bool, states: seq<Memory>, events: seq<Event>, d: Domain, k: nat)
    requires Run(externalRam, states, events) && k <= |events|
    ensures Peak(states, d, k) == LedgerPeak(Ledger(externalRam, states, events, d, k))
  {
    LedgerRecordsRun(externalRam, states, events, d, k);
    if k > 0 {
      PeakIsLedgerPeak(externalRam, states, events, d, k - 1);
      LedgerPrefix(externalRam, states, events, d, k - 1, k);
    }
  }

  lemma {:induction false} HighWaterFits(entries: seq<Entry>)
    ensures PostAll(entries).high < RANGE
  {
    if entries != [] {
      HighWaterFits(entries[..|entries| - 1]);
    }
  }

  /** The high-water mark is the historical maximum exactly in the runs whose bytes fit `size_t`. */
  lemma HighWaterExactly(externalRam: bool, states: seq<Memory>, events: seq<Event>, d: Domain, k: nat)
    requires Run(externalRam, states, events) && k <= |events|
    ensures states[k].Of(d).high == Peak(states, d, k) <==> Peak(states, d, k) < RANGE
  {
    LedgerRecordsRun(externalRam, states, events, d, k);
    if Peak(states, d, k) < RANGE {
      PeakIsLedgerPeak(externalRam, states, events, d, k);
      LedgerNeverNegative(externalRam, states, events, d, k);
      LedgerHighWater(Ledger(externalRam, states, events, d, k));
    } else {
      HighWaterFits(Ledger(externalRam, states, events, d, k));
    }
  }

  // ----- Placement ---------------------------------------------------------------

  /** A block is in the heap its size calls for, and a settled header says so. */
  predicate WellPlaced(externalRam: bool, s: Slot) {
    match s.phase
    case Gone => true
    case Live => s.heap == s.pool == PoolFor(externalRam, s.domain, s.size) && |s.data| == s.size
    case Refunded => s.heap == s.pool == PoolFor(externalRam, s.domain, s.size) && |s.data| == s.size
    case Raw(request) => s.heap == PoolFor(externalRam, s.domain, request) && |s.data| == request
    case Moved(request) => s.heap == PoolFor(externalRam, s.domain, request) && |s.data| == request
    case Recharged(request) => s.heap == PoolFor(externalRam, s.domain, request) && |s.data| == request
  }

  ghost predicate Placed(m: Memory) {
    && (forall i :: 0 <= i < |m.slots| ==> WellPlaced(m.externalRam, m.slots[i]))
    && (forall i :: 0 <= i < |m.returned| ==> m.returned[i].0 == m.returned[i].1)
  }

  lemma StepKeepsPlaced(m: Memory, e: Event)
    requires Placed(m) && Enabled(m, e)
    ensures Placed(Step(m, e)) && Step(m, e).externalRam == m.externalRam
  {
  }

  /**
   In every interleaving each block is in the external heap exactly when external RAM
   exists and its size reaches its domain's threshold, and every heap call on a block
   is made on the heap the block is in.
   */
  lemma {:induction false} PlacedAlways(externalRam: bool, states: seq<Memory>, events: seq<Event>, k: nat)
    requires Run(externalRam, states, events) && k <= |events|
    ensures Placed(states[k]) && states[k].externalRam == externalRam
    ensures forall i :: 0 <= i < |states[k].slots| && states[k].slots[i].phase.Live? ==>
      RightHeap(externalRam, states[k].slots[i]) && |states[k].slots[i].data| == states[k].slots[i].size
  {
    if k > 0 {
      PlacedAlways(externalRam, states, events, k - 1);
      assert Follows(states, events, k - 1);
      StepKeepsPlaced(states[k - 1], events[k - 1]);
    }
  }

  /**
   A successful resize keeps the first bytes the two sizes share, settles the block in
   the heap of its new size, and touches neither another block nor the other domain.
   */
  lemma ReallocateKeepsPrefix(m: Memory, i: nat, size: nat, tail: seq<int>)
    requires Placed(m) && Enabled(m, HeapRealloc(i, size, tail))
    ensures var next := Reallocated(m, i, size, tail);
      var kept := Min(m.slots[i].size, size);
      && |next.slots| == |m.slots| && |next.slots[i].data| == next.slots[i].size == size
      && kept <= |m.slots[i].data| && next.slots[i].data[..kept] == m.slots[i].data[..kept]
      && next.slots[i].phase == Live
      && next.slots[i].domain == m.slots[i].domain && RightHeap(m.externalRam, next.slots[i])
      && (forall j :: 0 <= j < |m.slots| && j != i ==> next.slots[j] == m.slots[j])
      && (forall d :: d != m.slots[i].domain ==> next.Of(d) == m.Of(d))
  {
    ReallocatedAtOnce(m, i, size, tail);
    assert WellPlaced(m.externalRam, m.slots[i]);
  }

  /** Each free or resize makes one call on the heap the block was in, and no other step makes any. */
  lemma HeapCallsRight(externalRam: bool, states: seq<Memory>, events: seq<Event>, k: nat)
    requires Run(externalRam, states, events) && k < |events|
    ensures (events[k].HeapFree? || events[k].HeapRealloc?) ==>
      && events[k].slot < |states[k].slots|
      && var heap := states[k].slots[events[k].slot].heap;
         states[k + 1].returned == states[k].returned + [(heap, heap)]
    ensures !(events[k].HeapFree? || events[k].HeapRealloc?) ==> states[k + 1].returned == states[k].returned
  {
    PlacedAlways(externalRam, states, events, k);
    assert Follows(states, events, k);
  }

  // ----- Between operations ------------------------------------------------------

  /** The payload bytes of a domain's live blocks. */
  function PayloadBytes(slots: seq<Slot>, d: Domain): nat {
    if slots == [] then 0
    else
      var s := slots[|slots| - 1];
      PayloadBytes(slots[..|slots| - 1], d) + if s.phase.Live? && s.domain == d then |s.data| else 0
  }

  ghost predicate Settled(slots: seq<Slot>) {
    forall i :: 0 <= i < |slots| ==> slots[i].phase.Gone? || (slots[i].phase.Live? && |slots[i].data| == slots[i].size)
  }

  lemma {:induction false} SettledBytes(slots: seq<Slot>, d: Domain)
    requires Settled(slots)
    ensures TotalBytes(slots, d) == PayloadBytes(slots, d)
  {
    if slots != [] {
      SettledBytes(slots[..|slots| - 1], d);
    }
  }

  /** Whenever no operation is under way, the live bytes are the payload bytes handed out and not returned. */
  lemma LiveBytesAreReal(externalRam: bool, states: seq<Memory>, events: seq<Event>, d: Domain, k: nat)
    requires Run(externalRam, states, events) && k <= |events|
    requires forall i :: 0 <= i < |states[k].slots| ==> states[k].slots[i].phase.Live? || states[k].slots[i].phase.Gone?
    ensures var bytes := PayloadBytes(states[k].slots, d);
      states[k].Of(d).live == Wrap(bytes) && (bytes < RANGE ==> states[k].Of(d).live == bytes)
  {
    PlacedAlways(externalRam, states, events, k);
    SettledBytes(states[k].slots, d);
    BooksBalance(externalRam, states, events, d, k);
  }
}
