/**
 The tracking allocator: two accounting domains over two heaps, a header in front
 of every block, and metrics kept under a spinlock.

 Memory is a list of slots, one per block ever obtained.  Each step is one thing a
 thread does atomically: a heap call, or the critical section of the metrics lock.
 A slot's phase says how far the operation on its block has come, so interleavings
 of steps on different slots are the interleavings of the threads owning them.
 */
module Allocator {
  import opened Common
  import opened Words

  const HEADER_BYTES := 8

  datatype Pool = Internal | External
  datatype Domain = Ros | Middleware

  datatype Metrics = Metrics(calls: nat, frees: nat, live: nat, high: nat)

  function Threshold(d: Domain): nat {
    if d == Ros then 4096 else 8192
  }

  /** The heap a request belongs in; without external RAM there is only one. */
  function PoolFor(externalRam: bool, d: Domain, request: nat): Pool {
    if externalRam && request >= Threshold(d) then External else Internal
  }

  datatype Phase =
    | Raw(request: nat)       // obtained from the heap, header not written
    | Live                    // in its owner's hands
    | Moved(request: nat)     // resized in the heap, metrics not updated yet
    | Recharged(request: nat) // metrics updated, header not rewritten yet
    | Refunded                // taken off the books, still in the heap
    | Gone                    // back in the heap

  /** A block: where it really is, the header's two fields, and its payload. */
  datatype Slot = Slot(domain: Domain, heap: Pool, size: nat, pool: Pool, data: seq<int>, phase: Phase)

  /**
   A block whose header tells the truth, in the external heap exactly if external RAM exists
   and its size reaches 4096 bytes for ROS and 8192 for the middleware.
   */
  predicate RightHeap(externalRam: bool, s: Slot) {
    && s.pool == s.heap
    && (s.heap == External <==> externalRam && s.size >= if s.domain == Ros then 4096 else 8192)
  }

  datatype Memory = Memory(
    externalRam: bool,
    slots: seq<Slot>,
    ros: Metrics,
    middleware: Metrics,
    returned: seq<(Pool, Pool)>) // each heap call on a block: where it was, which heap was called
  {
    function Of(d: Domain): Metrics {
      if d == Ros then ros else middleware
    }

    function Put(d: Domain, m: Metrics): Memory {
      if d == Ros then this.(ros := m) else this.(middleware := m)
    }
  }

  function Empty(externalRam: bool): Memory {
    Memory(externalRam, [], Metrics(0, 0, 0, 0), Metrics(0, 0, 0, 0), [])
  }

  // ----- Metrics under the lock --------------------------------------------------

  function Charge(m: Metrics, size: nat): Metrics {
    var live := Wrap(m.live + size);
    Metrics(Wrap(m.calls + 1), m.frees, live, Max(m.high, live))
  }

  function Refund(m: Metrics, size: nat): Metrics {
    Metrics(m.calls, Wrap(m.frees + 1), Wrap(m.live - size), m.high)
  }

  function Recharge(m: Metrics, oldSize: nat, size: nat): Metrics {
    var live := Wrap(Wrap(m.live - oldSize) + size);
    Metrics(Wrap(m.calls + 1), m.frees, live, Max(m.high, live))
  }

  // ----- Steps -------------------------------------------------------------------

  datatype Event =
    | HeapAlloc(domain: Domain, request: nat, contents: seq<int>)
    | Account(slot: nat)
    | Unaccount(slot: nat)
    | HeapFree(slot: nat)
    | HeapRealloc(slot: nat, request: nat, tail: seq<int>)
    | Reaccount(slot: nat)
    | Rewrite(slot: nat)

  /**
   How many payload bytes survive a resize: within a heap what the heap's realloc
   keeps, across heaps what the copy bounded by the header's size moves.
   */
  function Kept(externalRam: bool, s: Slot, request: nat): (k: nat)
    ensures k <= request && k <= |s.data|
  {
    if s.pool == PoolFor(externalRam, s.domain, request) then Min(request, |s.data|)
    else Min(Min(request, s.size), |s.data|)
  }

  predicate Enabled(m: Memory, e: Event) {
    match e
    case HeapAlloc(_, request, contents) => |contents| == request
    case Account(i) => i < |m.slots| && m.slots[i].phase.Raw?
    case Unaccount(i) => i < |m.slots| && m.slots[i].phase.Live?
    case HeapFree(i) => i < |m.slots| && m.slots[i].phase.Refunded?
    case HeapRealloc(i, request, tail) =>
      && i < |m.slots| && m.slots[i].phase.Live?
      && |tail| == request - Kept(m.externalRam, m.slots[i], request)
    case Reaccount(i) => i < |m.slots| && m.slots[i].phase.Moved?
    case Rewrite(i) => i < |m.slots| && m.slots[i].phase.Recharged?
  }

  /** What a step does to the block it works on. */
  function NextSlot(externalRam: bool, s: Slot, e: Event): Slot
    requires !e.HeapAlloc?
    requires e.Account? ==> s.phase.Raw?
    requires e.Reaccount? ==> s.phase.Moved?
    requires e.Rewrite? ==> s.phase.Recharged?
  {
    match e
    case Account(_) =>
      var size := s.phase.request;
      s.(size := size, pool := PoolFor(externalRam, s.domain, size), phase := Live)
    case Unaccount(_) => s.(phase := Refunded)
    case HeapFree(_) => s.(phase := Gone)
    case HeapRealloc(_, request, tail) =>
      s.(heap := PoolFor(externalRam, s.domain, request),
         data := s.data[..Kept(externalRam, s, request)] + tail,
         phase := Moved(request))
    case Reaccount(_) => s.(phase := Recharged(s.phase.request))
    case Rewrite(_) =>
      var size := s.phase.request;
      s.(size := size, pool := PoolFor(externalRam, s.domain, size), phase := Live)
  }

  function Step(m: Memory, e: Event): Memory
    requires Enabled(m, e)
  {
    if e.HeapAlloc? then
      var heap := PoolFor(m.externalRam, e.domain, e.request);
      m.(slots := m.slots + [Slot(e.domain, heap, 0, Internal, e.contents, Raw(e.request))])
    else
      var s := m.slots[e.slot];
      var next := m.(slots := m.slots[e.slot := NextSlot(m.externalRam, s, e)]);
      match e
      case Account(_) => next.Put(s.domain, Charge(m.Of(s.domain), s.phase.request))
      case Unaccount(_) => next.Put(s.domain, Refund(m.Of(s.domain), s.size))
      case Reaccount(_) => next.Put(s.domain, Recharge(m.Of(s.domain), s.size, s.phase.request))
      // Resizing within a heap calls that heap's realloc; across heaps a new block is
      // filled and the old one freed.  Either way the heap the header names is called.
      case HeapFree(_) => next.(returned := m.returned + [(s.heap, s.pool)])
      case HeapRealloc(_, _, _) => next.(returned := m.returned + [(s.heap, s.pool)])
      case Rewrite(_) => next
  }

  // ----- The component as the source writes it -----------------------------------

  class TrackingAllocator {
    const externalRam: bool
    var slots: seq<Slot>
    var ros: Metrics
    var middleware: Metrics
    ghost var returned: seq<(Pool, Pool)>

    ghost function View(): Memory
      reads this
    {
      Memory(externalRam, slots, ros, middleware, returned)
    }

    constructor (externalRam: bool)
      ensures View() == Empty(externalRam)
    {
      this.externalRam := externalRam;
      slots := [];
      ros, middleware := Metrics(0, 0, 0, 0), Metrics(0, 0, 0, 0);
      returned := [];
    }

    method MetricsAdd(d: Domain, size: nat)
      modifies this`ros, this`middleware
      ensures View() == old(View()).Put(d, Charge(old(View()).Of(d), size))
    {
      var m := if d == Ros then ros else middleware;
      m := m.(calls := Wrap(m.calls + 1), live := Wrap(m.live + size));
      if m.live > m.high {
        m := m.(high := m.live);
      }
      if d == Ros { ros := m; } else { middleware := m; }
    }

    method MetricsReplace(d: Domain, oldSize: nat, size: nat)
      modifies this`ros, this`middleware
      ensures View() == old(View()).Put(d, Recharge(old(View()).Of(d), oldSize, size))
    {
      var m := if d == Ros then ros else middleware;
      m := m.(calls := Wrap(m.calls + 1), live := Wrap(m.live - oldSize));
      m := m.(live := Wrap(m.live + size));
      if m.live > m.high {
        m := m.(high := m.live);
      }
      if d == Ros { ros := m; } else { middleware := m; }
    }

    /**
     `injected` is the test-only failure, `available` whether the heap can serve the
     request, and `contents` what the fresh memory happens to hold.
     */
    method Allocate(size: nat, d: Domain, injected: bool, available: bool, contents: seq<int>)
      returns (pointer: Option<nat>)
      requires HEADER_BYTES + size < RANGE && |contents| == size
      modifies this
      ensures pointer == if injected || !available then None else Some(|old(slots)|)
      ensures pointer.None? ==> View() == old(View())
      ensures pointer.Some? ==> View() == Allocated(old(View()), d, size, contents)
      ensures pointer.Some? ==> |slots| == |old(slots)| + 1 && slots[pointer.value].size == size
      ensures pointer.Some? ==> RightHeap(externalRam, slots[pointer.value]) && slots[pointer.value].domain == d
    {
      if injected {
        return None;
      }
      var external := externalRam && size >= Threshold(d);
      if !available {
        return None;
      }
      var heap := if external then External else Internal;
      slots := slots + [Slot(d, heap, size, heap, contents, Live)];
      MetricsAdd(d, size);
      pointer := Some(|slots| - 1);
      AllocatedAtOnce(old(View()), d, size, contents);
    }

    method Deallocate(pointer: Option<nat>, d: Domain)
      requires pointer.Some? ==> Owned(View(), pointer.value, d)
      modifies this
      ensures pointer.None? ==> View() == old(View())
      ensures pointer.Some? ==> View() == Deallocated(old(View()), pointer.value)
    {
      if pointer.None? {
        return;
      }
      var i := pointer.value;
      var m := if d == Ros then ros else middleware;
      m := m.(frees := Wrap(m.frees + 1), live := Wrap(m.live - slots[i].size));
      if d == Ros { ros := m; } else { middleware := m; }
      returned := returned + [(slots[i].heap, slots[i].pool)];
      slots := slots[i := slots[i].(phase := Gone)];
      DeallocatedAtOnce(old(View()), i);
    }

    method Reallocate(pointer: Option<nat>, size: nat, d: Domain, injected: bool, available: bool, tail: seq<int>)
      returns (result: Option<nat>)
      requires HEADER_BYTES + size < RANGE
      requires pointer.Some? ==> Owned(View(), pointer.value, d)
      requires |tail| == if pointer.None? then size else size - Kept(externalRam, slots[pointer.value], size)
      modifies this
      ensures result == if injected || !available then None
                        else if pointer.None? then Some(|old(slots)|)
                        else pointer
      ensures result.None? ==> View() == old(View())
      ensures result.Some? && pointer.None? ==> View() == Allocated(old(View()), d, size, tail)
      ensures result.Some? && pointer.Some? ==> View() == Reallocated(old(View()), pointer.value, size, tail)
      ensures result.Some? ==> result.value < |slots| && slots[result.value].size == size
      ensures result.Some? ==> RightHeap(externalRam, slots[result.value]) && slots[result.value].domain == d
    {
      if pointer.None? {
        result := Allocate(size, d, injected, available, tail);
        return;
      }
      if injected {
        return None;
      }
      var i := pointer.value;
      var oldSize, oldPool := slots[i].size, slots[i].pool;
      var newPool := if externalRam && size >= Threshold(d) then External else Internal;
      if !available {
        return None;
      }
      var kept := slots[i].data;
      if oldPool == newPool {
        kept := kept[..Min(size, |kept|)];
        returned := returned + [(slots[i].heap, newPool)];
      } else {
        kept := kept[..Min(Min(size, oldSize), |kept|)];
        returned := returned + [(slots[i].heap, oldPool)];
      }
      slots := slots[i := slots[i].(heap := newPool, data := kept + tail)];
      MetricsReplace(d, oldSize, size);
      slots := slots[i := slots[i].(size := size, pool := newPool)];
      assert slots == old(slots)[i := Slot(d, newPool, size, newPool, kept + tail, Live)];
      result := pointer;
      ReallocatedAtOnce(old(View()), i, size, tail);
    }

    /** Overflow-checked, zero-filled allocation. */
    method ZeroAllocate(count: nat, size: nat, d: Domain, injected: bool, available: bool, contents: seq<int>)
      returns (pointer: Option<nat>)
      requires count * size < RANGE ==> HEADER_BYTES + count * size < RANGE && |contents| == count * size
      requires count < RANGE && size < RANGE
      modifies this
      ensures pointer.Some? <==> count * size < RANGE && !injected && available
      ensures pointer.None? ==> View() == old(View())
      ensures pointer.Some? ==>
        View() == Allocated(old(View()), d, count * size, seq(count * size, _ => 0))
    {
      OverflowTest(count, size);
      if size != 0 && count > (RANGE - 1) / size {
        return None;
      }
      var bytes := count * size;
      pointer := Allocate(bytes, d, injected, available, contents);
      if pointer.Some? {
        var i := pointer.value;
        slots := slots[i := slots[i].(data := seq(bytes, _ => 0))];
        assert slots == Allocated(old(View()), d, bytes, seq(bytes, _ => 0)).slots;
      }
    }
  }

  /** The division test rejects exactly the products that do not fit. */
  lemma OverflowTest(count: nat, size: nat)
    ensures size != 0 && count > (RANGE - 1) / size <==> count * size >= RANGE
  {
    if size != 0 {
      var q := (RANGE - 1) / size;
      assert q * size <= RANGE - 1 < (q + 1) * size;
      if count > q {
        assert count * size >= (q + 1) * size;
      } else {
        assert count * size <= q * size;
      }
    }
  }

  /** The pointer is a live block of the domain it is handed back to. */
  predicate Owned(m: Memory, i: nat, d: Domain) {
    i < |m.slots| && m.slots[i].phase.Live? && m.slots[i].domain == d
  }

  // ----- Calls as step sequences -------------------------------------------------

  function Allocated(m: Memory, d: Domain, size: nat, contents: seq<int>): Memory
    requires |contents| == size
  {
    Step(Step(m, HeapAlloc(d, size, contents)), Account(|m.slots|))
  }

  function Deallocated(m: Memory, i: nat): Memory
    requires Enabled(m, Unaccount(i))
  {
    Step(Step(m, Unaccount(i)), HeapFree(i))
  }

  function Reallocated(m: Memory, i: nat, size: nat, tail: seq<int>): Memory
    requires Enabled(m, HeapRealloc(i, size, tail))
  {
    Step(Step(Step(m, HeapRealloc(i, size, tail)), Reaccount(i)), Rewrite(i))
  }

  lemma AllocatedAtOnce(m: Memory, d: Domain, size: nat, contents: seq<int>)
    requires |contents| == size
    ensures var heap := PoolFor(m.externalRam, d, size);
      Allocated(m, d, size, contents) ==
        m.(slots := m.slots + [Slot(d, heap, size, heap, contents, Live)])
          .Put(d, Charge(m.Of(d), size))
  {
    var heap := PoolFor(m.externalRam, d, size);
    var raw := Slot(d, heap, 0, Internal, contents, Raw(size));
    var live := Slot(d, heap, size, heap, contents, Live);
    assert (m.slots + [raw])[|m.slots| := live] == m.slots + [live];
  }

  lemma DeallocatedAtOnce(m: Memory, i: nat)
    requires Enabled(m, Unaccount(i))
    ensures var s := m.slots[i];
      Deallocated(m, i) ==
        m.(slots := m.slots[i := s.(phase := Gone)], returned := m.returned + [(s.heap, s.pool)])
          .Put(s.domain, Refund(m.Of(s.domain), s.size))
  {
    var s := m.slots[i];
    assert m.slots[i := s.(phase := Refunded)][i := s.(phase := Gone)] == m.slots[i := s.(phase := Gone)];
  }

  lemma ReallocatedAtOnce(m: Memory, i: nat, size: nat, tail: seq<int>)
    requires Enabled(m, HeapRealloc(i, size, tail))
    ensures var s := m.slots[i];
      var heap := PoolFor(m.externalRam, s.domain, size);
      var data := s.data[..Kept(m.externalRam, s, size)] + tail;
      Reallocated(m, i, size, tail) ==
        m.(slots := m.slots[i := Slot(s.domain, heap, size, heap, data, Live)],
           returned := m.returned + [(s.heap, s.pool)])
          .Put(s.domain, Recharge(m.Of(s.domain), s.size, size))
  {
    var s := m.slots[i];
    var heap := PoolFor(m.externalRam, s.domain, size);
    var data := s.data[..Kept(m.externalRam, s, size)] + tail;
    var moved := s.(heap := heap, data := data, phase := Moved(size));
    var recharged := moved.(phase := Recharged(size));
    var live := Slot(s.domain, heap, size, heap, data, Live);
    assert m.slots[i := moved][i := recharged][i := live] == m.slots[i := live];
  }
}
