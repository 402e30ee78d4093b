/**
 The condition-variable timeout protocol shared by Zephyr's `k_condvar_wait` and
 Cyclone's `ddsrt_cond_waituntil_impl`.

 Any number of threads use one mutex and one condition variable.  Every access the
 kernel makes atomically is one step, and a run is any sequence of enabled steps.
 Two switches are modelled: whether the kernel carries the timeout fix, and whether
 the library was compiled with its relock workaround.

 POSIX.1-2017, System Interfaces, `pthread_cond_timedwait`: upon return the mutex is
 locked and owned by the calling thread, whether the wait was signalled or timed out.
 */
module Condvar {
  import opened Common

  type Tid = nat

  datatype Config = Config(fixedKernel: bool, relockWorkaround: bool)

  /** Zephyr's mutex: recursive, with a hold count. */
  datatype Mutex = Mutex(owner: Option<Tid>, holds: nat)

  predicate CanLock(m: Mutex, t: Tid) {
    m.owner == None || m.owner == Some(t)
  }

  function Lock(m: Mutex, t: Tid): Mutex {
    Mutex(Some(t), m.holds + 1)
  }

  /** Unlocking a mutex one does not own has no effect. */
  function Unlock(m: Mutex, t: Tid): Mutex {
    if m.owner != Some(t) then m
    else if m.holds > 1 then Mutex(Some(t), m.holds - 1)
    else Mutex(None, 0)
  }

  datatype Place =
    | Outside        // not in the critical section
    | Inside         // in the critical section
    | Releasing      // in the kernel wait, condvar lock taken, mutex still held
    | Parking        // condvar lock held, mutex released, not queued yet
    | Waiting        // queued
    | Signalled      // woken by a signal, about to lock the mutex
    | TimedOut       // woken by the timeout, still in the kernel
    | KernelTimeout  // the kernel has returned a timeout to the library
    | Returned(timedOut: bool) // the library's wait has returned to its caller

  datatype State = State(
    mutex: Mutex,
    condLock: Option<Tid>,
    queue: seq<Tid>,
    places: seq<Place>)

  datatype Event =
    | Enter(t: Tid)
    | Leave(t: Tid)
    | Wait(t: Tid)
    | WaitZero(t: Tid)
    | ReleaseMutex(t: Tid)
    | Park(t: Tid)
    | Signal(t: Tid)
    | Broadcast(t: Tid)
    | Expire(t: Tid)
    | KernelRelock(t: Tid)
    | KernelReturn(t: Tid)
    | LibraryRelock(t: Tid)
    | LibraryReturn(t: Tid)
    | Resume(t: Tid)

  function Init(n: nat): State {
    State(Mutex(None, 0), None, [], seq(n, _ => Outside))
  }

  predicate At(s: State, t: Tid, place: Place) {
    t < |s.places| && s.places[t] == place
  }

  predicate Enabled(cfg: Config, s: State, e: Event) {
    match e
    case Enter(t) => At(s, t, Outside) && CanLock(s.mutex, t)
    case Leave(t) => At(s, t, Inside)
    case Wait(t) => At(s, t, Inside) && s.condLock == None
    case WaitZero(t) => At(s, t, Inside)
    case ReleaseMutex(t) => At(s, t, Releasing)
    case Park(t) => At(s, t, Parking)
    case Signal(t) => (At(s, t, Inside) || At(s, t, Outside)) && s.condLock == None
    case Broadcast(t) => (At(s, t, Inside) || At(s, t, Outside)) && s.condLock == None
    case Expire(t) => At(s, t, Waiting)
    case KernelRelock(t) =>
      (At(s, t, Signalled) || (At(s, t, TimedOut) && cfg.fixedKernel)) && CanLock(s.mutex, t)
    case KernelReturn(t) => At(s, t, TimedOut) && !cfg.fixedKernel
    case LibraryRelock(t) => At(s, t, KernelTimeout) && cfg.relockWorkaround && CanLock(s.mutex, t)
    case LibraryReturn(t) => At(s, t, KernelTimeout) && !cfg.relockWorkaround
    case Resume(t) => t < |s.places| && s.places[t].Returned?
  }

  function Move(s: State, t: Tid, place: Place): State
    requires t < |s.places|
  {
    s.(places := s.places[t := place])
  }

  /** The queue without one thread. */
  function Without(queue: seq<Tid>, t: Tid): (r: seq<Tid>)
    ensures forall u :: u in r <==> u in queue && u != t
    ensures Distinct(queue) ==> Distinct(r)
  {
    if queue == [] then []
    else
      var rest := Without(queue[1..], t);
      assert queue == [queue[0]] + queue[1..];
      assert Distinct(queue) ==> queue[0] !in rest;
      if queue[0] == t then rest else [queue[0]] + rest
  }

  lemma Dequeue(queue: seq<Tid>)
    requires queue != [] && Distinct(queue)
    ensures forall u :: u in queue[1..] <==> u in queue && u != queue[0]
    ensures Distinct(queue[1..])
  {
    assert queue == [queue[0]] + queue[1..];
  }

  predicate Distinct(queue: seq<Tid>) {
    forall i, j :: 0 <= i < j < |queue| ==> queue[i] != queue[j]
  }

  /** Every queued thread becomes signalled. */
  function WakeAll(s: State): State {
    s.(queue := [],
       places := seq(|s.places|, t requires 0 <= t < |s.places| =>
         if t in s.queue then Signalled else s.places[t]))
  }

  function Step(cfg: Config, s: State, e: Event): State
    requires Enabled(cfg, s, e)
  {
    match e
    case Enter(t) => Move(s, t, Inside).(mutex := Lock(s.mutex, t))
    case Leave(t) => Move(s, t, Outside).(mutex := Unlock(s.mutex, t))
    case Wait(t) => Move(s, t, Releasing).(condLock := Some(t))
    // A zero timeout returns at once; only the old kernel unlocks on the way.
    case WaitZero(t) =>
      Move(s, t, KernelTimeout).(mutex := if cfg.fixedKernel then s.mutex else Unlock(s.mutex, t))
    case ReleaseMutex(t) => Move(s, t, Parking).(mutex := Unlock(s.mutex, t))
    case Park(t) => Move(s, t, Waiting).(condLock := None, queue := s.queue + [t])
    case Signal(t) =>
      if s.queue == [] || s.queue[0] >= |s.places| then s
      else Move(s, s.queue[0], Signalled).(queue := s.queue[1..])
    case Broadcast(t) => WakeAll(s)
    case Expire(t) => Move(s, t, TimedOut).(queue := Without(s.queue, t))
    case KernelRelock(t) =>
      Move(s, t, if s.places[t] == Signalled then Returned(false) else KernelTimeout).(mutex := Lock(s.mutex, t))
    case KernelReturn(t) => Move(s, t, KernelTimeout)
    case LibraryRelock(t) => Move(s, t, Returned(true)).(mutex := Lock(s.mutex, t))
    case LibraryReturn(t) => Move(s, t, Returned(true))
    case Resume(t) => Move(s, t, Inside)
  }

  // ----- Whole runs --------------------------------------------------------------

  /** The state a run reaches, or nothing if one of its steps was not enabled. */
  function After(cfg: Config, n: nat, events: seq<Event>): Option<State> {
    if events == [] then Some(Init(n))
    else
      var before, e := After(cfg, n, events[..|events| - 1]), events[|events| - 1];
      if before.Some? && Enabled(cfg, before.value, e) then Some(Step(cfg, before.value, e)) else None
  }

  /** A thread whose wait has returned, or that is in its critical section, owns the mutex once. */
  predicate HoldsOnReturn(s: State) {
    forall t :: 0 <= t < |s.places| && (s.places[t].Returned? || s.places[t] == Inside) ==>
      s.mutex == Mutex(Some(t), 1)
  }

  /** Event `i` ended a wait of `t` by its timeout. */
  predicate TimedOutAt(events: seq<Event>, i: nat, t: Tid) {
    i < |events| && (events[i] == Expire(t) || events[i] == WaitZero(t))
  }

  /** Event `i` was a signal or broadcast that took `t` off the queue. */
  predicate WokenAt(cfg: Config, n: nat, events: seq<Event>, i: nat, t: Tid) {
    && i < |events| && (events[i].Signal? || events[i].Broadcast?)
    && var before, after := After(cfg, n, events[..i]), After(cfg, n, events[..i + 1]);
       before.Some? && after.Some? && t in before.value.queue && t !in after.value.queue
  }

  /** Event `i` ended the last wait of `t`: nothing since has begun or ended one. */
  ghost predicate EndedLastAt(cfg: Config, n: nat, events: seq<Event>, i: nat, t: Tid) {
    && (TimedOutAt(events, i, t) || WokenAt(cfg, n, events, i, t))
    && forall j: nat :: i < j < |events| ==>
         events[j] != Wait(t) && !TimedOutAt(events, j, t) && !WokenAt(cfg, n, events, j, t)
  }

  /** Event `i` ended the last wait of `t`, and the report is right about how. */
  ghost predicate Explains(cfg: Config, n: nat, events: seq<Event>, i: nat, t: Tid, timedOut: bool) {
    && EndedLastAt(cfg, n, events, i, t)
    && (timedOut <==> TimedOutAt(events, i, t)) && (!timedOut <==> WokenAt(cfg, n, events, i, t))
  }

  /** Every wait that has returned reports a timeout exactly if that is what ended it. */
  ghost predicate ResultsTrue(cfg: Config, n: nat, events: seq<Event>)
    requires After(cfg, n, events).Some?
  {
    forall t, timedOut :: At(After(cfg, n, events).value, t, Returned(timedOut)) ==>
      exists i: nat :: Explains(cfg, n, events, i, t, timedOut)
  }

  /** The promise of POSIX, over every number of threads and every interleaving. */
  ghost predicate Correct(cfg: Config) {
    forall n: nat, events: seq<Event> :: After(cfg, n, events).Some? ==>
      HoldsOnReturn(After(cfg, n, events).value) && ResultsTrue(cfg, n, events)
  }

  // ----- The invariant -----------------------------------------------------------

  predicate Owns(cfg: Config, place: Place) {
    || place == Inside || place == Releasing || place.Returned?
    || (place == KernelTimeout && cfg.fixedKernel)
  }

  ghost predicate MutexAgrees(cfg: Config, s: State) {
    && (forall t :: 0 <= t < |s.places| ==> (Owns(cfg, s.places[t]) <==> s.mutex.owner == Some(t)))
    && (s.mutex.owner == None ==> s.mutex.holds == 0)
    && (s.mutex.owner != None ==> s.mutex.holds == 1 && s.mutex.owner.value < |s.places|)
  }

  ghost predicate CondLockAgrees(s: State) {
    && (forall t :: 0 <= t < |s.places| ==>
          (s.places[t] == Releasing || s.places[t] == Parking <==> s.condLock == Some(t)))
    && (s.condLock != None ==> s.condLock.value < |s.places|)
  }

  ghost predicate QueueAgrees(s: State) {
    && Distinct(s.queue)
    && (forall t :: t in s.queue ==> t < |s.places|)
    && (forall t :: 0 <= t < |s.places| ==> (s.places[t] == Waiting <==> t in s.queue))
  }

  /** What the kernel keeps in every configuration. */
  ghost predicate KernelAgrees(s: State) {
    CondLockAgrees(s) && QueueAgrees(s)
  }

  /** Exactly one of fix and workaround is in place. */
  predicate Exclusive(cfg: Config) {
    cfg.fixedKernel != cfg.relockWorkaround
  }

  lemma StepKeepsMutex(cfg: Config, s: State, e: Event)
    requires Exclusive(cfg) && MutexAgrees(cfg, s) && QueueAgrees(s) && Enabled(cfg, s, e)
    ensures MutexAgrees(cfg, Step(cfg, s, e))
  {
  }

  lemma StepKeepsCondLock(cfg: Config, s: State, e: Event)
    requires KernelAgrees(s) && Enabled(cfg, s, e)
    ensures CondLockAgrees(Step(cfg, s, e))
  {
  }

  lemma WakingKeepsQueue(cfg: Config, s: State, e: Event)
    requires QueueAgrees(s) && Enabled(cfg, s, e) && (e.Signal? || e.Broadcast?)
    ensures QueueAgrees(Step(cfg, s, e))
  {
    if e.Signal? && s.queue != [] {
      Dequeue(s.queue);
    }
  }

  lemma StepKeepsQueue(cfg: Config, s: State, e: Event)
    requires QueueAgrees(s) && Enabled(cfg, s, e)
    ensures QueueAgrees(Step(cfg, s, e))
  {
    if e.Signal? || e.Broadcast? {
      WakingKeepsQueue(cfg, s, e);
    }
  }

  /** In every interleaving, and every configuration, lock and queue follow the threads' places. */
  lemma {:induction false} KernelAfter(cfg: Config, n: nat, events: seq<Event>)
    requires After(cfg, n, events).Some?
    ensures KernelAgrees(After(cfg, n, events).value)
  {
    if events != [] {
      var earlier, e := events[..|events| - 1], events[|events| - 1];
      KernelAfter(cfg, n, earlier);
      var s := After(cfg, n, earlier).value;
      StepKeepsCondLock(cfg, s, e);
      StepKeepsQueue(cfg, s, e);
    }
  }

  /** In every interleaving, with exactly one of fix and workaround, so does the mutex. */
  lemma {:induction false} MutexAfter(cfg: Config, n: nat, events: seq<Event>)
    requires Exclusive(cfg) && After(cfg, n, events).Some?
    ensures MutexAgrees(cfg, After(cfg, n, events).value)
  {
    if events != [] {
      var earlier, e := events[..|events| - 1], events[|events| - 1];
      MutexAfter(cfg, n, earlier);
      KernelAfter(cfg, n, earlier);
      StepKeepsMutex(cfg, After(cfg, n, earlier).value, e);
    }
  }

  /** A wakeup is possible for every thread not in a wait, exactly while no wait is between its lock and its queueing. */
  lemma WakeupPossibleExactly(cfg: Config, n: nat, events: seq<Event>, t: Tid, e: Event)
    requires After(cfg, n, events).Some? && (e == Signal(t) || e == Broadcast(t))
    ensures var s := After(cfg, n, events).value;
      Enabled(cfg, s, e) <==>
        && t < |s.places| && (s.places[t] == Inside || s.places[t] == Outside)
        && forall u :: 0 <= u < |s.places| ==> s.places[u] != Releasing && s.places[u] != Parking
  {
    KernelAfter(cfg, n, events);
    var s := After(cfg, n, events).value;
    if s.condLock != None {
      var u := s.condLock.value;
      assert s.places[u] == Releasing || s.places[u] == Parking;
    }
  }

  ghost predicate Woken(s: State, next: State, t: Tid) {
    At(s, t, Waiting) && At(next, t, Signalled)
  }

  /**
   When a signal is possible, every thread that has released the mutex in order to
   wait is queued, so no wakeup sent after the release is lost: a broadcast wakes
   every waiter, and a signal wakes one if there is any, and only one.
   */
  lemma NoWakeupLost(cfg: Config, n: nat, events: seq<Event>, t: Tid)
    requires After(cfg, n, events).Some?
    requires Enabled(cfg, After(cfg, n, events).value, Signal(t))
    ensures var s := After(cfg, n, events).value;
      && (forall u :: 0 <= u < |s.places| ==> s.places[u] != Parking)
      && (forall u :: At(s, u, Waiting) ==> Woken(s, Step(cfg, s, Broadcast(t)), u))
      && (forall u :: At(s, u, Waiting) ==> exists w :: Woken(s, Step(cfg, s, Signal(t)), w))
      && (forall u, w :: Woken(s, Step(cfg, s, Signal(t)), u) && Woken(s, Step(cfg, s, Signal(t)), w) ==> u == w)
  {
    KernelAfter(cfg, n, events);
    var s := After(cfg, n, events).value;
    forall u | At(s, u, Waiting)
      ensures exists w :: Woken(s, Step(cfg, s, Signal(t)), w)
    {
      assert u in s.queue;
      assert s.queue[0] in s.queue;
      assert Woken(s, Step(cfg, s, Signal(t)), s.queue[0]);
    }
  }
}
