/**
 What timed-out waits return with, in each combination of kernel fix and library workaround:
 the two wrong combinations, the two right ones, and the build's choice between them.
 */
module CondvarRuns {
  import opened Common
  import opened Condvar

  // ----- The two wrong combinations ----------------------------------------------

  lemma StepTaken(cfg: Config, n: nat, events: seq<Event>, s: State, e: Event)
    requires After(cfg, n, events) == Some(s) && Enabled(cfg, s, e)
    ensures After(cfg, n, events + [e]) == Some(Step(cfg, s, e))
  {
    assert (events + [e])[..|events|] == events;
  }

  /** Two states of a lone thread that agree in every part are the same. */
  predicate SameAlone(s: State, next: State) {
    && s.mutex == next.mutex && s.condLock == next.condLock && s.queue == next.queue
    && |s.places| == |next.places| == 1 && s.places[0] == next.places[0]
  }

  lemma AloneEqual(s: State, next: State)
    requires SameAlone(s, next)
    ensures s == next
  {
    assert s.places == next.places;
  }

  /** A single thread takes one more step. */
  lemma Extend(cfg: Config, events: seq<Event>, s: State, e: Event, next: State)
    requires After(cfg, 1, events) == Some(s) && Enabled(cfg, s, e)
    requires SameAlone(Step(cfg, s, e), next)
    ensures After(cfg, 1, events + [e]) == Some(next)
  {
    StepTaken(cfg, 1, events, s, e);
    AloneEqual(Step(cfg, s, e), next);
  }

  function Alone(held: nat, place: Place): State {
    State(if held == 0 then Mutex(None, 0) else Mutex(Some(0), held), None, [], [place])
  }

  /** How often the mutex is held when a timed-out wait returns to a lone caller. */
  function HeldOnTimeout(cfg: Config): nat {
    (if cfg.fixedKernel then 1 else 0) + if cfg.relockWorkaround then 1 else 0
  }

  /** How the library returns a timeout. */
  function LibraryStep(cfg: Config): Event {
    if cfg.relockWorkaround then LibraryRelock(0) else LibraryReturn(0)
  }

  /** How often it is held when the kernel returns the timeout to the library. */
  function HeldByKernel(cfg: Config): nat {
    if cfg.fixedKernel then 1 else 0
  }

  lemma LibraryReturns(cfg: Config, events: seq<Event>)
    requires After(cfg, 1, events) == Some(Alone(HeldByKernel(cfg), KernelTimeout))
    ensures After(cfg, 1, events + [LibraryStep(cfg)]) == Some(Alone(HeldOnTimeout(cfg), Returned(true)))
  {
    Extend(cfg, events, Alone(HeldByKernel(cfg), KernelTimeout), LibraryStep(cfg),
           Alone(HeldOnTimeout(cfg), Returned(true)));
  }

  lemma EntersAlone(cfg: Config)
    ensures After(cfg, 1, [Enter(0)]) == Some(Alone(1, Inside))
  {
    Extend(cfg, [], Init(1), Enter(0), Alone(1, Inside));
    assert [] + [Enter(0)] == [Enter(0)];
  }

  /** A zero timeout: free on return with neither in place, held twice with both. */
  lemma ZeroTimeoutAfter(cfg: Config) returns (run: seq<Event>)
    ensures After(cfg, 1, run) == Some(Alone(HeldOnTimeout(cfg), Returned(true)))
    ensures forall e :: e in run ==> !e.Expire?
  {
    EntersAlone(cfg);
    Extend(cfg, [Enter(0)], Alone(1, Inside), WaitZero(0), Alone(HeldByKernel(cfg), KernelTimeout));
    run := [Enter(0)] + [WaitZero(0)];
    LibraryReturns(cfg, run);
    run := run + [LibraryStep(cfg)];
  }

  lemma ParksAlone(cfg: Config) returns (run: seq<Event>)
    ensures After(cfg, 1, run) == Some(State(Mutex(None, 0), None, [0], [Waiting]))
    ensures forall e :: e in run ==> !e.WaitZero?
  {
    EntersAlone(cfg);
    run := [Enter(0)];
    var releasing := Alone(1, Releasing).(condLock := Some(0));
    Extend(cfg, run, Alone(1, Inside), Wait(0), releasing);
    run := run + [Wait(0)];
    var parking := Alone(0, Parking).(condLock := Some(0));
    Extend(cfg, run, releasing, ReleaseMutex(0), parking);
    run := run + [ReleaseMutex(0)];
    Extend(cfg, run, parking, Park(0), State(Mutex(None, 0), None, [0], [Waiting]));
    run := run + [Park(0)];
  }

  /** An ordinary timeout ends the same way. */
  lemma TimeoutAfter(cfg: Config) returns (run: seq<Event>)
    ensures After(cfg, 1, run) == Some(Alone(HeldOnTimeout(cfg), Returned(true)))
    ensures forall e :: e in run ==> !e.WaitZero?
  {
    run := ParksAlone(cfg);
    Extend(cfg, run, State(Mutex(None, 0), None, [0], [Waiting]), Expire(0), Alone(0, TimedOut));
    run := run + [Expire(0)];
    var e := if cfg.fixedKernel then KernelRelock(0) else KernelReturn(0);
    Extend(cfg, run, Alone(0, TimedOut), e, Alone(HeldByKernel(cfg), KernelTimeout));
    run := run + [e];
    LibraryReturns(cfg, run);
    run := run + [LibraryStep(cfg)];
  }

  const BOTH := Config(true, true)

  /** How often the library has locked the mutex for `t` after a timeout. */
  function Relocks(events: seq<Event>, t: Tid): nat {
    if events == [] then 0
    else Relocks(events[..|events| - 1], t) + if events[|events| - 1] == LibraryRelock(t) then 1 else 0
  }

  lemma RelocksNext(events: seq<Event>, e: Event, t: Tid)
    ensures Relocks(events + [e], t) == Relocks(events, t) + if e == LibraryRelock(t) then 1 else 0
  {
    assert (events + [e])[..|events|] == events;
  }

  /** How often `t` holds the mutex when every relock after a timeout was one too many. */
  function HoldsDue(place: Place, relocks: nat): nat {
    relocks + if Owns(BOTH, place) then 1 else 0
  }

  /** The mutex belongs to the one thread that any holds are due to, and is held exactly that often. */
  ghost predicate HoldsCounted(s: State, relocks: seq<nat>) {
    && |relocks| == |s.places|
    && (forall t :: 0 <= t < |s.places| ==> (s.mutex.owner == Some(t) <==> HoldsDue(s.places[t], relocks[t]) > 0))
    && (forall t :: 0 <= t < |s.places| && s.mutex.owner == Some(t) ==> s.mutex.holds == HoldsDue(s.places[t], relocks[t]))
    && (s.mutex.owner == None ==> s.mutex.holds == 0)
    && (forall t :: 0 <= t < |s.places| && s.places[t] == Returned(true) ==> relocks[t] > 0)
  }

  lemma LockCountsHolds(s: State, e: Event, relocks: seq<nat>)
    requires HoldsCounted(s, relocks) && Enabled(BOTH, s, e) && (e.Enter? || e.KernelRelock?)
    ensures HoldsCounted(Step(BOTH, s, e), relocks)
  {
  }

  lemma UnlockCountsHolds(s: State, e: Event, relocks: seq<nat>)
    requires HoldsCounted(s, relocks) && Enabled(BOTH, s, e) && (e.Leave? || e.ReleaseMutex?)
    ensures HoldsCounted(Step(BOTH, s, e), relocks)
  {
  }

  /** The other steps leave the mutex alone, and move no thread between places that own it and others. */
  lemma OthersLeaveMutex(s: State, e: Event)
    requires QueueAgrees(s) && Enabled(BOTH, s, e)
    requires !(e.Enter? || e.KernelRelock? || e.Leave? || e.ReleaseMutex? || e.LibraryRelock?)
    ensures var next := Step(BOTH, s, e);
      && next.mutex == s.mutex && |next.places| == |s.places|
      && forall t :: 0 <= t < |s.places| ==>
           && Owns(BOTH, next.places[t]) == Owns(BOTH, s.places[t])
           && (next.places[t] == Returned(true) ==> s.places[t] == Returned(true))
  {
  }

  lemma StepCountsHolds(s: State, e: Event, relocks: seq<nat>)
    requires QueueAgrees(s) && HoldsCounted(s, relocks) && Enabled(BOTH, s, e) && !e.LibraryRelock?
    ensures HoldsCounted(Step(BOTH, s, e), relocks)
  {
    if e.Enter? || e.KernelRelock? {
      LockCountsHolds(s, e, relocks);
    } else if e.Leave? || e.ReleaseMutex? {
      UnlockCountsHolds(s, e, relocks);
    } else {
      OthersLeaveMutex(s, e);
    }
  }

  lemma RelockCountsHolds(s: State, t: Tid, relocks: seq<nat>)
    requires HoldsCounted(s, relocks) && Enabled(BOTH, s, LibraryRelock(t))
    ensures HoldsCounted(Step(BOTH, s, LibraryRelock(t)), relocks[t := relocks[t] + 1])
  {
  }

  function AllRelocks(events: seq<Event>, n: nat): seq<nat> {
    seq(n, t requires 0 <= t < n => Relocks(events, t))
  }

  lemma AllRelocksNext(events: seq<Event>, e: Event, n: nat)
    requires e.LibraryRelock? ==> e.t < n
    ensures var relocks := AllRelocks(events, n);
      AllRelocks(events + [e], n) == if e.LibraryRelock? then relocks[e.t := relocks[e.t] + 1] else relocks
  {
    forall t | 0 <= t < n
      ensures Relocks(events + [e], t) == Relocks(events, t) + if e == LibraryRelock(t) then 1 else 0
    {
      RelocksNext(events, e, t);
    }
  }

  /** The last step of a run, and the states it leads between. */
  lemma LastStep(cfg: Config, n: nat, events: seq<Event>, e: Event) returns (before: State, after: State)
    requires After(cfg, n, events + [e]).Some?
    ensures After(cfg, n, events) == Some(before) && Enabled(cfg, before, e)
    ensures After(cfg, n, events + [e]) == Some(after) && after == Step(cfg, before, e)
  {
    assert (events + [e])[..|events|] == events;
    before, after := After(cfg, n, events).value, After(cfg, n, events + [e]).value;
  }

  lemma HoldsNext(n: nat, events: seq<Event>, e: Event, s: State)
    requires QueueAgrees(s) && Enabled(BOTH, s, e) && |s.places| == n && HoldsCounted(s, AllRelocks(events, n))
    ensures HoldsCounted(Step(BOTH, s, e), AllRelocks(events + [e], n))
  {
    AllRelocksNext(events, e, n);
    if e.LibraryRelock? {
      RelockCountsHolds(s, e.t, AllRelocks(events, n));
    } else {
      StepCountsHolds(s, e, AllRelocks(events, n));
    }
  }

  /**
   With both in place, in every run, each timed-out wait leaves its caller one hold too many:
   the mutex is held once for every such wait and once more where it is due.
   */
  lemma {:induction false} HoldsAfter(n: nat, events: seq<Event>)
    requires After(BOTH, n, events).Some?
    ensures |After(BOTH, n, events).value.places| == n
    ensures HoldsCounted(After(BOTH, n, events).value, AllRelocks(events, n))
  {
    if events != [] {
      var earlier, e := events[..|events| - 1], events[|events| - 1];
      assert events == earlier + [e];
      var before, after := LastStep(BOTH, n, earlier, e);
      HoldsAfter(n, earlier);
      KernelAfter(BOTH, n, earlier);
      HoldsNext(n, earlier, e, before);
    }
  }

  lemma {:induction false} RelocksStay(events: seq<Event>, later: seq<Event>, t: Tid)
    ensures Relocks(events + later, t) >= Relocks(events, t)
  {
    if later == [] {
      assert events + later == events;
    } else {
      var earlier, e := later[..|later| - 1], later[|later| - 1];
      assert events + later == events + earlier + [e];
      RelocksNext(events + earlier, e, t);
      RelocksStay(events, earlier, t);
    }
  }

  /**
   With both in place, once a timed-out wait has returned its caller owns the mutex in
   every continuation of the run, even after leaving its critical section.
   */
  lemma DoubleRelockNeverFrees(n: nat, events: seq<Event>, later: seq<Event>, t: Tid)
    requires After(BOTH, n, events).Some? && At(After(BOTH, n, events).value, t, Returned(true))
    requires After(BOTH, n, events + later).Some?
    ensures After(BOTH, n, events + later).value.mutex.owner == Some(t)
    ensures After(BOTH, n, events + later).value.mutex.holds >= Relocks(events, t) > 0
  {
    HoldsAfter(n, events);
    HoldsAfter(n, events + later);
    RelocksStay(events, later, t);
  }

  // ----- What a wait reports -----------------------------------------------------

  predicate WokenPlace(place: Place) {
    place == Signalled || place == Returned(false)
  }

  predicate TimedOutPlace(place: Place) {
    place == TimedOut || place == KernelTimeout || place == Returned(true)
  }

  /** What ended a wait, as the place of its thread remembers it. */
  ghost predicate Remembers(cfg: Config, n: nat, events: seq<Event>, t: Tid, place: Place) {
    && (WokenPlace(place) ==> exists i: nat :: EndedLastAt(cfg, n, events, i, t) && WokenAt(cfg, n, events, i, t))
    && (TimedOutPlace(place) ==> exists i: nat :: EndedLastAt(cfg, n, events, i, t) && TimedOutAt(events, i, t))
  }

  /** What is known of an event stays known. */
  lemma KnownLater(cfg: Config, n: nat, events: seq<Event>, e: Event, i: nat, t: Tid)
    requires i < |events|
    ensures TimedOutAt(events + [e], i, t) <==> TimedOutAt(events, i, t)
    ensures WokenAt(cfg, n, events + [e], i, t) <==> WokenAt(cfg, n, events, i, t)
  {
    assert (events + [e])[..i] == events[..i];
    assert (events + [e])[..i + 1] == events[..i + 1];
  }

  lemma EndedLater(cfg: Config, n: nat, events: seq<Event>, e: Event, i: nat, t: Tid)
    requires EndedLastAt(cfg, n, events, i, t) && e != Wait(t)
    requires !TimedOutAt(events + [e], |events|, t) && !WokenAt(cfg, n, events + [e], |events|, t)
    ensures EndedLastAt(cfg, n, events + [e], i, t)
  {
    forall j: nat | i <= j < |events|
      ensures TimedOutAt(events + [e], j, t) <==> TimedOutAt(events, j, t)
      ensures WokenAt(cfg, n, events + [e], j, t) <==> WokenAt(cfg, n, events, j, t)
    {
      KnownLater(cfg, n, events, e, j, t);
    }
  }

  /** The last event of a run ended a wait. */
  lemma EndedNow(cfg: Config, n: nat, events: seq<Event>, e: Event, t: Tid)
    requires TimedOutAt(events + [e], |events|, t) || WokenAt(cfg, n, events + [e], |events|, t)
    ensures EndedLastAt(cfg, n, events + [e], |events|, t)
  {
  }

  /** How a step changes what the place of a thread remembers. */
  lemma StepEnds(cfg: Config, s: State, e: Event, t: Tid)
    requires KernelAgrees(s) && Enabled(cfg, s, e) && t < |s.places|
    ensures var now := Step(cfg, s, e).places[t];
      var woken := (e.Signal? || e.Broadcast?) && t in s.queue && t !in Step(cfg, s, e).queue;
      && (WokenPlace(now) ==> woken || (WokenPlace(s.places[t]) && e != Expire(t) && e != WaitZero(t) && e != Wait(t)))
      && (TimedOutPlace(now) ==>
            e == Expire(t) || e == WaitZero(t) || (TimedOutPlace(s.places[t]) && !woken && e != Wait(t)))
      && (woken ==> s.places[t] == Waiting)
  {
    if s.queue != [] {
      Dequeue(s.queue);
    }
  }

  lemma RemembersNext(cfg: Config, n: nat, events: seq<Event>, e: Event, t: Tid, s: State, next: State)
    requires After(cfg, n, events) == Some(s) && Enabled(cfg, s, e) && t < |s.places| && KernelAgrees(s)
    requires next == Step(cfg, s, e) && After(cfg, n, events + [e]) == Some(next)
    requires Remembers(cfg, n, events, t, s.places[t])
    ensures Remembers(cfg, n, events + [e], t, next.places[t])
  {
    var m := |events|;
    assert (events + [e])[..m] == events && (events + [e])[..m + 1] == events + [e];
    StepEnds(cfg, s, e, t);
    if TimedOutAt(events + [e], m, t) || WokenAt(cfg, n, events + [e], m, t) {
      EndedNow(cfg, n, events, e, t);
    } else if WokenPlace(next.places[t]) {
      var i: nat :| EndedLastAt(cfg, n, events, i, t) && WokenAt(cfg, n, events, i, t);
      EndedLater(cfg, n, events, e, i, t);
      KnownLater(cfg, n, events, e, i, t);
    } else if TimedOutPlace(next.places[t]) {
      var i: nat :| EndedLastAt(cfg, n, events, i, t) && TimedOutAt(events, i, t);
      EndedLater(cfg, n, events, e, i, t);
      KnownLater(cfg, n, events, e, i, t);
    }
  }

  lemma {:induction false} RemembersAlways(cfg: Config, n: nat, events: seq<Event>, t: Tid)
    requires After(cfg, n, events).Some? && t < |After(cfg, n, events).value.places|
    ensures Remembers(cfg, n, events, t, After(cfg, n, events).value.places[t])
  {
    if events != [] {
      var earlier, e := events[..|events| - 1], events[|events| - 1];
      assert events == earlier + [e];
      var before, after := LastStep(cfg, n, earlier, e);
      RemembersAlways(cfg, n, earlier, t);
      KernelAfter(cfg, n, earlier);
      RemembersNext(cfg, n, earlier, e, t, before, after);
    }
  }

  /**
   In every run of every configuration a wait reports a timeout exactly if its last wait
   was ended by one, and not exactly if a signal or broadcast took it off the queue.
   */
  lemma ReportsWhatEndedIt(cfg: Config, n: nat, events: seq<Event>)
    requires After(cfg, n, events).Some?
    ensures ResultsTrue(cfg, n, events)
  {
    forall t, timedOut | At(After(cfg, n, events).value, t, Returned(timedOut))
      ensures exists i: nat :: Explains(cfg, n, events, i, t, timedOut)
    {
      RemembersAlways(cfg, n, events, t);
      var i: nat :| EndedLastAt(cfg, n, events, i, t) && (timedOut <==> TimedOutAt(events, i, t));
      assert Explains(cfg, n, events, i, t, timedOut);
    }
  }

  // ----- Progress ----------------------------------------------------------------

  /** What a thread does next by itself, outside the critical section and the queue. */
  function OwnStep(cfg: Config, place: Place, t: Tid): Event {
    match place
    case Releasing => ReleaseMutex(t)
    case Parking => Park(t)
    case Signalled => KernelRelock(t)
    case TimedOut => if cfg.fixedKernel then KernelRelock(t) else KernelReturn(t)
    case KernelTimeout => if cfg.relockWorkaround then LibraryRelock(t) else LibraryReturn(t)
    case Returned(_) => Resume(t)
    case _ => Leave(t)
  }

  /**
   With exactly one of fix and workaround the protocol cannot get stuck: while a thread is
   past the queue or in its critical section, it or the owner of the mutex can go on.
   */
  lemma NeverStuck(cfg: Config, n: nat, events: seq<Event>, t: Tid) returns (u: Tid)
    requires Exclusive(cfg) && After(cfg, n, events).Some? && t < |After(cfg, n, events).value.places|
    requires var place := After(cfg, n, events).value.places[t]; place != Outside && place != Waiting
    ensures var s := After(cfg, n, events).value;
      && u < |s.places| && Enabled(cfg, s, OwnStep(cfg, s.places[u], u))
      && (u == t || s.mutex.owner == Some(u))
  {
    MutexAfter(cfg, n, events);
    var s := After(cfg, n, events).value;
    u := if CanLock(s.mutex, t) then t else s.mutex.owner.value;
  }

  // ----- Correctness -------------------------------------------------------------

  lemma ReturnsHolding(cfg: Config, n: nat, events: seq<Event>)
    requires Exclusive(cfg) && After(cfg, n, events).Some?
    ensures HoldsOnReturn(After(cfg, n, events).value)
  {
    MutexAfter(cfg, n, events);
  }

  /**
   Callers own the mutex and are told the truth about how their wait ended exactly when
   one of the kernel fix and the library workaround is in place, and not both.
   */
  lemma CorrectExactly(cfg: Config)
    ensures Correct(cfg) <==> Exclusive(cfg)
  {
    if Exclusive(cfg) {
      forall n: nat, events: seq<Event> | After(cfg, n, events).Some?
        ensures HoldsOnReturn(After(cfg, n, events).value) && ResultsTrue(cfg, n, events)
      {
        ReturnsHolding(cfg, n, events);
        ReportsWhatEndedIt(cfg, n, events);
      }
    } else {
      var run := ZeroTimeoutAfter(cfg);
      assert Alone(HeldOnTimeout(cfg), Returned(true)).places[0].Returned?;
      assert !HoldsOnReturn(After(cfg, 1, run).value);
    }
  }

  /** The promise for runs in which no wait has a zero timeout. */
  ghost predicate CorrectOnTimeouts(cfg: Config) {
    forall n: nat, events: seq<Event> ::
      (forall e :: e in events ==> !e.WaitZero?) && After(cfg, n, events).Some? ==>
        HoldsOnReturn(After(cfg, n, events).value)
  }

  /** Ordinary timeouts alone already demand exactly one of the two. */
  lemma TimeoutsCorrectExactly(cfg: Config)
    ensures CorrectOnTimeouts(cfg) <==> Exclusive(cfg)
  {
    if Exclusive(cfg) {
      CorrectExactly(cfg);
    } else {
      var run := TimeoutAfter(cfg);
      assert Alone(HeldOnTimeout(cfg), Returned(true)).places[0].Returned?;
      assert !HoldsOnReturn(After(cfg, 1, run).value);
    }
  }

  // ----- The build's selection of the workaround ---------------------------------

  datatype Version = Version(major: nat, minor: nat, patch: nat)

  predicate Affected(v: Version) {
    v.major == 4 && v.minor == 4 && v.patch <= 2
  }

  /** The build enables the workaround where the kernel patch does not reverse-apply. */
  function Select(v: Version, fixedKernel: bool, reverseApplies: bool): Config {
    Config(fixedKernel, Affected(v) && !reverseApplies)
  }

  /**
   On the affected versions the build selects a correct combination exactly when the
   reverse-apply test tells the truth about the kernel; on any other version exactly
   when the kernel itself is fixed.
   */
  lemma SelectionCorrectExactly(v: Version, fixedKernel: bool, reverseApplies: bool)
    ensures Correct(Select(v, fixedKernel, reverseApplies)) <==>
      if Affected(v) then reverseApplies == fixedKernel else fixedKernel
  {
    CorrectExactly(Select(v, fixedKernel, reverseApplies));
  }

  /** Outside the affected versions the test is not made, and an unfixed kernel is left as it is. */
  lemma UnfixedKernelLeftAlone(reverseApplies: bool)
    ensures Select(Version(4, 3, 0), false, reverseApplies) == Config(false, false)
    ensures !Correct(Select(Version(4, 3, 0), false, reverseApplies))
  {
    SelectionCorrectExactly(Version(4, 3, 0), false, reverseApplies);
  }
}
