/**
 The borrow loop the partial-magazines patch adds to Cyclone's free list: a thread
 that finds its own magazine and the shared pool empty looks once into every other
 magazine, holding one lock at a time.

 Any number of borrowers run concurrently with threads that push to and pop from
 magazines.  Each lock, inspection and unlock of a borrower is a step of its own.
 */
module Freelist {
  import opened Common
  import opened Division

  type Object = int
  type Tid = nat

  /** One look into a magazine that turned out empty: which one, and at which step. */
  datatype Look = Look(magazine: nat, step: nat)

  datatype Borrower =
    | Idle
    | Searching(home: nat, i: nat, looks: seq<Look>)                    // about to lock the i-th next magazine
    | Locked(home: nat, i: nat, looks: seq<Look>)                       // holding its lock
    | Inspected(home: nat, i: nat, looks: seq<Look>, found: Option<Object>) // looked, still holding the lock
    | Returned(home: nat, looks: seq<Look>, found: Option<Object>)

  datatype State = State(
    clock: nat,
    magazines: seq<seq<Object>>,
    locks: seq<Option<Tid>>,
    borrowers: seq<Borrower>,
    inUse: multiset<Object>) // objects handed out to their users

  datatype Event =
    | Start(t: Tid, home: nat)
    | Lock(t: Tid)
    | Inspect(t: Tid)
    | Unlock(t: Tid)
    | GiveUp(t: Tid)
    | Push(magazine: nat, o: Object)
    | Pop(magazine: nat)

  /** The magazine a borrower from `home` looks into on its i-th turn. */
  function Other(n: nat, home: nat, i: nat): nat
    requires n > 0
  {
    Remainder(home + i, n)
  }

  predicate Shaped(s: State) {
    |s.magazines| > 0 && |s.locks| == |s.magazines|
  }

  predicate Enabled(s: State, e: Event)
    requires Shaped(s)
  {
    var n := |s.magazines|;
    match e
    case Start(t, home) => t < |s.borrowers| && s.borrowers[t].Idle? && home < n
    case Lock(t) =>
      && t < |s.borrowers| && s.borrowers[t].Searching? && s.borrowers[t].i < n
      && s.locks[Other(n, s.borrowers[t].home, s.borrowers[t].i)] == None
    case Inspect(t) => t < |s.borrowers| && s.borrowers[t].Locked?
    case Unlock(t) => t < |s.borrowers| && s.borrowers[t].Inspected?
    case GiveUp(t) => t < |s.borrowers| && s.borrowers[t].Searching? && s.borrowers[t].i >= n
    case Push(m, o) => m < n && s.locks[m] == None && o in s.inUse
    case Pop(m) => m < n && s.locks[m] == None && s.magazines[m] != []
  }

  function Step(s: State, e: Event): State
    requires Shaped(s) && Enabled(s, e)
  {
    var n := |s.magazines|;
    var now := s.(clock := s.clock + 1);
    match e
    case Start(t, home) => now.(borrowers := s.borrowers[t := Searching(home, 1, [])])
    case Lock(t) =>
      var b := s.borrowers[t];
      now.(locks := s.locks[Other(n, b.home, b.i) := Some(t)],
           borrowers := s.borrowers[t := Locked(b.home, b.i, b.looks)])
    case Inspect(t) =>
      var b := s.borrowers[t];
      var m := Other(n, b.home, b.i);
      var x := s.magazines[m];
      if x == [] then
        now.(borrowers := s.borrowers[t := Inspected(b.home, b.i, b.looks + [Look(m, s.clock)], None)])
      else
        now.(magazines := s.magazines[m := x[..|x| - 1]],
             borrowers := s.borrowers[t := Inspected(b.home, b.i, b.looks, Some(x[|x| - 1]))])
    case Unlock(t) =>
      var b := s.borrowers[t];
      var unlocked := now.(locks := s.locks[Other(n, b.home, b.i) := None]);
      if b.found.Some? then
        unlocked.(borrowers := s.borrowers[t := Returned(b.home, b.looks, b.found)],
                  inUse := s.inUse + multiset{b.found.value})
      else
        unlocked.(borrowers := s.borrowers[t := Searching(b.home, b.i + 1, b.looks)])
    case GiveUp(t) =>
      now.(borrowers := s.borrowers[t := Returned(s.borrowers[t].home, s.borrowers[t].looks, None)])
    case Push(m, o) =>
      now.(magazines := s.magazines[m := s.magazines[m] + [o]], inUse := s.inUse - multiset{o})
    case Pop(m) =>
      var x := s.magazines[m];
      now.(magazines := s.magazines[m := x[..|x| - 1]], inUse := s.inUse + multiset{x[|x| - 1]})
  }

  // ----- Runs --------------------------------------------------------------------

  ghost predicate Initial(s: State) {
    && Shaped(s) && s.clock == 0
    && (forall m :: 0 <= m < |s.locks| ==> s.locks[m] == None)
    && (forall t :: 0 <= t < |s.borrowers| ==> s.borrowers[t].Idle?)
  }

  ghost predicate Follows(states: seq<State>, events: seq<Event>, i: nat)
    requires i < |events| && |states| == |events| + 1
  {
    Shaped(states[i]) && Enabled(states[i], events[i]) && states[i + 1] == Step(states[i], events[i])
  }

  ghost predicate Run(states: seq<State>, events: seq<Event>) {
    && |states| == |events| + 1
    && Initial(states[0])
    && forall i {:trigger Follows(states, events, i)} :: 0 <= i < |events| ==> Follows(states, events, i)
  }

  // ----- Every other magazine, exactly once --------------------------------------

  lemma OtherValue(n: nat, home: nat, i: nat)
    requires home < n && i < n
    ensures Other(n, home, i) == if home + i < n then home + i else home + i - n
  {
    if home + i >= n {
      assert Remainder(home + i - n, n) == home + i - n;
    }
  }

  /** The turn on which a borrower from `home` looks into magazine `m`. */
  function TurnFor(n: nat, home: nat, m: nat): (i: nat)
    requires home < n && m < n && m != home
    ensures 1 <= i < n
  {
    if m > home then m - home else m + n - home
  }

  /** The turns 1 to n-1 visit every magazine but the home one, none of them twice. */
  lemma TurnsVisitOthersOnce(n: nat, home: nat)
    requires home < n
    ensures forall i, j :: 1 <= i < j < n ==> Other(n, home, i) != Other(n, home, j)
    ensures forall m :: 0 <= m < n && m != home ==> Other(n, home, TurnFor(n, home, m)) == m
    ensures forall i :: 1 <= i < n ==> 0 <= Other(n, home, i) < n && Other(n, home, i) != home
  {
    forall i | 1 <= i < n
      ensures Other(n, home, i) == if home + i < n then home + i else home + i - n
    {
      OtherValue(n, home, i);
    }
  }

  // ----- Locks -------------------------------------------------------------------

  /** The lock a borrower holds, if any. */
  function HeldBy(n: nat, b: Borrower): Option<nat>
    requires n > 0
  {
    if b.Locked? || b.Inspected? then Some(Other(n, b.home, b.i)) else None
  }

  /** A borrower holds exactly the lock its position says, so never more than one. */
  ghost predicate LocksAgree(s: State) {
    && Shaped(s)
    && (forall m, t :: 0 <= m < |s.locks| && 0 <= t < |s.borrowers| ==>
          (s.locks[m] == Some(t) <==> HeldBy(|s.magazines|, s.borrowers[t]) == Some(m)))
  }

  ghost predicate HoldersExist(s: State) {
    forall m :: 0 <= m < |s.locks| && s.locks[m].Some? ==> s.locks[m].value < |s.borrowers|
  }

  lemma StepKeepsShape(s: State, e: Event)
    requires Shaped(s) && Enabled(s, e)
    ensures Shaped(Step(s, e)) && Step(s, e).clock == s.clock + 1
    ensures |Step(s, e).magazines| == |s.magazines| && |Step(s, e).borrowers| == |s.borrowers|
  {
  }

  lemma LockKeepsLocks(s: State, t: Tid)
    requires LocksAgree(s) && Enabled(s, Lock(t))
    ensures LocksAgree(Step(s, Lock(t)))
  {
  }

  lemma UnlockKeepsLocks(s: State, t: Tid)
    requires LocksAgree(s) && Enabled(s, Unlock(t))
    ensures LocksAgree(Step(s, Unlock(t)))
  {
  }

  lemma OthersKeepLocks(s: State, e: Event)
    requires LocksAgree(s) && Enabled(s, e) && !e.Lock? && !e.Unlock?
    ensures LocksAgree(Step(s, e))
  {
  }

  lemma StepKeepsLocks(s: State, e: Event)
    requires LocksAgree(s) && Enabled(s, e)
    ensures LocksAgree(Step(s, e))
  {
    match e
    case Lock(t) => LockKeepsLocks(s, t);
    case Unlock(t) => UnlockKeepsLocks(s, t);
    case _ => OthersKeepLocks(s, e);
  }

  lemma StepKeepsHolders(s: State, e: Event)
    requires Shaped(s) && Enabled(s, e) && HoldersExist(s)
    ensures HoldersExist(Step(s, e))
  {
  }

  lemma {:induction false} LocksAlways(states: seq<State>, events: seq<Event>, k: nat)
    requires Run(states, events) && k <= |events|
    ensures LocksAgree(states[k]) && HoldersExist(states[k]) && states[k].clock == k
    ensures |states[k].magazines| == |states[0].magazines| && |states[k].borrowers| == |states[0].borrowers|
  {
    if k > 0 {
      LocksAlways(states, events, k - 1);
      assert Follows(states, events, k - 1);
      StepKeepsShape(states[k - 1], events[k - 1]);
      StepKeepsLocks(states[k - 1], events[k - 1]);
      StepKeepsHolders(states[k - 1], events[k - 1]);
    }
  }

  /** At every moment a thread holds at most one magazine lock. */
  lemma OneLockAtATime(states: seq<State>, events: seq<Event>, k: nat, t: Tid, a: nat, b: nat)
    requires Run(states, events) && k <= |events|
    requires a < |states[k].locks| && b < |states[k].locks| && t < |states[k].borrowers|
    requires states[k].locks[a] == Some(t) && states[k].locks[b] == Some(t)
    ensures a == b
  {
    LocksAlways(states, events, k);
  }

  lemma StepRespectsLock(s: State, e: Event, t: Tid, m: nat)
    requires LocksAgree(s) && Enabled(s, e) && t < |s.borrowers| && m < |s.locks| && s.locks[m] == Some(t)
    requires e != Inspect(t)
    ensures Step(s, e).magazines[m] == s.magazines[m]
  {
  }

  /** While a borrower holds a magazine's lock, nothing but its own look changes what is in the magazine. */
  lemma LockProtects(states: seq<State>, events: seq<Event>, k: nat, t: Tid, m: nat)
    requires Run(states, events) && k < |events| && events[k] != Inspect(t)
    requires m < |states[k].locks| && states[k].locks[m] == Some(t)
    ensures m < |states[k].magazines| == |states[k + 1].magazines|
    ensures states[k + 1].magazines[m] == states[k].magazines[m]
  {
    RunStep(states, events, k);
    StepRespectsLock(states[k], events[k], t, m);
  }

  predicate InProgress(b: Borrower) {
    b.Searching? || b.Locked? || b.Inspected?
  }

  /** Borrowers cannot deadlock: while a search is in progress, some borrower can go on. */
  lemma NeverDeadlocked(states: seq<State>, events: seq<Event>, k: nat, t: Tid) returns (e: Event)
    requires Run(states, events) && k <= |events| && t < |states[k].borrowers|
    requires InProgress(states[k].borrowers[t])
    ensures Shaped(states[k]) && Enabled(states[k], e)
    ensures e.Lock? || e.Inspect? || e.Unlock? || e.GiveUp?
  {
    LocksAlways(states, events, k);
    var s, n := states[k], |states[k].magazines|;
    var runner := t;
    if s.borrowers[t].Searching? && s.borrowers[t].i < n {
      var m := Other(n, s.borrowers[t].home, s.borrowers[t].i);
      if s.locks[m].None? {
        return Lock(t);
      }
      runner := s.locks[m].value;
      assert HeldBy(n, s.borrowers[runner]) == Some(m);
    }
    match s.borrowers[runner]
    case Searching(_, _, _) => return GiveUp(runner);
    case Locked(_, _, _) => return Inspect(runner);
    case Inspected(_, _, _, _) => return Unlock(runner);
  }

  // ----- Conservation ------------------------------------------------------------

  function Copies(x: seq<Object>, o: Object): nat {
    multiset(x)[o]
  }

  function Stored(magazines: seq<seq<Object>>, o: Object): nat {
    if magazines == [] then 0
    else Stored(magazines[..|magazines| - 1], o) + Copies(magazines[|magazines| - 1], o)
  }

  function InHand(b: Borrower, o: Object): nat {
    if b.Inspected? && b.found == Some(o) then 1 else 0
  }

  function InHands(borrowers: seq<Borrower>, o: Object): nat {
    if borrowers == [] then 0
    else InHands(borrowers[..|borrowers| - 1], o) + InHand(borrowers[|borrowers| - 1], o)
  }

  /** Every copy of an object there is: stored, in a borrower's hands, or in use. */
  function Stock(s: State, o: Object): nat {
    Stored(s.magazines, o) + InHands(s.borrowers, o) + s.inUse[o]
  }

  lemma {:induction false} StoredUpdate(magazines: seq<seq<Object>>, m: nat, x: seq<Object>, o: Object)
    requires m < |magazines|
    ensures Stored(magazines[m := x], o) == Stored(magazines, o) + Copies(x, o) - Copies(magazines[m], o)
  {
    var last := |magazines| - 1;
    if m == last {
      assert magazines[m := x][..last] == magazines[..last];
    } else {
      assert magazines[m := x][..last] == magazines[..last][m := x];
      StoredUpdate(magazines[..last], m, x, o);
    }
  }

  lemma {:induction false} InHandsUpdate(borrowers: seq<Borrower>, t: nat, b: Borrower, o: Object)
    requires t < |borrowers|
    ensures InHands(borrowers[t := b], o) == InHands(borrowers, o) + InHand(b, o) - InHand(borrowers[t], o)
  {
    var last := |borrowers| - 1;
    if t == last {
      assert borrowers[t := b][..last] == borrowers[..last];
    } else {
      assert borrowers[t := b][..last] == borrowers[..last][t := b];
      InHandsUpdate(borrowers[..last], t, b, o);
    }
  }

  lemma CopiesOfShorter(x: seq<Object>, o: Object)
    requires x != []
    ensures Copies(x, o) == Copies(x[..|x| - 1], o) + if x[|x| - 1] == o then 1 else 0
  {
    assert x == x[..|x| - 1] + [x[|x| - 1]];
  }

  /** A push or a pop moves one object between a magazine and its user. */
  lemma UserStepConserves(s: State, e: Event, o: Object)
    requires Shaped(s) && Enabled(s, e) && (e.Push? || e.Pop?)
    ensures Stock(Step(s, e), o) == Stock(s, o)
  {
    var x := s.magazines[e.magazine];
    if e.Pop? {
      CopiesOfShorter(x, o);
      StoredUpdate(s.magazines, e.magazine, x[..|x| - 1], o);
    } else {
      StoredUpdate(s.magazines, e.magazine, x + [e.o], o);
    }
  }

  lemma InspectConserves(s: State, t: Tid, o: Object)
    requires Shaped(s) && Enabled(s, Inspect(t))
    ensures Stock(Step(s, Inspect(t)), o) == Stock(s, o)
  {
    var m := Other(|s.magazines|, s.borrowers[t].home, s.borrowers[t].i);
    var x := s.magazines[m];
    InHandsUpdate(s.borrowers, t, Step(s, Inspect(t)).borrowers[t], o);
    if x != [] {
      CopiesOfShorter(x, o);
      StoredUpdate(s.magazines, m, x[..|x| - 1], o);
    }
  }

  lemma StepConserves(s: State, e: Event, o: Object)
    requires Shaped(s) && Enabled(s, e)
    ensures Stock(Step(s, e), o) == Stock(s, o)
  {
    if e.Push? || e.Pop? {
      UserStepConserves(s, e, o);
    } else if e.Inspect? {
      InspectConserves(s, e.t, o);
    } else {
      InHandsUpdate(s.borrowers, e.t, Step(s, e).borrowers[e.t], o);
    }
  }

  /** No interleaving duplicates or loses an object. */
  lemma {:induction false} ObjectsConserved(states: seq<State>, events: seq<Event>, k: nat, o: Object)
    requires Run(states, events) && k <= |events|
    ensures Stock(states[k], o) == Stock(states[0], o)
  {
    if k > 0 {
      ObjectsConserved(states, events, k - 1, o);
      assert Follows(states, events, k - 1);
      StepConserves(states[k - 1], events[k - 1], o);
    }
  }

  // ----- What a search has seen --------------------------------------------------

  /** Step `c` of the run was `t` looking into magazine `m`, whose lock it held, and finding it empty. */
  ghost predicate FoundEmpty(states: seq<State>, events: seq<Event>, t: Tid, m: nat, c: nat) {
    && c < |events| < |states|
    && events[c] == Inspect(t) && t < |states[c].borrowers|
    && m < |states[c].magazines| == |states[c].locks|
    && HeldBy(|states[c].magazines|, states[c].borrowers[t]) == Some(m)
    && states[c].locks[m] == Some(t) && states[c].magazines[m] == []
  }

  /** The turns a borrower has completed without finding anything. */
  ghost predicate TurnsMatch(n: nat, b: Borrower) {
    match b
    case Idle => true
    case Searching(home, i, looks) => home < n && 1 <= i <= n && |looks| == i - 1
    case Locked(home, i, looks) => home < n && 1 <= i < n && |looks| == i - 1
    case Inspected(home, i, looks, found) =>
      home < n && 1 <= i < n && |looks| == if found.None? then i else i - 1
    case Returned(home, looks, found) => home < n && (found.None? ==> |looks| == n - 1)
  }

  /** Each remembered look was the next magazine in turn, and truly found it empty. */
  ghost predicate LooksTrue(states: seq<State>, events: seq<Event>, n: nat, t: Tid, b: Borrower)
    requires n > 0
  {
    !b.Idle? ==> forall j :: 0 <= j < |b.looks| ==>
      && b.looks[j].magazine == Other(n, b.home, j + 1)
      && FoundEmpty(states, events, t, b.looks[j].magazine, b.looks[j].step)
  }

  lemma StepKeepsTurns(s: State, e: Event, t: Tid)
    requires Shaped(s) && Enabled(s, e) && t < |s.borrowers|
    requires TurnsMatch(|s.magazines|, s.borrowers[t])
    ensures TurnsMatch(|s.magazines|, Step(s, e).borrowers[t])
  {
  }

  lemma StepKeepsLooks(states: seq<State>, events: seq<Event>, k: nat, t: Tid)
    requires Run(states, events) && k < |events| && Follows(states, events, k)
    requires t < |states[k].borrowers| && states[k].clock == k && LocksAgree(states[k])
    requires TurnsMatch(|states[k].magazines|, states[k].borrowers[t])
    requires LooksTrue(states, events, |states[k].magazines|, t, states[k].borrowers[t])
    ensures LooksTrue(states, events, |states[k].magazines|, t, Step(states[k], events[k]).borrowers[t])
  {
    var s, e := states[k], events[k];
    if e == Inspect(t) {
      var b := s.borrowers[t];
      var m := Other(|s.magazines|, b.home, b.i);
      if s.magazines[m] == [] {
        assert FoundEmpty(states, events, t, m, k);
      }
    }
  }

  /** What holds whenever a run takes its next step. */
  lemma RunStep(states: seq<State>, events: seq<Event>, k: nat)
    requires Run(states, events) && k < |events|
    ensures Follows(states, events, k) && LocksAgree(states[k]) && HoldersExist(states[k]) && states[k].clock == k
    ensures |states[k].magazines| == |states[0].magazines| && |states[k].borrowers| == |states[0].borrowers|
    ensures Shaped(states[k + 1]) && states[k + 1] == Step(states[k], events[k])
    ensures |states[k + 1].magazines| == |states[0].magazines| && |states[k + 1].borrowers| == |states[0].borrowers|
  {
    LocksAlways(states, events, k);
    LocksAlways(states, events, k + 1);
    assert Follows(states, events, k);
  }

  lemma {:induction false} SearchRemembers(states: seq<State>, events: seq<Event>, k: nat, t: Tid)
    requires Run(states, events) && k <= |events| && t < |states[0].borrowers|
    ensures Shaped(states[k]) && |states[k].magazines| == |states[0].magazines|
    ensures t < |states[k].borrowers|
    ensures TurnsMatch(|states[0].magazines|, states[k].borrowers[t])
    ensures LooksTrue(states, events, |states[0].magazines|, t, states[k].borrowers[t])
  {
    if k > 0 {
      SearchRemembers(states, events, k - 1, t);
      RunStep(states, events, k - 1);
      StepKeepsTurns(states[k - 1], events[k - 1], t);
      StepKeepsLooks(states, events, k - 1, t);
    }
  }

  /**
   A search that returns nothing has looked into every magazine but its own, once
   each, and each was empty at the step it looked, while it held that magazine's lock.
   */
  lemma NothingMeansAllEmpty(states: seq<State>, events: seq<Event>, k: nat, t: Tid)
    requires Run(states, events) && k <= |events| && t < |states[k].borrowers|
    requires states[k].borrowers[t].Returned? && states[k].borrowers[t].found.None?
    ensures var n, b := |states[k].magazines|, states[k].borrowers[t];
      && b.home < n && |b.looks| == n - 1
      && (forall i, j :: 0 <= i < j < |b.looks| ==> b.looks[i].magazine != b.looks[j].magazine)
      && (forall m :: 0 <= m < n && m != b.home ==>
            var look := b.looks[TurnFor(n, b.home, m) - 1];
            look.magazine == m && FoundEmpty(states, events, t, m, look.step))
  {
    LocksAlways(states, events, k);
    SearchRemembers(states, events, k, t);
    var n, b := |states[k].magazines|, states[k].borrowers[t];
    TurnsVisitOthersOnce(n, b.home);
    forall m | 0 <= m < n && m != b.home
      ensures b.looks[TurnFor(n, b.home, m) - 1].magazine == m
      ensures FoundEmpty(states, events, t, m, b.looks[TurnFor(n, b.home, m) - 1].step)
    {
      assert Other(n, b.home, TurnFor(n, b.home, m)) == m;
    }
  }

  // ----- Where a found object comes from -----------------------------------------

  /** Step `c` of the run was `t` taking `o` off the end of magazine `m`, whose lock it held. */
  ghost predicate Took(states: seq<State>, events: seq<Event>, t: Tid, m: nat, o: Object, c: nat) {
    && c < |events| && |states| == |events| + 1
    && events[c] == Inspect(t)
    && m < |states[c].magazines| == |states[c].locks| && states[c].locks[m] == Some(t)
    && var x := states[c].magazines[m];
       x != [] && x[|x| - 1] == o && states[c + 1].magazines == states[c].magazines[m := x[..|x| - 1]]
  }

  /** An object found was taken from the magazine after those that were found empty. */
  ghost predicate FoundTrue(states: seq<State>, events: seq<Event>, n: nat, t: Tid, b: Borrower)
    requires n > 0
  {
    (b.Inspected? || b.Returned?) && b.found.Some? ==>
      && b.home < n && |b.looks| + 1 < n
      && var m := Other(n, b.home, |b.looks| + 1);
         exists c: nat :: Took(states, events, t, m, b.found.value, c)
  }

  lemma StepKeepsFound(states: seq<State>, events: seq<Event>, k: nat, t: Tid)
    requires Run(states, events) && k < |events| && Follows(states, events, k)
    requires t < |states[k].borrowers| && LocksAgree(states[k])
    requires TurnsMatch(|states[k].magazines|, states[k].borrowers[t])
    requires FoundTrue(states, events, |states[k].magazines|, t, states[k].borrowers[t])
    ensures FoundTrue(states, events, |states[k].magazines|, t, Step(states[k], events[k]).borrowers[t])
  {
    var s, e := states[k], events[k];
    if e == Inspect(t) {
      var b := s.borrowers[t];
      var m := Other(|s.magazines|, b.home, b.i);
      if s.magazines[m] != [] {
        assert Took(states, events, t, m, s.magazines[m][|s.magazines[m]| - 1], k);
      }
    }
  }

  lemma FoundNext(states: seq<State>, events: seq<Event>, k: nat, t: Tid)
    requires Run(states, events) && k < |events| && t < |states[0].borrowers|
    requires Shaped(states[0]) && t < |states[k].borrowers|
    requires FoundTrue(states, events, |states[0].magazines|, t, states[k].borrowers[t])
    ensures t < |states[k + 1].borrowers|
    ensures FoundTrue(states, events, |states[0].magazines|, t, states[k + 1].borrowers[t])
  {
    RunStep(states, events, k);
    SearchRemembers(states, events, k, t);
    StepKeepsFound(states, events, k, t);
  }

  lemma {:induction false} FoundAlways(states: seq<State>, events: seq<Event>, k: nat, t: Tid)
    requires Run(states, events) && k <= |events| && t < |states[0].borrowers|
    ensures t < |states[k].borrowers|
    ensures FoundTrue(states, events, |states[0].magazines|, t, states[k].borrowers[t])
  {
    if k > 0 {
      FoundAlways(states, events, k - 1, t);
      FoundNext(states, events, k - 1, t);
    }
  }

  /**
   A search that returns an object took it off the end of another magazine than its own, under
   that magazine's lock, after finding every magazine before it in its order empty.
   */
  lemma FoundWasTaken(states: seq<State>, events: seq<Event>, k: nat, t: Tid) returns (m: nat, c: nat)
    requires Run(states, events) && k <= |events| && t < |states[k].borrowers|
    requires states[k].borrowers[t].Returned? && states[k].borrowers[t].found.Some?
    ensures var b := states[k].borrowers[t];
      && m != b.home && Took(states, events, t, m, b.found.value, c)
      && (forall j :: 0 <= j < |b.looks| ==>
            b.looks[j].magazine != m && FoundEmpty(states, events, t, b.looks[j].magazine, b.looks[j].step))
  {
    LocksAlways(states, events, k);
    SearchRemembers(states, events, k, t);
    FoundAlways(states, events, k, t);
    var n, b := |states[0].magazines|, states[k].borrowers[t];
    m := Other(n, b.home, |b.looks| + 1);
    TurnsVisitOthersOnce(n, b.home);
    c :| Took(states, events, t, m, b.found.value, c);
  }
}
