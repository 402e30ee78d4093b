/**
 What every run of the control thread guarantees, stated from the turns alone:
 the schedule, the exact cause of a fault, the exact published status, the effort
 interlock and the motion of the plant.
 */
module ControlRuns {
  import opened Common
  import opened Plant
  import opened Control
  import opened Words

  // ----- What a run's turns say, without looking at the loop ---------------------

  function SumReleases(turns: seq<Turn>): nat {
    if turns == [] then 0
    else SumReleases(turns[..|turns| - 1]) + turns[|turns| - 1].releases
  }

  function Skipped(t: Turn): nat {
    if t.releases > 1 then t.releases - 1 else 0
  }

  /** Releases beyond the one each turn serves. */
  function SumSkipped(turns: seq<Turn>): nat {
    if turns == [] then 0
    else SumSkipped(turns[..|turns| - 1]) + Skipped(turns[|turns| - 1])
  }

  /** The release the run has been scheduled up to after these turns. */
  function Scheduled(anchorMs: int, turns: seq<Turn>): int {
    anchorMs + 10 + 10 * SumReleases(turns)
  }

  /** Turn `i` skipped a release, or began or completed after its own schedule. */
  predicate Missed(anchorMs: int, turns: seq<Turn>, i: nat)
    requires i < |turns|
  {
    || turns[i].releases > 1
    || turns[i].startMs > Scheduled(anchorMs, turns[..i + 1])
    || turns[i].completionMs > Scheduled(anchorMs, turns[..i + 1])
  }

  ghost predicate AnyMissed(anchorMs: int, turns: seq<Turn>) {
    exists i: nat :: i < |turns| && Missed(anchorMs, turns, i)
  }

  /** Every submission made by the end of a run. */
  function Submitted(turns: seq<Turn>): seq<Submission> {
    if turns == [] then []
    else Visible(turns) + turns[|turns| - 1].after
  }

  /** Every submission made before the last turn read the snapshot. */
  function Visible(turns: seq<Turn>): seq<Submission>
    requires turns != []
    decreases turns, 0
  {
    Submitted(turns[..|turns| - 1]) + turns[|turns| - 1].before
  }

  /** Submission `i` is accepted and no later one is. */
  ghost predicate LastAcceptedAt(submissions: seq<Submission>, i: nat) {
    i < |submissions| && Accepts(submissions[i]) && forall j :: i < j < |submissions| ==> !Accepts(submissions[j])
  }

  function LastAccepted(submissions: seq<Submission>): (r: Option<Submission>)
    ensures r.Some? ==> Accepts(r.value)
    ensures r.Some? ==> exists i: nat :: LastAcceptedAt(submissions, i) && submissions[i] == r.value
    ensures r.None? <==> forall i :: 0 <= i < |submissions| ==> !Accepts(submissions[i])
  {
    if submissions == [] then None
    else
      var n := |submissions| - 1;
      if Accepts(submissions[n]) then
        assert LastAcceptedAt(submissions, n);
        Some(submissions[n])
      else
        assert forall i: nat :: LastAcceptedAt(submissions[..n], i) ==> LastAcceptedAt(submissions, i);
        LastAccepted(submissions[..n])
  }

  /** The status that goes with the last accepted submission a turn could see. */
  function StatusFor(missed: bool, read: Option<Submission>, startMs: int): Status {
    if missed then Fault
    else match read
      case None => Disabled
      case Some(s) => if s.receiptMs <= startMs <= s.receiptMs + 250 then Active else Stale
  }

  /** The status the last turn of a run must publish. */
  ghost function ExpectedStatus(anchorMs: int, turns: seq<Turn>): Status
    requires turns != []
  {
    StatusFor(AnyMissed(anchorMs, turns), LastAccepted(Visible(turns)), turns[|turns| - 1].startMs)
  }

  // ----- Snapshot ----------------------------------------------------------------

  lemma {:induction false} SubmitAllAppends(snapshot: Snapshot, first: seq<Submission>, second: seq<Submission>)
    ensures SubmitAll(snapshot, first + second) == SubmitAll(SubmitAll(snapshot, first), second)
  {
    if second == [] {
      assert first + second == first;
    } else {
      var shorter := second[..|second| - 1];
      assert (first + second)[..|first + second| - 1] == first + shorter;
      SubmitAllAppends(snapshot, first, shorter);
    }
  }

  lemma {:induction false} SnapshotHoldsLastAccepted(snapshot: Snapshot, submissions: seq<Submission>)
    ensures SubmitAll(snapshot, submissions) ==
      match LastAccepted(submissions)
      case None => snapshot
      case Some(s) => Taken(s)
  {
    if submissions != [] {
      SnapshotHoldsLastAccepted(snapshot, submissions[..|submissions| - 1]);
    }
  }

  /** The snapshot after a run is decided by the run's submissions alone. */
  lemma {:induction false} SnapshotAfter(l: Loop, turns: seq<Turn>)
    ensures After(l, turns).snapshot == SubmitAll(l.snapshot, Submitted(turns))
    ensures turns != [] ==>
      SubmitAll(After(l, turns[..|turns| - 1]).snapshot, turns[|turns| - 1].before)
      == SubmitAll(l.snapshot, Visible(turns))
  {
    if turns != [] {
      var earlier, t := turns[..|turns| - 1], turns[|turns| - 1];
      SnapshotAfter(l, earlier);
      SubmitAllAppends(l.snapshot, Submitted(earlier), t.before);
      SubmitAllAppends(l.snapshot, Visible(turns), t.after);
    }
  }

  // ----- Schedule and counters ---------------------------------------------------

  lemma {:induction false} ScheduleAfter(anchorMs: int, snapshot: Snapshot, turns: seq<Turn>)
    ensures After(Begin(anchorMs, snapshot), turns).scheduledMs == Scheduled(anchorMs, turns)
  {
    if turns != [] {
      ScheduleAfter(anchorMs, snapshot, turns[..|turns| - 1]);
    }
  }

  /** One pass counts itself. */
  lemma CycleCounts(l: Loop, t: Turn, n: nat)
    requires l.state.controlCycles == Wrap(n)
    ensures Cycle(l, t).state.controlCycles == Wrap(n + 1)
  {
    WrapAdd(n, 1);
  }

  lemma {:induction false} CyclesAfter(anchorMs: int, snapshot: Snapshot, turns: seq<Turn>)
    ensures After(Begin(anchorMs, snapshot), turns).state.controlCycles == Wrap(|turns|)
  {
    if turns != [] {
      var n := |turns| - 1;
      CyclesAfter(anchorMs, snapshot, turns[..n]);
      CycleCounts(After(Begin(anchorMs, snapshot), turns[..n]), turns[n], n);
    }
  }

  lemma CycleSkips(l: Loop, t: Turn, n: nat)
    requires l.state.skippedReleases == Wrap(n)
    ensures Cycle(l, t).state.skippedReleases == Wrap(n + Skipped(t))
  {
    WrapAdd(n, t.releases - 1);
  }

  lemma {:induction false} SkippedAfter(anchorMs: int, snapshot: Snapshot, turns: seq<Turn>)
    ensures After(Begin(anchorMs, snapshot), turns).state.skippedReleases == Wrap(SumSkipped(turns))
  {
    if turns != [] {
      var n := |turns| - 1;
      SkippedAfter(anchorMs, snapshot, turns[..n]);
      CycleSkips(After(Begin(anchorMs, snapshot), turns[..n]), turns[n], SumSkipped(turns[..n]));
    }
  }

  ghost predicate EverySyncReleases(turns: seq<Turn>) {
    forall i :: 0 <= i < |turns| ==> turns[i].releases >= 1
  }

  lemma {:induction false} ServedOrSkipped(turns: seq<Turn>)
    requires EverySyncReleases(turns)
    ensures |turns| + SumSkipped(turns) == SumReleases(turns)
  {
    if turns != [] {
      ServedOrSkipped(turns[..|turns| - 1]);
    }
  }

  lemma SharesBalance(turns: seq<Turn>)
    requires EverySyncReleases(turns)
    ensures Balanced(Wrap(|turns|), Wrap(SumSkipped(turns)), SumReleases(turns))
  {
    ServedOrSkipped(turns);
    WrapSplit(SumReleases(turns), |turns|);
  }

  /**
   Every timer release is accounted for: as a control cycle or as skipped.  The
   32-bit counters may wrap and the books still balance; below the range they
   balance exactly.
   */
  lemma ReleasesAccounted(anchorMs: int, snapshot: Snapshot, turns: seq<Turn>)
    requires EverySyncReleases(turns)
    ensures var state := After(Begin(anchorMs, snapshot), turns).state;
      Balanced(state.controlCycles, state.skippedReleases, SumReleases(turns))
  {
    CyclesAfter(anchorMs, snapshot, turns);
    SkippedAfter(anchorMs, snapshot, turns);
    SharesBalance(turns);
  }

  /** How late turn `i` began, in milliseconds; negative when it was early. */
  function LatenessMs(anchorMs: int, turns: seq<Turn>, i: nat): int
    requires i < |turns|
  {
    turns[i].startMs - Scheduled(anchorMs, turns[..i])
  }

  ghost predicate IsGreatestLateness(anchorMs: int, turns: seq<Turn>, us: nat) {
    && (forall i: nat :: i < |turns| ==> ReportedLateness(LatenessMs(anchorMs, turns, i)) <= us)
    && (us == 0 || exists i: nat :: i < |turns| && ReportedLateness(LatenessMs(anchorMs, turns, i)) == us)
  }

  /** An early turn reports nothing; a late one its lateness in microseconds, modulo 2^32. */
  lemma ReportedExactly(ms: int)
    ensures ms <= 0 ==> ReportedLateness(ms) == 0
    ensures ms > 0 ==> ReportedLateness(ms) == ms * 1000 % 0x1_0000_0000
    ensures 0 <= ms * 1000 < 0x1_0000_0000 ==> ReportedLateness(ms) == ms * 1000
  {
    if ms > 0 {
      WrapSplits(ms);
      WrapTurns(Wrap(ms) * 1000, Turns(ms) * 1000);
      WrapIsRemainder(ms * 1000);
    }
  }

  lemma LatenessOfPrefix(anchorMs: int, turns: seq<Turn>, i: nat)
    requires i + 1 < |turns|
    ensures LatenessMs(anchorMs, turns[..|turns| - 1], i) == LatenessMs(anchorMs, turns, i)
  {
    assert turns[..|turns| - 1][..i] == turns[..i];
  }

  lemma GreatestExtends(anchorMs: int, turns: seq<Turn>, us: nat)
    requires turns != [] && IsGreatestLateness(anchorMs, turns[..|turns| - 1], us)
    ensures var last := ReportedLateness(LatenessMs(anchorMs, turns, |turns| - 1));
      IsGreatestLateness(anchorMs, turns, Max(us, last))
  {
    forall i: nat | i + 1 < |turns|
      ensures LatenessMs(anchorMs, turns[..|turns| - 1], i) == LatenessMs(anchorMs, turns, i)
    {
      LatenessOfPrefix(anchorMs, turns, i);
    }
    if us != 0 {
      var i: nat :| i + 1 < |turns| && ReportedLateness(LatenessMs(anchorMs, turns[..|turns| - 1], i)) == us;
      assert ReportedLateness(LatenessMs(anchorMs, turns, i)) == us;
    }
  }

  function GreatestLateness(anchorMs: int, turns: seq<Turn>): nat {
    if turns == [] then 0
    else
      var n := |turns| - 1;
      Max(GreatestLateness(anchorMs, turns[..n]), ReportedLateness(LatenessMs(anchorMs, turns, n)))
  }

  lemma {:induction false} GreatestIsGreatest(anchorMs: int, turns: seq<Turn>)
    ensures IsGreatestLateness(anchorMs, turns, GreatestLateness(anchorMs, turns))
  {
    if turns != [] {
      GreatestIsGreatest(anchorMs, turns[..|turns| - 1]);
      GreatestExtends(anchorMs, turns, GreatestLateness(anchorMs, turns[..|turns| - 1]));
    }
  }

  /** The published lateness is the greatest that any turn of the run reported. */
  lemma {:induction false} LatenessAfter(anchorMs: int, snapshot: Snapshot, turns: seq<Turn>)
    ensures After(Begin(anchorMs, snapshot), turns).state.maxReleaseLatenessUs == GreatestLateness(anchorMs, turns)
  {
    if turns != [] {
      LatenessAfter(anchorMs, snapshot, turns[..|turns| - 1]);
      ScheduleAfter(anchorMs, snapshot, turns[..|turns| - 1]);
    }
  }

  // ----- The latched fault -------------------------------------------------------

  lemma MissedExtends(anchorMs: int, turns: seq<Turn>)
    requires turns != []
    ensures AnyMissed(anchorMs, turns) <==>
      AnyMissed(anchorMs, turns[..|turns| - 1]) || Missed(anchorMs, turns, |turns| - 1)
  {
    var earlier := turns[..|turns| - 1];
    forall i: nat | i < |earlier|
      ensures Missed(anchorMs, earlier, i) == Missed(anchorMs, turns, i)
    {
      assert earlier[..i + 1] == turns[..i + 1];
    }
  }

  /** The fault flag is set exactly when some turn so far missed. */
  lemma {:induction false} FaultExactly(anchorMs: int, snapshot: Snapshot, turns: seq<Turn>)
    ensures After(Begin(anchorMs, snapshot), turns).faulted <==> AnyMissed(anchorMs, turns)
  {
    if turns != [] {
      FaultExactly(anchorMs, snapshot, turns[..|turns| - 1]);
      ScheduleAfter(anchorMs, snapshot, turns[..|turns| - 1]);
      MissedExtends(anchorMs, turns);
      assert turns[..|turns|] == turns;
    }
  }

  ghost predicate ClockMonotone(turns: seq<Turn>) {
    forall i :: 0 <= i < |turns| ==> turns[i].startMs <= turns[i].completionMs
  }

  /** With a monotone clock the fault means a skipped release or a late completion. */
  lemma FaultUnderMonotoneClock(anchorMs: int, snapshot: Snapshot, turns: seq<Turn>)
    requires ClockMonotone(turns)
    ensures After(Begin(anchorMs, snapshot), turns).faulted <==>
      exists i: nat {:trigger turns[i]} :: i < |turns| &&
        (turns[i].releases > 1 || turns[i].completionMs > Scheduled(anchorMs, turns[..i + 1]))
  {
    FaultExactly(anchorMs, snapshot, turns);
    if AnyMissed(anchorMs, turns) {
      var i: nat :| i < |turns| && Missed(anchorMs, turns, i);
      assert turns[i].releases > 1 || turns[i].completionMs > Scheduled(anchorMs, turns[..i + 1]);
    }
    forall i: nat {:trigger turns[i]} |
      i < |turns| && (turns[i].releases > 1 || turns[i].completionMs > Scheduled(anchorMs, turns[..i + 1]))
      ensures Missed(anchorMs, turns, i)
    {
    }
  }

  lemma {:induction false} AfterAppends(l: Loop, first: seq<Turn>, second: seq<Turn>)
    ensures After(l, first + second) == After(After(l, first), second)
  {
    if second == [] {
      assert first + second == first;
    } else {
      var shorter := second[..|second| - 1];
      assert (first + second)[..|first + second| - 1] == first + shorter;
      AfterAppends(l, first, shorter);
    }
  }

  lemma {:induction false} FaultStays(l: Loop, turns: seq<Turn>)
    requires l.faulted
    ensures After(l, turns).faulted
    ensures turns != [] ==> After(l, turns).state.status == Fault && After(l, turns).state.effort == 0.0
    ensures AllDisabled(Drives(l, turns))
  {
    if turns != [] {
      FaultStays(l, turns[..|turns| - 1]);
    }
  }

  /** Once FAULT has been published, every later turn publishes FAULT and no effort. */
  lemma FaultLatches(l: Loop, first: seq<Turn>, later: seq<Turn>)
    requires first != [] && After(l, first).state.status == Fault
    ensures After(l, first + later).state.status == Fault
    ensures After(l, first + later).state.effort == 0.0
  {
    AfterAppends(l, first, later);
    assert After(l, first).faulted;
    FaultStays(After(l, first), later);
  }

  // ----- The published status ----------------------------------------------------

  /**
   The published status is decided by the environment alone: which turns missed
   and which submission was the last accepted one before the thread read.
   */
  lemma StatusExactly(anchorMs: int, snapshot: Snapshot, turns: seq<Turn>)
    requires !snapshot.valid && turns != []
    ensures After(Begin(anchorMs, snapshot), turns).state.status == ExpectedStatus(anchorMs, turns)
  {
    var l, n := Begin(anchorMs, snapshot), |turns| - 1;
    FaultExactly(anchorMs, snapshot, turns);
    SnapshotAfter(l, turns);
    SnapshotHoldsLastAccepted(snapshot, Visible(turns));
    StatusDecided(After(l, turns[..n]), turns[n], snapshot, LastAccepted(Visible(turns)));
  }

  lemma StatusDecided(l: Loop, t: Turn, initial: Snapshot, read: Option<Submission>)
    requires !initial.valid && (read.Some? ==> Accepts(read.value))
    requires SubmitAll(l.snapshot, t.before) == if read.None? then initial else Taken(read.value)
    ensures Cycle(l, t).state.status == StatusFor(Cycle(l, t).faulted, read, t.startMs)
  {
  }

  /** The interlock: effort is published only while ACTIVE, and then as applied. */
  lemma EffortOnlyWhileActive(l: Loop, turns: seq<Turn>)
    requires turns != []
    ensures var before, after := After(l, turns[..|turns| - 1]), After(l, turns);
      after.state.effort ==
        if after.state.status == Active then Effort(before.plant, DriveOf(before, turns[|turns| - 1])) else 0.0
  {
  }

  /**
   Nonzero published effort means: no turn of the run ever missed, and a command
   accepted in this run was received at most 250 ms before the turn started.
   */
  lemma {:induction false} EffortImpliesSafe(anchorMs: int, snapshot: Snapshot, turns: seq<Turn>)
    requires !snapshot.valid && turns != []
    requires After(Begin(anchorMs, snapshot), turns).state.effort != 0.0
    ensures After(Begin(anchorMs, snapshot), turns).state.status == Active
    ensures !AnyMissed(anchorMs, turns)
    ensures LastAccepted(Visible(turns)).Some?
    ensures var s := LastAccepted(Visible(turns)).value;
      s.receiptMs <= turns[|turns| - 1].startMs <= s.receiptMs + 250
  {
    EffortOnlyWhileActive(Begin(anchorMs, snapshot), turns);
    StatusExactly(anchorMs, snapshot, turns);
  }

  // ----- The plant inside the loop -----------------------------------------------

  /** What the plant was driven with, turn by turn. */
  function Drives(l: Loop, turns: seq<Turn>): seq<Drive> {
    if turns == [] then []
    else
      var earlier := turns[..|turns| - 1];
      Drives(l, earlier) + [DriveOf(After(l, earlier), turns[|turns| - 1])]
  }

  /** The published motion is the plant's. */
  predicate Reports(l: Loop) {
    l.state.position == l.plant.position && l.state.velocity == l.plant.velocity
  }

  /** The environment lets the last turn of a run drive the plant. */
  ghost predicate MayDrive(anchorMs: int, turns: seq<Turn>)
    requires turns != []
  {
    var turn := turns[|turns| - 1];
    && !AnyMissed(anchorMs, turns[..|turns| - 1])
    && turn.releases <= 1 && turn.startMs <= Scheduled(anchorMs, turns)
    && match LastAccepted(Visible(turns))
       case None => false
       case Some(s) => s.receiptMs <= turn.startMs <= s.receiptMs + 250
  }

  /**
   The plant is driven exactly when no deadline was missed before the step and the last
   accepted command is fresh; it is driven towards that command, and its sequence is published.
   */
  lemma DriveExactly(anchorMs: int, snapshot: Snapshot, turns: seq<Turn>)
    requires !snapshot.valid && turns != []
    ensures var l := Begin(anchorMs, snapshot);
      var drive := DriveOf(After(l, turns[..|turns| - 1]), turns[|turns| - 1]);
      var read := LastAccepted(Visible(turns));
      && (drive.enabled <==> MayDrive(anchorMs, turns))
      && (read.Some? ==> drive.target == read.value.request.value.0.value
                         && After(l, turns).state.commandSequence == read.value.request.value.1)
      && (read.None? ==> drive.target == snapshot.command.target
                         && After(l, turns).state.commandSequence == snapshot.command.sequence)
  {
    var l, earlier, turn := Begin(anchorMs, snapshot), turns[..|turns| - 1], turns[|turns| - 1];
    var before, read := After(l, earlier), SubmitAll(snapshot, Visible(turns));
    SnapshotAfter(l, turns);
    FaultExactly(anchorMs, snapshot, earlier);
    ScheduleAfter(anchorMs, snapshot, earlier);
    DriveDecided(before, turn, read);
    SnapshotHoldsLastAccepted(snapshot, Visible(turns));
  }

  lemma DriveDecided(l: Loop, t: Turn, read: Snapshot)
    requires read == SubmitAll(l.snapshot, t.before)
    ensures DriveOf(l, t).target == read.command.target
    ensures DriveOf(l, t).enabled <==>
      Fresh(read, t.startMs) && !l.faulted && t.releases <= 1
      && t.startMs <= l.scheduledMs + t.releases * 10
    ensures Cycle(l, t).state.commandSequence == read.command.sequence
  {
  }

  lemma {:induction false} PlantFollowsDrives(l: Loop, turns: seq<Turn>)
    ensures |Drives(l, turns)| == |turns|
    ensures After(l, turns).plant == Run(l.plant, Drives(l, turns))
    ensures Reports(l) ==> Reports(After(l, turns))
  {
    if turns != [] {
      var earlier := turns[..|turns| - 1];
      PlantFollowsDrives(l, earlier);
      assert Drives(l, turns)[..|turns| - 1] == Drives(l, earlier);
    }
  }

  lemma {:induction false} SnapshotStaysInRange(snapshot: Snapshot, submissions: seq<Submission>)
    requires InRange(snapshot)
    ensures InRange(SubmitAll(snapshot, submissions))
  {
    SnapshotHoldsLastAccepted(snapshot, submissions);
  }

  lemma {:induction false} DrivesInRange(l: Loop, turns: seq<Turn>)
    requires InRange(l.snapshot)
    ensures TargetsInRange(Drives(l, turns))
    ensures InRange(After(l, turns).snapshot)
  {
    if turns != [] {
      DrivesInRange(l, turns[..|turns| - 1]);
      var before := After(l, turns[..|turns| - 1]).snapshot;
      SnapshotStaysInRange(before, turns[|turns| - 1].before);
      SnapshotStaysInRange(SubmitAll(before, turns[|turns| - 1].before), turns[|turns| - 1].after);
    }
  }

  /** The bounds on the published motion. */
  predicate MotionBounded(state: State) {
    && Abs(state.velocity) <= 5.0
    && Abs(state.position + 4.99 * state.velocity) <= 24.75
    && Abs(state.position) <= 49.7
  }

  lemma ReportsBounded(l: Loop, drives: seq<Drive>)
    requires Reports(l) && l.plant == Run(AT_REST, drives) && TargetsInRange(drives)
    ensures MotionBounded(l.state)
  {
    RunStaysBounded(AT_REST, drives);
  }

  /** Whatever is submitted and whenever, the published motion stays within bounds. */
  lemma PublishedMotionBounded(anchorMs: int, snapshot: Snapshot, turns: seq<Turn>)
    requires InRange(snapshot)
    ensures MotionBounded(After(Begin(anchorMs, snapshot), turns).state)
  {
    var l := Begin(anchorMs, snapshot);
    PlantFollowsDrives(l, turns);
    DrivesInRange(l, turns);
    ReportsBounded(After(l, turns), Drives(l, turns));
  }

  /** Over a whole run the published motion records exactly the effort spent. */
  lemma PublishedMotionConservesEffort(anchorMs: int, snapshot: Snapshot, turns: seq<Turn>)
    ensures var state := After(Begin(anchorMs, snapshot), turns).state;
      state.position + 4.99 * state.velocity
      == 0.05 * AppliedEffort(AT_REST, Drives(Begin(anchorMs, snapshot), turns))
  {
    var l := Begin(anchorMs, snapshot);
    PlantFollowsDrives(l, turns);
    CoastPointConservesEffort(AT_REST, Drives(l, turns));
  }

  /** After a fault the plant covers at most 4.99 times its velocity, for ever. */
  lemma TravelAfterFault(l: Loop, first: seq<Turn>, later: seq<Turn>)
    requires After(l, first).faulted
    ensures var latched := After(l, first);
      && Travel(latched.plant, Drives(latched, later)) <= 4.99 * Abs(latched.plant.velocity)
      && After(l, first + later).plant == Run(latched.plant, Drives(latched, later))
  {
    var latched := After(l, first);
    AfterAppends(l, first, later);
    FaultStays(latched, later);
    CoastTravel(latched.plant, Drives(latched, later));
    PlantFollowsDrives(latched, later);
  }

  // ----- Settling ----------------------------------------------------------------

  /** At every turn the plant may be driven, and the last accepted command is the same target. */
  ghost predicate HeldAt(anchorMs: int, turns: seq<Turn>, target: real) {
    turns != [] ==>
      && HeldAt(anchorMs, turns[..|turns| - 1], target)
      && MayDrive(anchorMs, turns) && LastAccepted(Visible(turns)).value.request.value.0 == Finite(target)
  }

  ghost predicate AllTowards(drives: seq<Drive>, target: real) {
    forall i :: 0 <= i < |drives| ==> drives[i] == Drive(target, true)
  }

  lemma LastTowards(anchorMs: int, snapshot: Snapshot, turns: seq<Turn>, target: real)
    requires !snapshot.valid && turns != [] && MayDrive(anchorMs, turns)
    requires LastAccepted(Visible(turns)).value.request.value.0 == Finite(target)
    ensures DriveOf(After(Begin(anchorMs, snapshot), turns[..|turns| - 1]), turns[|turns| - 1]) == Drive(target, true)
  {
    DriveExactly(anchorMs, snapshot, turns);
  }

  lemma TowardsAppends(drives: seq<Drive>, drive: Drive, target: real)
    requires AllTowards(drives, target) && drive == Drive(target, true)
    ensures AllTowards(drives + [drive], target)
  {
  }

  lemma {:induction false} DrivesHeld(anchorMs: int, snapshot: Snapshot, turns: seq<Turn>, target: real)
    requires !snapshot.valid && HeldAt(anchorMs, turns, target)
    ensures AllTowards(Drives(Begin(anchorMs, snapshot), turns), target)
  {
    if turns != [] {
      var l, earlier, last := Begin(anchorMs, snapshot), turns[..|turns| - 1], turns[|turns| - 1];
      DrivesHeld(anchorMs, snapshot, earlier, target);
      LastTowards(anchorMs, snapshot, turns, target);
      TowardsAppends(Drives(l, earlier), DriveOf(After(l, earlier), last), target);
    }
  }

  lemma SquareGrows(a: real, b: real)
    requires 0.0 <= a <= b
    ensures a * a <= b * b
  {
    assert a * a <= a * b <= b * b;
  }

  /** From rest, a target of magnitude at most 0.24 is near enough; the deviation is its square. */
  lemma StartsNear(target: real)
    requires -0.24 <= target <= 0.24
    ensures Deviation(AT_REST, target) == target * target <= 0.0595
  {
    if target < 0.0 {
      SquareGrows(-target, 0.24);
      assert -target * -target == target * target;
    } else {
      SquareGrows(target, 0.24);
    }
  }

  /**
   A run kept driving at one target of magnitude at most 0.24 settles on it from rest: after
   n turns the deviation of the published motion is exactly 0.988^n of that at the start.
   */
  lemma DrivenRunSettles(anchorMs: int, snapshot: Snapshot, turns: seq<Turn>, target: real)
    requires !snapshot.valid && HeldAt(anchorMs, turns, target) && -0.24 <= target <= 0.24
    ensures var state := After(Begin(anchorMs, snapshot), turns).state;
      Deviation(Motion(state.position, state.velocity), target)
      == Shrunk(Deviation(AT_REST, target), 0.988, |turns|)
  {
    var l := Begin(anchorMs, snapshot);
    StartsNear(target);
    DrivesHeld(anchorMs, snapshot, turns, target);
    PlantFollowsDrives(l, turns);
    Settles(AT_REST, target, Drives(l, turns));
  }
}
