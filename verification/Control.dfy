/**
 The 100 Hz control thread of the static-control sample: command snapshot,
 release and deadline accounting, the latched fault and the published state.

 A run of the thread is a sequence of turns.  Each turn carries what the outside
 world supplies to one pass of the loop: the timer's release count, the two clock
 readings, and the submissions that reach the command snapshot before and after
 the thread reads it.  Since snapshot accesses are atomic under their spinlocks,
 turns cover every interleaving of the submitting thread with the control thread.
 */
module Control {
  import opened Common
  import opened Plant
  import opened Words

  const CONTROL_PERIOD_MS := 10
  const CONTROL_DEADLINE_MS := 10
  const COMMAND_EXPIRY_MS := 250

  datatype Status = Disabled | Active | Stale | Fault

  datatype Target = Finite(value: real) | NotFinite

  /** What a caller hands to submit: possibly no command at all. */
  datatype Submission = Submission(request: Option<(Target, nat)>, receiptMs: int)

  datatype Command = Command(target: real, sequence: nat)

  datatype Snapshot = Snapshot(command: Command, receiptMs: int, valid: bool)

  datatype State = State(
    position: real,
    velocity: real,
    effort: real,
    commandSequence: nat,
    controlCycles: nat,
    skippedReleases: nat,
    maxReleaseLatenessUs: nat,
    status: Status)

  const INITIAL_STATE := State(0.0, 0.0, 0.0, 0, 0, 0, 0, Disabled)

  datatype Turn = Turn(
    before: seq<Submission>,
    releases: nat,
    startMs: int,
    after: seq<Submission>,
    completionMs: int)

  // ----- Command snapshot --------------------------------------------------------

  predicate Accepts(s: Submission) {
    && s.request.Some?
    && s.request.value.0.Finite?
    && -1.0 <= s.request.value.0.value <= 1.0
    && s.receiptMs >= 0
  }

  function Taken(s: Submission): Snapshot
    requires Accepts(s)
  {
    Snapshot(Command(s.request.value.0.value, s.request.value.1), s.receiptMs, true)
  }

  function SubmitAll(snapshot: Snapshot, submissions: seq<Submission>): Snapshot {
    if submissions == [] then snapshot
    else
      var s := submissions[|submissions| - 1];
      if Accepts(s) then Taken(s) else SubmitAll(snapshot, submissions[..|submissions| - 1])
  }

  predicate Fresh(snapshot: Snapshot, startMs: int) {
    snapshot.valid && snapshot.receiptMs <= startMs <= snapshot.receiptMs + COMMAND_EXPIRY_MS
  }

  predicate InRange(snapshot: Snapshot) {
    -1.0 <= snapshot.command.target <= 1.0
  }

  // ----- One pass of the loop ----------------------------------------------------

  /** Everything the control thread carries from one pass to the next. */
  datatype Loop = Loop(
    plant: Motion,
    state: State,
    scheduledMs: int,
    faulted: bool,
    snapshot: Snapshot)

  function Begin(nowMs: int, snapshot: Snapshot): Loop {
    Loop(AT_REST, INITIAL_STATE, nowMs + 10, false, snapshot)
  }

  /** The drive the plant receives in a turn. */
  function DriveOf(l: Loop, t: Turn): Drive {
    var read := SubmitAll(l.snapshot, t.before);
    var scheduled := l.scheduledMs + t.releases * 10;
    var faulted := l.faulted || t.releases > 1 || t.startMs > scheduled;
    Drive(read.command.target, Fresh(read, t.startMs) && !faulted)
  }

  /** Lateness as reported: microseconds in 32 bits, nothing for an early start. */
  function ReportedLateness(ms: int): nat {
    if ms > 0 then Wrap(Wrap(ms) * 1000) else 0
  }

  function Cycle(l: Loop, t: Turn): Loop {
    var read := SubmitAll(l.snapshot, t.before);
    var scheduled := l.scheduledMs + t.releases * 10;
    var effort := Effort(l.plant, DriveOf(l, t));
    var plant := Advance(l.plant, effort);
    var faulted := l.faulted || t.releases > 1 || t.startMs > scheduled || t.completionMs > scheduled;
    var latenessMs := t.startMs - l.scheduledMs;
    var state := State(
      plant.position,
      plant.velocity,
      if faulted then 0.0 else effort,
      read.command.sequence,
      Wrap(l.state.controlCycles + 1),
      if t.releases > 1 then Wrap(l.state.skippedReleases + t.releases - 1) else l.state.skippedReleases,
      Max(l.state.maxReleaseLatenessUs, ReportedLateness(latenessMs)),
      if faulted then Fault
      else if !read.valid then Disabled
      else if !Fresh(read, t.startMs) then Stale
      else Active);
    Loop(plant, state, scheduled, faulted, SubmitAll(read, t.after))
  }

  /** The loop after every turn of a run. */
  function After(l: Loop, turns: seq<Turn>): Loop {
    if turns == [] then l else Cycle(After(l, turns[..|turns| - 1]), turns[|turns| - 1])
  }

  /** The states published initially and after each turn. */
  function History(l: Loop, turns: seq<Turn>): (states: seq<State>)
    ensures |states| == |turns| + 1
  {
    (if turns == [] then [] else History(l, turns[..|turns| - 1])) + [After(l, turns).state]
  }

  lemma PublishNext(l: Loop, turns: seq<Turn>, i: nat, before: Loop, history: seq<State>, next: Loop)
    requires i < |turns| && before == After(l, turns[..i]) && history == History(l, turns[..i])
    requires next == Cycle(before, turns[i])
    ensures next == After(l, turns[..i + 1])
    ensures history + [next.state] == History(l, turns[..i + 1])
  {
    assert turns[..i + 1][..i] == turns[..i];
  }

  /** Every published state is the state after that many turns. */
  lemma {:induction false} PublishedAt(l: Loop, turns: seq<Turn>, k: nat)
    requires k <= |turns|
    ensures History(l, turns)[k] == After(l, turns[..k]).state
    decreases |turns|
  {
    if k == |turns| {
      assert turns[..k] == turns;
    } else {
      PublishedAt(l, turns[..|turns| - 1], k);
      assert turns[..|turns| - 1][..k] == turns[..k];
    }
  }

  // ----- The component as the source writes it -----------------------------------

  class StaticControl {
    var command: Command
    var receiptMs: int
    var valid: bool
    var published: State
    var running: bool

    ghost function View(): Snapshot
      reads this
    {
      Snapshot(command, receiptMs, valid)
    }

    constructor ()
      ensures !running && !valid && InRange(View())
      ensures published == State(0.0, 0.0, 0.0, 0, 0, 0, 0, Disabled)
    {
      command := Command(0.0, 0);
      receiptMs := 0;
      valid := false;
      published := INITIAL_STATE;
      running := false;
    }

    /** Starting invalidates any earlier command but keeps its stored value. */
    method Start() returns (started: bool)
      modifies this
      ensures started == !old(running) && running
      ensures !started ==> View() == old(View()) && published == old(published)
      ensures started ==> View() == old(View()).(valid := false)
      ensures started ==> published == State(0.0, 0.0, 0.0, 0, 0, 0, 0, Disabled)
    {
      if running {
        return false;
      }
      running := true;
      valid := false;
      published := INITIAL_STATE;
      return true;
    }

    method Submit(s: Submission) returns (accepted: bool)
      modifies this`command, this`receiptMs, this`valid
      ensures accepted <==>
        && s.receiptMs >= 0 && s.request.Some?
        && s.request.value.0.Finite? && -1.0 <= s.request.value.0.value <= 1.0
      ensures accepted ==> s.request == Some((Finite(command.target), command.sequence)) && receiptMs == s.receiptMs && valid
      ensures !accepted ==> View() == old(View())
      ensures accepted == Accepts(s) && View() == SubmitAll(old(View()), [s])
    {
      if s.request.None? || s.request.value.0.NotFinite? {
        return false;
      }
      var target := s.request.value.0.value;
      if target < -1.0 || target > 1.0 || s.receiptMs < 0 {
        return false;
      }
      command := Command(target, s.request.value.1);
      receiptMs := s.receiptMs;
      valid := true;
      return true;
    }

    /** The other thread's submissions during one stretch of the control thread. */
    method Interleave(submissions: seq<Submission>)
      modifies this`command, this`receiptMs, this`valid
      ensures View() == SubmitAll(old(View()), submissions)
    {
      var i := 0;
      while i < |submissions|
        invariant 0 <= i <= |submissions|
        invariant View() == SubmitAll(old(View()), submissions[..i])
      {
        var _ := Submit(submissions[i]);
        assert submissions[..i + 1][..i] == submissions[..i];
        i := i + 1;
      }
      assert submissions[..|submissions|] == submissions;
    }

    /** One pass of the loop body, with the thread's locals passed through. */
    method Pass(plant: StaticControlPlant, local: State, localScheduledMs: int, localFaulted: bool, turn: Turn)
      returns (state: State, scheduledReleaseMs: int, faulted: bool)
      modifies this, plant
      ensures running == old(running) && published == state
      ensures Loop(plant.View(), state, scheduledReleaseMs, faulted, View())
           == Cycle(old(Loop(plant.View(), local, localScheduledMs, localFaulted, View())), turn)
    {
      state, scheduledReleaseMs, faulted := local, localScheduledMs, localFaulted;
      var latenessMs := turn.startMs - scheduledReleaseMs;
      if latenessMs > 0 {
        state := state.(maxReleaseLatenessUs := Max(state.maxReleaseLatenessUs, Wrap(Wrap(latenessMs) * 1000)));
      }
      if turn.releases > 1 {
        state := state.(skippedReleases := Wrap(state.skippedReleases + turn.releases - 1));
        faulted := true;
      }
      scheduledReleaseMs := scheduledReleaseMs + turn.releases * CONTROL_PERIOD_MS;

      Interleave(turn.before);
      var read, readReceiptMs, commandValid := command, receiptMs, valid;
      var commandFresh :=
        commandValid && turn.startMs >= readReceiptMs && turn.startMs - readReceiptMs <= COMMAND_EXPIRY_MS;
      if turn.startMs > scheduledReleaseMs {
        faulted := true;
      }

      ghost var before := plant.View();
      var output := plant.Step(read.target, PERIOD, commandFresh && !faulted);
      AdvanceIntegrates(before, output.effort);
      Interleave(turn.after);
      if turn.completionMs > scheduledReleaseMs - CONTROL_PERIOD_MS + CONTROL_DEADLINE_MS {
        faulted := true;
        output := output.(effort := 0.0);
      }

      state := state.(
        position := output.position,
        velocity := output.velocity,
        effort := if faulted then 0.0 else output.effort,
        commandSequence := read.sequence,
        controlCycles := Wrap(state.controlCycles + 1),
        status := if faulted then Fault
                  else if !commandValid then Disabled
                  else if !commandFresh then Stale
                  else Active);
      published := state;
    }

    /**
     The control thread: one pass of the loop per turn, until stop is observed
     where the turns end.  Returns every state it published, in order.
     */
    method ControlEntry(nowMs: int, turns: seq<Turn>) returns (history: seq<State>)
      requires running
      modifies this
      ensures !running
      ensures history == History(Begin(nowMs, old(View())), turns)
      ensures history[0] == State(0.0, 0.0, 0.0, 0, 0, 0, 0, Disabled)
      ensures published == history[|turns|]
      ensures View() == After(Begin(nowMs, old(View())), turns).snapshot
    {
      ghost var first := Begin(nowMs, View());
      var plant := new StaticControlPlant();
      var state, scheduledReleaseMs, faulted := INITIAL_STATE, nowMs + CONTROL_PERIOD_MS, false;
      published := state;
      history := [state];
      ghost var loop := first;
      var i := 0;
      while i < |turns|
        invariant fresh(plant)
        invariant 0 <= i <= |turns|
        invariant loop == Loop(plant.View(), state, scheduledReleaseMs, faulted, View())
        invariant loop == After(first, turns[..i])
        invariant published == state && history == History(first, turns[..i])
        invariant history[0] == INITIAL_STATE
      {
        ghost var next := Cycle(loop, turns[i]);
        state, scheduledReleaseMs, faulted := Pass(plant, state, scheduledReleaseMs, faulted, turns[i]);
        PublishNext(first, turns, i, loop, history, next);
        history := history + [state];
        loop := next;
        i := i + 1;
      }
      assert turns[..|turns|] == turns;
      running := false;
    }
  }
}
