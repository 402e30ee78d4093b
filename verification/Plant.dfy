/**
 The simulated plant of the static-control sample: a damped point mass driven by
 a saturated proportional-derivative effort, advanced once per 10 ms cycle.

 Positions, velocities and efforts are exact reals; float32 rounding is outside
 the model.
 */
module Plant {

  const PROPORTIONAL_GAIN := 4.0
  const DAMPING_GAIN := 1.0
  const DRAG := 0.2

  /** The period the control loop passes to every step, in seconds. */
  const PERIOD := 0.01

  datatype Motion = Motion(position: real, velocity: real) {
    /** Where the mass would come to rest if no further effort were applied. */
    function CoastPoint(): real {
      position + 4.99 * velocity
    }
  }

  /** One step's inputs: the commanded target and whether output is enabled. */
  datatype Drive = Drive(target: real, enabled: bool)

  datatype Output = Output(position: real, velocity: real, effort: real)

  const AT_REST := Motion(0.0, 0.0)

  function Abs(x: real): real {
    if x < 0.0 then -x else x
  }

  function Clamp(value: real, lower: real, upper: real): (r: real)
    requires lower <= upper
    ensures lower <= r <= upper
    ensures lower <= value <= upper ==> r == value
    ensures value < lower ==> r == lower
    ensures value > upper ==> r == upper
  {
    if value < lower then lower else if value > upper then upper else value
  }

  /** The effort the controller applies: none while output is disabled. */
  function Effort(m: Motion, d: Drive): (e: real)
    ensures -1.0 <= e <= 1.0
    ensures !d.enabled ==> e == 0.0
    ensures d.enabled ==>
      (e == 4.0 * (d.target - m.position) - m.velocity <==> -1.0 <= 4.0 * (d.target - m.position) - m.velocity <= 1.0)
  {
    if d.enabled then
      Clamp(4.0 * (d.target - m.position) - m.velocity, -1.0, 1.0)
    else
      0.0
  }

  /** Semi-implicit Euler over any period: the position uses the updated velocity. */
  function Integrate(m: Motion, effort: real, period: real): Motion {
    var velocity := m.velocity + (effort - DRAG * m.velocity) * period;
    Motion(m.position + velocity * period, velocity)
  }

  /** The same at the loop's own period, in closed form. */
  function Advance(m: Motion, effort: real): Motion {
    var velocity := 0.998 * m.velocity + 0.01 * effort;
    Motion(m.position + 0.01 * velocity, velocity)
  }

  lemma AdvanceIntegrates(m: Motion, effort: real)
    ensures Advance(m, effort) == Integrate(m, effort, PERIOD)
  {
  }

  class StaticControlPlant {
    var position: real
    var velocity: real

    ghost function View(): Motion
      reads this
    {
      Motion(position, velocity)
    }

    constructor ()
      ensures View() == AT_REST
    {
      position := 0.0;
      velocity := 0.0;
    }

    /** One in-place step. */
    method Step(target: real, period: real, enabled: bool) returns (output: Output)
      modifies this
      ensures output.effort == Effort(old(View()), Drive(target, enabled))
      ensures View() == Integrate(old(View()), output.effort, period)
      ensures output.position == position && output.velocity == velocity
    {
      var effort := 0.0;
      if enabled {
        effort := Clamp(PROPORTIONAL_GAIN * (target - position) - DAMPING_GAIN * velocity, -1.0, 1.0);
      }
      var acceleration := effort - DRAG * velocity;
      velocity := velocity + acceleration * period;
      position := position + velocity * period;
      output := Output(position, velocity, effort);
    }
  }

  // ----- Regulation in one step --------------------------------------------------

  /** With output enabled, the effort has the sign of four times the distance left less the velocity. */
  lemma EffortSeeksTarget(m: Motion, target: real)
    ensures var e := Effort(m, Drive(target, true));
      && (e > 0.0 <==> 4.0 * (target - m.position) > m.velocity)
      && (e == 0.0 <==> 4.0 * (target - m.position) == m.velocity)
      && (e < 0.0 <==> 4.0 * (target - m.position) < m.velocity)
      && (e == 1.0 <==> 4.0 * (target - m.position) - m.velocity >= 1.0)
      && (e == -1.0 <==> 4.0 * (target - m.position) - m.velocity <= -1.0)
  {
  }

  /** An enabled step leaves a motion as it is exactly if the mass rests on the target. */
  lemma RestsOnTargetExactly(m: Motion, target: real)
    ensures Advance(m, Effort(m, Drive(target, true))) == m <==> m == Motion(target, 0.0)
  {
    EffortSeeksTarget(m, target);
  }

  // ----- Whole runs --------------------------------------------------------------

  /** The motion after every drive of a run, in order. */
  function Run(m: Motion, drives: seq<Drive>): Motion {
    if drives == [] then m
    else
      var before := Run(m, drives[..|drives| - 1]);
      Advance(before, Effort(before, drives[|drives| - 1]))
  }

  /** The sum of the efforts actually applied over a run. */
  function AppliedEffort(m: Motion, drives: seq<Drive>): real {
    if drives == [] then 0.0
    else
      var earlier := drives[..|drives| - 1];
      AppliedEffort(m, earlier) + Effort(Run(m, earlier), drives[|drives| - 1])
  }

  /** The distance covered over a run, forwards and backwards both counted. */
  function Travel(m: Motion, drives: seq<Drive>): real {
    if drives == [] then 0.0
    else
      var earlier := drives[..|drives| - 1];
      Travel(m, earlier) + Abs(Run(m, drives).position - Run(m, earlier).position)
  }

  predicate Bounded(m: Motion) {
    Abs(m.velocity) <= 5.0 && Abs(m.CoastPoint()) <= 24.75
  }

  ghost predicate TargetsInRange(drives: seq<Drive>) {
    forall i :: 0 <= i < |drives| ==> -1.0 <= drives[i].target <= 1.0
  }

  /** An effort moves the coasting point by exactly a twentieth of itself. */
  lemma AdvanceMovesCoastPoint(m: Motion, effort: real)
    ensures Advance(m, effort).CoastPoint() == m.CoastPoint() + 0.05 * effort
  {
    var velocity := 0.998 * m.velocity + 0.01 * effort;
    calc {
      Advance(m, effort).CoastPoint();
      m.position + 0.01 * velocity + 4.99 * velocity;
      m.position + 5.0 * velocity;
      m.CoastPoint() + 0.05 * effort;
    }
  }

  /** Beyond a coasting point of 24.7 the saturated controller never pushes further outwards. */
  lemma EffortOpposesEscape(m: Motion, d: Drive)
    requires Abs(m.velocity) <= 5.0 && -1.0 <= d.target <= 1.0
    ensures m.CoastPoint() > 24.7 ==> Effort(m, d) <= 0.0
    ensures m.CoastPoint() < -24.7 ==> Effort(m, d) >= 0.0
  {
    var raw := 4.0 * (d.target - m.position) - m.velocity;
    assert raw == 4.0 * d.target - 4.0 * m.CoastPoint() + 18.96 * m.velocity;
  }

  lemma StepStaysBounded(m: Motion, d: Drive)
    requires Bounded(m) && -1.0 <= d.target <= 1.0
    ensures Bounded(Advance(m, Effort(m, d)))
  {
    AdvanceMovesCoastPoint(m, Effort(m, d));
    EffortOpposesEscape(m, d);
  }

  /** No pattern of in-range targets and enabling can drive the plant out of bounds. */
  lemma {:induction false} RunStaysBounded(m: Motion, drives: seq<Drive>)
    requires Bounded(m) && TargetsInRange(drives)
    ensures Bounded(Run(m, drives))
    ensures Abs(Run(m, drives).position) <= 49.7
  {
    if drives != [] {
      var earlier := drives[..|drives| - 1];
      RunStaysBounded(m, earlier);
      StepStaysBounded(Run(m, earlier), drives[|drives| - 1]);
    }
  }

  /** Over any run the coasting point records exactly the effort spent. */
  lemma {:induction false} CoastPointConservesEffort(m: Motion, drives: seq<Drive>)
    ensures Run(m, drives).CoastPoint() == m.CoastPoint() + 0.05 * AppliedEffort(m, drives)
  {
    if drives != [] {
      var earlier := drives[..|drives| - 1];
      CoastPointConservesEffort(m, earlier);
      AdvanceMovesCoastPoint(Run(m, earlier), Effort(Run(m, earlier), drives[|drives| - 1]));
    }
  }

  ghost predicate AllDisabled(drives: seq<Drive>) {
    forall i :: 0 <= i < |drives| ==> !drives[i].enabled
  }

  /** The two motions travel the same way and the second no faster. */
  predicate Slowed(from: Motion, to: Motion) {
    if from.velocity >= 0.0 then 0.0 <= to.velocity <= from.velocity
    else from.velocity <= to.velocity <= 0.0
  }

  /**
   With output disabled the plant keeps its direction, the distance covered is
   exactly 4.99 times the velocity lost, and so never exceeds 4.99 times the
   velocity it started with.
   */
  lemma {:induction false} CoastTravel(m: Motion, drives: seq<Drive>)
    requires AllDisabled(drives)
    ensures Slowed(m, Run(m, drives))
    ensures Run(m, drives).CoastPoint() == m.CoastPoint()
    ensures Travel(m, drives) == 4.99 * (Abs(m.velocity) - Abs(Run(m, drives).velocity))
    ensures Travel(m, drives) <= 4.99 * Abs(m.velocity)
  {
    if drives != [] {
      var earlier := drives[..|drives| - 1];
      CoastTravel(m, earlier);
      AdvanceMovesCoastPoint(Run(m, earlier), 0.0);
    }
  }

  // ----- Constant effort ---------------------------------------------------------

  /** What is left of a value once a ratio has been taken of it `n` times. */
  function Shrunk(x: real, ratio: real, n: nat): real {
    if n == 0 then x else ratio * Shrunk(x, ratio, n - 1)
  }

  /** Every step of the run applies the same effort. */
  ghost predicate Steady(m: Motion, drives: seq<Drive>, effort: real) {
    drives != [] ==>
      var earlier := drives[..|drives| - 1];
      Steady(m, earlier, effort) && Effort(Run(m, earlier), drives[|drives| - 1]) == effort
  }

  /**
   The motion under a constant effort, in closed form: the velocity closes in on five
   times the effort, losing 0.2 percent of the difference in each step.
   */
  lemma {:induction false} SteadyMotion(m: Motion, drives: seq<Drive>, effort: real)
    requires Steady(m, drives, effort)
    ensures Run(m, drives).velocity == 5.0 * effort + Shrunk(m.velocity - 5.0 * effort, 0.998, |drives|)
    ensures Run(m, drives).position ==
      m.position + 0.05 * AppliedEffort(m, drives) + 4.99 * (m.velocity - Run(m, drives).velocity)
  {
    CoastPointConservesEffort(m, drives);
    if drives != [] {
      SteadyMotion(m, drives[..|drives| - 1], effort);
    }
  }

  // ----- Settling on the target --------------------------------------------------

  /** How far a motion is from rest on the target, as a quadratic form. */
  function Deviation(m: Motion, target: real): real {
    Form(m.position - target, m.velocity)
  }

  function Form(y: real, v: real): real {
    y * y + 0.29 * (y * v) + 0.247 * (v * v)
  }

  lemma FormBounds(y: real, v: real)
    ensures 0.0 <= y * y <= 1.1 * Form(y, v)
    ensures 0.0 <= v * v <= 4.5 * Form(y, v)
  {
    var a, b := y + 1.595 * v, y + 0.145 * v;
    assert 1.1 * Form(y, v) - y * y == 0.1 * (a * a) + 0.0172975 * (v * v);
    assert 4.5 * Form(y, v) - v * v == 4.5 * (b * b) + 0.0168875 * (v * v);
  }

  lemma FormBoundsEffort(y: real, v: real)
    requires Form(y, v) <= 0.0595
    ensures -1.0 <= 4.0 * y + v <= 1.0
  {
    var raw, c := 4.0 * y + v, y - 1.955 * v;
    assert 16.8 * Form(y, v) - raw * raw == 0.8 * (c * c) + 0.09198 * (v * v);
    SquareBounds(raw);
  }

  lemma SquareBounds(x: real)
    requires x * x <= 1.0
    ensures -1.0 <= x <= 1.0
  {
  }

  /** The deviation bounds the squares of distance and velocity. */
  lemma DeviationBounds(m: Motion, target: real, distance: real)
    requires distance == m.position - target
    ensures distance * distance <= 1.1 * Deviation(m, target)
    ensures m.velocity * m.velocity <= 4.5 * Deviation(m, target)
  {
    FormBounds(distance, m.velocity);
  }

  lemma DeviationPositive(m: Motion, target: real)
    ensures Deviation(m, target) >= 0.0
  {
    FormBounds(m.position - target, m.velocity);
  }

  /** The step the unsaturated controller takes, in these coordinates. */
  lemma FormShrinks(y: real, v: real)
    ensures Form(0.9996 * y + 0.00988 * v, 0.988 * v - 0.04 * y) == 0.988 * Form(y, v)
  {
  }

  /** Near the target each step takes exactly 1.2 percent off the deviation. */
  lemma DeviationShrinks(m: Motion, target: real)
    requires Deviation(m, target) <= 0.0595
    ensures Deviation(Advance(m, Effort(m, Drive(target, true))), target) == 0.988 * Deviation(m, target)
  {
    var y, v := m.position - target, m.velocity;
    FormBoundsEffort(y, v);
    var next := Advance(m, Effort(m, Drive(target, true)));
    assert next.velocity == 0.988 * v - 0.04 * y;
    assert next.position - target == 0.9996 * y + 0.00988 * v;
    FormShrinks(y, v);
  }

  lemma {:induction false} ShrunkWithin(x: real, n: nat)
    requires 0.0 <= x
    ensures 0.0 <= Shrunk(x, 0.988, n) <= x
  {
    if n > 0 {
      ShrunkWithin(x, n - 1);
    }
  }

  /**
   Once near enough, a plant driven at one target settles on it: the deviation falls by
   exactly the factor 0.988 in every step, and distance and velocity with it.
   */
  lemma {:induction false} Settles(m: Motion, target: real, drives: seq<Drive>)
    requires Deviation(m, target) <= 0.0595
    requires forall i :: 0 <= i < |drives| ==> drives[i] == Drive(target, true)
    ensures Deviation(Run(m, drives), target) == Shrunk(Deviation(m, target), 0.988, |drives|)
  {
    if drives != [] {
      var earlier := drives[..|drives| - 1];
      Settles(m, target, earlier);
      DeviationPositive(m, target);
      ShrunkWithin(Deviation(m, target), |earlier|);
      DeviationShrinks(Run(m, earlier), target);
    }
  }
}
