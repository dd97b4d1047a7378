/**
 * The fixed-step clock and the callback protocol of a physics level (code/addons/physics/level.cc):
 * Trigger runs whole steps until the simulated time has caught up with the time that was set.
 * Times are exact reals.
 */
module LevelClock {

  type EntityId = nat

  // ----- the clock -----

  /** The lag is negative or above half a second, so a Trigger at `time` makes the simulated time jump. */
  predicate Snaps(sim: real, time: real) {
    time - sim < 0.0 || time - sim > 0.5
  }

  function Start(sim: real, time: real): real {
    if Snaps(sim, time) then time else sim
  }

  function Ceil(x: real): int {
    -(-x).Floor
  }

  function Times(n: int, step: real): real {
    n as real * step
  }

  /** How many steps a Trigger makes. */
  function Steps(sim: real, time: real, step: real): (k: int)
    requires step > 0.0
    ensures 0 <= k
  {
    CeilNotNegative(time - Start(sim, time), step);
    Ceil((time - Start(sim, time)) / step)
  }

  lemma CeilNotNegative(lag: real, step: real)
    requires lag >= 0.0 && step > 0.0
    ensures Ceil(lag / step) >= 0
  {
    assert lag / step >= 0.0;
  }

  /** The simulated time a Trigger leaves. */
  function SimAfter(sim: real, time: real, step: real): real
    requires step > 0.0
  {
    Start(sim, time) + Times(Steps(sim, time, step), step)
  }

  /** The ceiling is the one number of steps that reaches the lag and does not overshoot by a whole step. */
  lemma {:induction false} CeilIff(lag: real, step: real, k: int)
    requires step > 0.0
    ensures Times(k, step) >= lag > Times(k - 1, step) <==> k == Ceil(lag / step)
  {
    var x := lag / step;
    assert lag == x * step;
    TimesOrder(k, x, step);
    TimesOrder(k - 1, x, step);
    var c := (-x).Floor;
    assert c as real <= -x < c as real + 1.0;
    assert (-c) as real >= x > (-c - 1) as real;
    if k as real >= x > (k - 1) as real {
      assert k == -c;
    }
  }

  lemma TimesOrder(n: int, x: real, step: real)
    requires step > 0.0
    ensures Times(n, step) >= x * step <==> n as real >= x
  {
    var y := n as real;
    assert y * step - x * step == (y - x) * step;
    if y >= x {
      assert (y - x) * step >= 0.0;
    } else {
      assert (x - y) * step > 0.0;
    }
  }

  lemma TimesAdd(n: int, m: int, step: real)
    ensures Times(n + m, step) == Times(n, step) + Times(m, step)
    ensures Times(1, step) == step && Times(0, step) == 0.0
  {
    assert (n + m) as real == n as real + m as real;
  }

  /** After a Trigger the simulated time is at or ahead of the real one, by less than a step. */
  lemma CaughtUp(sim: real, time: real, step: real)
    requires step > 0.0
    ensures time <= SimAfter(sim, time, step) < time + step
  {
    hide Times, Ceil;
    var lag := time - Start(sim, time);
    CeilIff(lag, step, Ceil(lag / step));
    TimesAdd(Ceil(lag / step) - 1, 1, step);
  }

  /** Simulated time advances by whole steps exactly when the lag was in range; a jump makes no step at all. */
  lemma WholeStepsIff(sim: real, time: real, step: real)
    requires step > 0.0
    ensures SimAfter(sim, time, step) == sim + Times(Steps(sim, time, step), step) <==> 0.0 <= time - sim <= 0.5
    ensures !(0.0 <= time - sim <= 0.5) ==> Steps(sim, time, step) == 0 && SimAfter(sim, time, step) == time
  {
    hide Times, Ceil;
    TimesAdd(0, 0, step);
    CeilIff(0.0, step, 0);
    TimesAdd(-1, 1, step);
    assert 0.0 / step == 0.0;
  }

  /** simSteps, taken before the loop by truncation, is the number of steps made, or one less. */
  lemma SimStepsBound(lag: real, step: real)
    requires lag >= 0.0 && step > 0.0
    ensures (lag / step).Floor == Ceil(lag / step) || (lag / step).Floor == Ceil(lag / step) - 1
    ensures (lag / step).Floor == Ceil(lag / step) <==> Times(Ceil(lag / step), step) == lag
  {
    var x := lag / step;
    assert lag == x * step;
    TimesOrder(Ceil(x), x, step);
    if Times(Ceil(x), step) == lag {
      TimesOrder(Ceil(x), x, step);
      assert Ceil(x) as real >= x;
      var y := Ceil(x) as real;
      assert (y - x) * step == 0.0;
      assert y == x;
    }
  }

  // ----- runs of frames -----

  /** Simulated time, steps made and jumped distance over a run of Triggers at the given times. */
  datatype Tally = Tally(sim: real, steps: int, jumped: real)

  function Run(sim: real, times: seq<real>, step: real): Tally
    requires step > 0.0
  {
    if times == [] then Tally(sim, 0, 0.0)
    else
      var before := Run(sim, times[..|times| - 1], step);
      var time := times[|times| - 1];
      Tally(SimAfter(before.sim, time, step),
            before.steps + Steps(before.sim, time, step),
            before.jumped + Start(before.sim, time) - before.sim)
  }

  /** No time is lost: simulated time is made of steps and of jumps. */
  lemma {:induction false} TimeIsStepsAndJumps(sim: real, times: seq<real>, step: real)
    requires step > 0.0
    ensures var r := Run(sim, times, step); r.sim == sim + Times(r.steps, step) + r.jumped
  {
    hide Times, SimAfter, Steps, Start;
    TimesAdd(0, 0, step);
    if times != [] {
      var before := Run(sim, times[..|times| - 1], step);
      var time := times[|times| - 1];
      TimeIsStepsAndJumps(sim, times[..|times| - 1], step);
      TimesAdd(before.steps, Steps(before.sim, time, step), step);
      SimAfterSum(before.sim, time, step);
    }
  }

  lemma SimAfterSum(sim: real, time: real, step: real)
    requires step > 0.0
    ensures SimAfter(sim, time, step) == Start(sim, time) + Times(Steps(sim, time, step), step)
  {
  }

  /** The number of steps of a run depends only on the first and the last time, and on the jumps. */
  lemma StepsOfRun(sim: real, times: seq<real>, step: real)
    requires step > 0.0 && times != []
    ensures var r := Run(sim, times, step);
      r.steps == Ceil((times[|times| - 1] - sim - r.jumped) / step)
  {
    hide Times, Ceil, Steps, SimAfter;
    var r := Run(sim, times, step);
    var last := times[|times| - 1];
    TimeIsStepsAndJumps(sim, times, step);
    CaughtUp(Run(sim, times[..|times| - 1], step).sim, last, step);
    TimesAdd(r.steps - 1, 1, step);
    CeilIff(last - sim - r.jumped, step, r.steps);
  }

  /** Frames at least a step and at most half a second apart. */
  predicate Paced(times: seq<real>, step: real) {
    forall i :: 0 < i < |times| ==> step <= times[i] - times[i - 1] <= 0.5
  }

  /** Such a run makes the steps a single Trigger at its end would account for: the frame rate does not matter. */
  lemma {:induction false} FrameRateDoesNotMatter(sim: real, times: seq<real>, step: real)
    requires step > 0.0 && times != [] && Paced(times, step) && 0.0 <= times[0] - sim <= 0.5
    ensures Run(sim, times, step).steps == Ceil((times[|times| - 1] - sim) / step)
  {
    hide Times, Ceil, Steps, SimAfter;
    NoJumps(sim, times, step);
    StepsOfRun(sim, times, step);
  }

  lemma {:induction false} NoJumps(sim: real, times: seq<real>, step: real)
    requires step > 0.0 && times != [] && Paced(times, step) && 0.0 <= times[0] - sim <= 0.5
    ensures Run(sim, times, step).jumped == 0.0
  {
    hide Times, Ceil, Steps, SimAfter;
    var prior := times[..|times| - 1];
    if prior == [] {
      assert Run(sim, prior, step) == Tally(sim, 0, 0.0);
    } else {
      NoJumps(sim, prior, step);
      var time := times[|times| - 2];
      assert prior[|prior| - 1] == time && Run(sim, prior, step).sim == SimAfter(Run(sim, prior[..|prior| - 1], step).sim, time, step);
      CaughtUp(Run(sim, prior[..|prior| - 1], step).sim, time, step);
    }
  }

  /** What a Trigger at `time` may leave (see CaughtUp). */
  predicate InTime(sim: real, time: real, step: real) {
    time <= sim < time + step
  }

  /** A frame distance is safe, whatever the last frame left, exactly between the step size and half a second. */
  lemma PacedIff(time: real, distance: real, step: real)
    requires step > 0.0
    ensures (forall sim :: InTime(sim, time, step) ==> Start(sim, time + distance) == sim) <==> step <= distance <= 0.5
  {
    if distance < step {
      // Some simulated time lies between the next frame and the end of the overshoot.
      var sim := if distance <= 0.0 then time + step / 2.0 else time + (distance + step) / 2.0;
      assert InTime(sim, time, step) && Snaps(sim, time + distance);
    } else if distance > 0.5 {
      assert InTime(time, time, step) && Snaps(time, time + distance);
    }
  }

  /** `n` frames `distance` apart, the first one `distance` after zero. */
  function Frames(n: nat, distance: real): (times: seq<real>)
    ensures |times| == n
  {
    if n == 0 then [] else Frames(n - 1, distance) + [Times(n, distance)]
  }

  /**
   * Frames shorter than half a step do matter: every second one finds the simulated time ahead and
   * throws the overshoot away, so `n` steps are made in 2n frames, however little time these take.
   */
  lemma {:induction false} ShortFramesRunFast(n: nat, distance: real, step: real)
    requires 0.0 < distance && 2.0 * distance < step && distance <= 0.5
    ensures Run(0.0, Frames(2 * n, distance), step).steps == n
    ensures Run(0.0, Frames(2 * n, distance), step).sim == Times(2 * n, distance)
  {
    hide Times, Steps, SimAfter, Run, Frames, Snaps;
    if n == 0 {
      NoFrames(distance, step);
    } else {
      ShortFramesRunFast(n - 1, distance, step);
      TwoShortFrames(2 * n - 2, distance, step);
    }
  }

  lemma NoFrames(distance: real, step: real)
    requires step > 0.0
    ensures Run(0.0, Frames(0, distance), step) == Tally(0.0, 0, 0.0) && Times(0, distance) == 0.0
  {
    hide Steps, SimAfter;
  }

  /** One step, and the overshoot thrown away. */
  lemma TwoShortFrames(n: nat, distance: real, step: real)
    requires 0.0 < distance && 2.0 * distance < step && distance <= 0.5
    requires Run(0.0, Frames(n, distance), step).sim == Times(n, distance)
    ensures Run(0.0, Frames(n + 2, distance), step).steps == Run(0.0, Frames(n, distance), step).steps + 1
    ensures Run(0.0, Frames(n + 2, distance), step).sim == Times(n + 2, distance)
  {
    hide Times, Steps, SimAfter, Run, Frames, Snaps;
    NextFrame(n, distance, step);
    NextFrame(n + 1, distance, step);
    assert n + 1 + 1 == n + 2;
    OneShortFrame(Times(n, distance), distance, step);
    ThrownAway(Times(n, distance) + step, Times(n + 2, distance), step);
  }

  lemma NextFrame(n: nat, distance: real, step: real)
    requires step > 0.0
    ensures Times(n + 1, distance) == Times(n, distance) + distance
    ensures var before := Run(0.0, Frames(n, distance), step);
      var after := Run(0.0, Frames(n + 1, distance), step);
      && after.sim == SimAfter(before.sim, Times(n + 1, distance), step)
      && after.steps == before.steps + Steps(before.sim, Times(n + 1, distance), step)
      && after.jumped == before.jumped + Start(before.sim, Times(n + 1, distance)) - before.sim
  {
    hide Times, Steps, SimAfter;
    TimesAdd(n, 1, distance);
    assert Frames(n + 1, distance)[..n] == Frames(n, distance);
  }

  /** A Trigger that finds the simulated time ahead makes no step and takes it back. */
  lemma ThrownAway(sim: real, time: real, step: real)
    requires step > 0.0 && time < sim
    ensures Steps(sim, time, step) == 0 && SimAfter(sim, time, step) == time
  {
    hide Times, Steps, SimAfter;
    WholeStepsIff(sim, time, step);
  }

  /** From a level in time with itself, a short frame makes one step. */
  lemma OneShortFrame(sim: real, distance: real, step: real)
    requires 0.0 < distance < step && distance <= 0.5
    ensures Steps(sim, sim + distance, step) == 1
    ensures SimAfter(sim, sim + distance, step) == sim + step
  {
    hide Times, Ceil;
    TimesAdd(0, 1, step);
    CeilIff(distance, step, 1);
    assert sim + distance - sim == distance;
  }

  // ----- which uniform frames keep pace -----

  /** How far the clock has jumped after n frames of the given distance. */
  function JumpedBy(n: nat, distance: real, step: real): real
    requires step > 0.0
  {
    Run(0.0, Frames(n, distance), step).jumped
  }

  /** The distance is 0, 1/2, 2/3, 3/4, ... of the step size. */
  ghost predicate IsUnitShort(distance: real, step: real) {
    exists q: nat :: q > 0 && Times(q, distance) == Times(q - 1, step)
  }

  /**
   * Frames of one distance never make the clock jump exactly if the distance is at most half a second and at
   * least a step, or short of a step by one n-th of it; any other distance is thrown out of pace in time.
   */
  lemma UniformFramesIff(distance: real, step: real)
    requires step > 0.0
    ensures (forall n: nat :: JumpedBy(n, distance, step) == 0.0)
       <==> 0.0 <= distance <= 0.5 && (distance >= step || IsUnitShort(distance, step))
  {
    hide JumpedBy, IsUnitShort;
    if 0.0 <= distance <= 0.5 {
      if distance >= step || IsUnitShort(distance, step) {
        forall n: nat ensures JumpedBy(n, distance, step) == 0.0 {
          KeepsPace(n, distance, step);
        }
      } else {
        SomeFrameJumps(distance, step);
      }
    } else {
      FirstFrameJumps(distance, step);
    }
  }

  lemma FirstFrameJumps(distance: real, step: real)
    requires step > 0.0 && !(0.0 <= distance <= 0.5)
    ensures JumpedBy(1, distance, step) != 0.0
  {
    hide Times, Steps, SimAfter, Run, Frames;
    NoFrames(distance, step);
    NextFrame(0, distance, step);
  }

  /** In pace: simulated time is made of steps, and not a whole step ahead. */
  lemma {:induction false} KeepsPace(n: nat, distance: real, step: real)
    requires step > 0.0 && 0.0 <= distance <= 0.5 && (distance >= step || IsUnitShort(distance, step))
    ensures JumpedBy(n, distance, step) == 0.0
    ensures var r := Run(0.0, Frames(n, distance), step);
      r.sim == Times(r.steps, step) && Times(n, distance) <= r.sim < Times(n, distance) + step
  {
    hide Times, Steps, SimAfter, Run, Frames, IsUnitShort;
    NoFrames(distance, step);
    TimesAdd(0, 0, step);
    TimeIsStepsAndJumps(0.0, Frames(n, distance), step);
    if n > 0 {
      var before := Run(0.0, Frames(n - 1, distance), step);
      KeepsPace(n - 1, distance, step);
      NextFrame(n - 1, distance, step);
      CaughtUp(before.sim, Times(n, distance), step);
      if distance < step {
        TimesAdd(before.steps - 1, 1, step);
        NotAhead(n - 1, before.steps, distance, step);
      }
    }
  }

  /** Whole steps that had not caught up with a frame are not ahead of the next one. */
  lemma NotAhead(n: nat, k: int, distance: real, step: real)
    requires step > 0.0 && IsUnitShort(distance, step) && Times(k - 1, step) < Times(n, distance)
    ensures Times(k, step) <= Times(n + 1, distance)
  {
    hide Times;
    var q: nat :| q > 0 && Times(q, distance) == Times(q - 1, step);
    TimesTimes(q, k - 1, step);
    TimesTimes(q, n, distance);
    TimesTimes(n, q, distance);
    TimesTimes(n, q - 1, step);
    TimesMonotone(q, Times(k - 1, step), Times(n, distance));
    assert Times(n * q, distance) == Times(q * n, distance) by { assert n * q == q * n; }
    CountsOrder(q * (k - 1), n * (q - 1), step);
    assert q * k <= (n + 1) * (q - 1) by { Regrouped(n, k, q); }
    CountsOrder((n + 1) * (q - 1), q * k, step);
    TimesTimes(q, k, step);
    TimesTimes(n + 1, q - 1, step);
    TimesTimes(n + 1, q, distance);
    TimesTimes(q, n + 1, distance);
    assert Times((n + 1) * q, distance) == Times(q * (n + 1), distance) by { assert (n + 1) * q == q * (n + 1); }
    TimesMonotone(q, Times(n + 1, distance), Times(k, step));
  }

  lemma Regrouped(n: nat, k: int, q: nat)
    requires q * (k - 1) < n * (q - 1)
    ensures q * k <= (n + 1) * (q - 1)
  {
    assert q * (k - 1) == q * k - q;
    assert (n + 1) * (q - 1) == n * (q - 1) + q - 1;
  }

  lemma TimesTimes(a: int, b: int, x: real)
    ensures Times(a, Times(b, x)) == Times(a * b, x)
  {
    assert (a * b) as real == a as real * b as real;
  }

  lemma TimesMonotone(q: nat, x: real, y: real)
    requires q > 0
    ensures x < y <==> Times(q, x) < Times(q, y)
  {
    var (z, s) := (x - y, q as real);
    SignOfFactor(z, s);
    assert z * s == Times(q, x) - Times(q, y);
  }

  lemma CountsOrder(a: int, b: int, step: real)
    requires step > 0.0
    ensures a < b <==> Times(a, step) < Times(b, step)
  {
    var z := a as real - b as real;
    SignOfFactor(z, step);
    assert z * step == Times(a, step) - Times(b, step);
  }

  /** Otherwise the shortfalls of the frames add up to more than a step, and the clock is found ahead. */
  lemma SomeFrameJumps(distance: real, step: real)
    requires step > 0.0 && 0.0 <= distance < step && distance <= 0.5 && !IsUnitShort(distance, step)
    ensures exists n: nat :: JumpedBy(n, distance, step) != 0.0
  {
    hide Times, Steps, SimAfter, Run, Frames, Ceil;
    var i := ShortfallFrame(distance, step);
    NextFrame(i, distance, step);
    var r := Run(0.0, Frames(i, distance), step);
    if JumpedBy(i, distance, step) == 0.0 {
      TimeIsStepsAndJumps(0.0, Frames(i, distance), step);
      NextFrame(i - 1, distance, step);
      CaughtUp(Run(0.0, Frames(i - 1, distance), step).sim, Times(i, distance), step);
      TimesAdd(i, 1, step);
      CountsOrder(i - 1, r.steps, step);
      CountsOrder(r.steps, i + 1, step);
      assert r.steps == i;
      assert JumpedBy(i + 1, distance, step) != 0.0;
    }
  }

  /** The last frame before the shortfalls exceed a step. */
  lemma ShortfallFrame(distance: real, step: real) returns (i: nat)
    requires step > 0.0 && 0.0 <= distance < step && !IsUnitShort(distance, step)
    ensures i > 0 && Times(i - 1, step) < Times(i, distance) < Times(i, step)
    ensures Times(i + 1, distance) < Times(i, step)
  {
    var s := step - distance;
    var x := step / s;
    assert x * s == step;
    assert (x - 1.0) * s == distance;
    SignOfFactor(x - 1.0, s);
    i := x.Floor;
    TimesOrder(i, x, s);
    TimesOrder(i + 1, x, s);
    assert Times(i, distance) == Times(i, step) - Times(i, s);
    assert Times(i + 1, distance) == Times(i, step) + step - Times(i + 1, s);
    TimesAdd(i - 1, 1, step);
    assert i >= 1 && Times(i, distance) != Times(i - 1, step);
    UpToFloor(i, x, s);
    CountsOrder(0, i, s);
  }

  lemma UpToFloor(i: int, x: real, s: real)
    requires s > 0.0 && i as real <= x
    ensures Times(i, s) <= x * s
  {
    var y := x - i as real;
    SignOfFactor(y, s);
    assert y * s == x * s - Times(i, s);
  }

  lemma SignOfFactor(y: real, s: real)
    requires s > 0.0
    ensures y * s >= 0.0 <==> y >= 0.0
  {
    if y < 0.0 {
      assert (-y) * s > 0.0;
    }
  }

  // ----- the callback protocol -----

  datatype Call = FrameBefore | StepBefore | StepAfter | FrameAfter

  datatype Event = Event(entity: EntityId, call: Call)

  /** One callback of every entity, in the order of the entity array. */
  function Round(entities: seq<EntityId>, call: Call): seq<Event> {
    seq(|entities|, i requires 0 <= i < |entities| => Event(entities[i], call))
  }

  /** Rounds of callbacks, one after the other. */
  function Rounds(entities: seq<EntityId>, calls: seq<Call>): seq<Event> {
    if calls == [] then []
    else Rounds(entities, calls[..|calls| - 1]) + Round(entities, calls[|calls| - 1])
  }

  function StepCalls(k: nat): seq<Call> {
    if k == 0 then [] else StepCalls(k - 1) + [StepBefore, StepAfter]
  }

  /** The callbacks of a Trigger that makes k steps, as one entity is to see them. */
  function FrameCalls(k: nat): seq<Call> {
    [FrameBefore] + StepCalls(k) + [FrameAfter]
  }

  /** One call before and one after all steps, two in every step. */
  lemma {:induction false} FrameCallsAt(k: nat, i: nat)
    requires i < 2 * k + 2
    ensures |FrameCalls(k)| == 2 * k + 2
    ensures FrameCalls(k)[i] ==
      if i == 0 then FrameBefore else if i == 2 * k + 1 then FrameAfter else if i % 2 == 1 then StepBefore else StepAfter
  {
    StepCallsAt(k, if 0 < i <= 2 * k then i - 1 else 0);
  }

  lemma {:induction false} StepCallsAt(k: nat, i: nat)
    ensures |StepCalls(k)| == 2 * k
    ensures i < 2 * k ==> StepCalls(k)[i] == if i % 2 == 0 then StepBefore else StepAfter
  {
    if k > 0 {
      StepCallsAt(k - 1, i);
    }
  }

  /** Event number j n + i of a trace is call j of entity i, with n entities. */
  lemma RoundsAt(entities: seq<EntityId>, calls: seq<Call>, i: nat, j: nat)
    requires i < |entities| && j < |calls|
    ensures 0 <= j * |entities| + i < |Rounds(entities, calls)| == |calls| * |entities|
    ensures Rounds(entities, calls)[j * |entities| + i] == Event(entities[i], calls[j])
  {
    hide Rounds;
    RoundsSize(entities, calls);
    RoundsSize(entities, calls[..j]);
    RoundBehind(entities, calls, i, j);
  }

  lemma {:induction false} RoundBehind(entities: seq<EntityId>, calls: seq<Call>, i: nat, j: nat)
    requires i < |entities| && j < |calls|
    ensures var start := |Rounds(entities, calls[..j])|;
      start + i < |Rounds(entities, calls)| && Rounds(entities, calls)[start + i] == Event(entities[i], calls[j])
  {
    var last := |calls| - 1;
    if j < last {
      RoundBehind(entities, calls[..last], i, j);
      assert calls[..last][..j] == calls[..j];
    }
  }

  lemma {:induction false} RoundsSize(entities: seq<EntityId>, calls: seq<Call>)
    ensures |Rounds(entities, calls)| == |calls| * |entities|
  {
    if calls != [] {
      RoundsSize(entities, calls[..|calls| - 1]);
      assert |calls| * |entities| == (|calls| - 1) * |entities| + |entities|;
    }
  }

  /** What one entity sees of a trace. */
  function Seen(trace: seq<Event>, e: EntityId): seq<Call> {
    if trace == [] then []
    else (if trace[0].entity == e then [trace[0].call] else []) + Seen(trace[1..], e)
  }

  ghost predicate Distinct(entities: seq<EntityId>) {
    forall i, j :: 0 <= i < j < |entities| ==> entities[i] != entities[j]
  }

  lemma SeenFirst(trace: seq<Event>, e: EntityId)
    requires trace != []
    ensures Seen(trace, e) == (if trace[0].entity == e then [trace[0].call] else []) + Seen(trace[1..], e)
  {
  }

  lemma {:induction false} SeenConcat(a: seq<Event>, b: seq<Event>, e: EntityId)
    ensures Seen(a + b, e) == Seen(a, e) + Seen(b, e)
  {
    hide Seen;
    if a == [] {
      assert a + b == b;
      NothingSeen(e);
    } else {
      assert (a + b)[1..] == a[1..] + b && (a + b)[0] == a[0];
      SeenConcat(a[1..], b, e);
      SeenFirst(a, e);
      SeenFirst(a + b, e);
    }
  }

  lemma NothingSeen(e: EntityId)
    ensures Seen([], e) == []
  {
  }

  lemma {:induction false} SeenInRound(entities: seq<EntityId>, call: Call, e: EntityId)
    requires Distinct(entities)
    ensures Seen(Round(entities, call), e) == if e in entities then [call] else []
  {
    if entities != [] {
      assert Round(entities, call)[1..] == Round(entities[1..], call);
      SeenInRound(entities[1..], call, e);
    }
  }

  /** Every attached entity sees exactly the calls of the rounds, and no other entity anything. */
  lemma {:induction false} SeenInRounds(entities: seq<EntityId>, calls: seq<Call>, e: EntityId)
    requires Distinct(entities)
    ensures Seen(Rounds(entities, calls), e) == if e in entities then calls else []
  {
    if calls != [] {
      var prior := calls[..|calls| - 1];
      SeenInRounds(entities, prior, e);
      SeenConcat(Rounds(entities, prior), Round(entities, calls[|calls| - 1]), e);
      SeenInRound(entities, calls[|calls| - 1], e);
    }
  }

  /**
   * The rounds are barriers: wherever a trace is cut off, no entity is more than one call ahead of another;
   * so no entity sees a step end before every entity has seen it begin.
   */
  lemma {:induction false} NoneAhead(entities: seq<EntityId>, calls: seq<Call>, n: nat, e: EntityId, f: EntityId)
    requires Distinct(entities) && e in entities && f in entities && n <= |Rounds(entities, calls)|
    ensures |Seen(Rounds(entities, calls)[..n], e)| <= |Seen(Rounds(entities, calls)[..n], f)| + 1
  {
    hide Seen;
    if calls == [] {
      NothingSeen(e);
    } else {
      var prior := Rounds(entities, calls[..|calls| - 1]);
      if n <= |prior| {
        assert Rounds(entities, calls)[..n] == prior[..n];
        NoneAhead(entities, calls[..|calls| - 1], n, e, f);
      } else {
        var round := Round(entities, calls[|calls| - 1])[..n - |prior|];
        assert Rounds(entities, calls)[..n] == prior + round;
        SeenConcat(prior, round, e);
        SeenConcat(prior, round, f);
        SeenInRounds(entities, calls[..|calls| - 1], e);
        SeenInRounds(entities, calls[..|calls| - 1], f);
        PartOfRound(entities, calls[|calls| - 1], n - |prior|, e);
      }
    }
  }

  lemma PartOfRound(entities: seq<EntityId>, call: Call, n: nat, e: EntityId)
    requires Distinct(entities) && n <= |entities|
    ensures |Seen(Round(entities, call)[..n], e)| <= 1
  {
    assert Round(entities, call)[..n] == Round(entities[..n], call);
    SeenInRound(entities[..n], call, e);
  }

  // ----- the level -----

  /** What the loop of Trigger adds to a trace, before its first step, in one step, and after its last. */
  lemma RoundsGrow(entities: seq<EntityId>, k: nat)
    ensures Rounds(entities, [FrameBefore]) == Round(entities, FrameBefore)
    ensures StepCalls(0) == []
    ensures Rounds(entities, [FrameBefore] + StepCalls(k + 1))
         == Rounds(entities, [FrameBefore] + StepCalls(k)) + Round(entities, StepBefore) + Round(entities, StepAfter)
    ensures Rounds(entities, FrameCalls(k)) == Rounds(entities, [FrameBefore] + StepCalls(k)) + Round(entities, FrameAfter)
  {
    assert Rounds(entities, []) == [];
    assert [FrameBefore][..0] == [];
    var (a, b) := ([FrameBefore] + StepCalls(k) + [StepBefore], [FrameBefore] + StepCalls(k + 1));
    assert b[..|b| - 1] == a && a[..|a| - 1] == [FrameBefore] + StepCalls(k);
    assert FrameCalls(k)[..|FrameCalls(k)| - 1] == [FrameBefore] + StepCalls(k);
  }

  lemma StepsRemain(lag: real, step: real, n: nat)
    requires step > 0.0 && Times(n, step) < lag
    ensures n < Ceil(lag / step)
  {
    var x := lag / step;
    assert lag == x * step;
    TimesOrder(n, x, step);
  }

  /** What a Trigger comes to that has made `n` steps when its loop ends. */
  lemma TriggerEnds(sim: real, time: real, step: real, n: nat)
    requires step > 0.0 && Times(n, step) >= time - Start(sim, time)
    requires n == 0 || Times(n - 1, step) < time - Start(sim, time)
    ensures n == Steps(sim, time, step)
    ensures Start(sim, time) + Times(n, step) == SimAfter(sim, time, step) && time <= SimAfter(sim, time, step) < time + step
    ensures var f := ((time - Start(sim, time)) / step).Floor; f == n || f == n - 1
    ensures 0.0 <= time - sim <= 0.5 ==> SimAfter(sim, time, step) == sim + n as real * step
    ensures !(0.0 <= time - sim <= 0.5) ==> SimAfter(sim, time, step) == time && FrameCalls(n) == [FrameBefore, FrameAfter]
  {
    hide Times, Ceil, StepCalls;
    TimesAdd(0, 0, step);
    TimesAdd(-1, 1, step);
    CeilIff(time - Start(sim, time), step, n);
    CaughtUp(sim, time, step);
    SimStepsBound(time - Start(sim, time), step);
    WholeStepsIff(sim, time, step);
    StepsMake(n, step);
  }

  lemma StepsMake(k: nat, step: real)
    ensures Times(k, step) == k as real * step && StepCalls(0) == []
  {
  }

  class Level {
    var time: real
    var stepSize: real
    var simTimeStamp: real
    var simSteps: int
    var entityArray: seq<EntityId>
    /** Every callback made so far. */
    ghost var trace: seq<Event>

    ghost predicate Valid()
      reads this
    {
      Distinct(entityArray)
    }

    constructor ()
      ensures Valid() && entityArray == [] && trace == [] && time == simTimeStamp == 0.0 && stepSize == 0.01 && simSteps == 0
    {
      time, stepSize, simTimeStamp, simSteps := 0.0, 0.01, 0.0, 0;
      entityArray, trace := [], [];
    }

    method SetTime(t: real)
      modifies this`time
      ensures time == t
    {
      time := t;
    }

    /** The level refuses an entity it has already. */
    method AttachEntity(entity: EntityId)
      requires Valid() && entity !in entityArray
      modifies this`entityArray
      ensures Valid() && entityArray == old(entityArray) + [entity]
    {
      entityArray := entityArray + [entity];
    }

    method RemoveEntity(entity: EntityId)
      requires Valid() && entity in entityArray
      modifies this`entityArray
      ensures Valid() && entity !in entityArray
      ensures exists i | 0 <= i < |old(entityArray)| ::
        old(entityArray)[i] == entity && entityArray == old(entityArray)[..i] + old(entityArray)[i + 1..]
    {
      var i := 0;
      while entityArray[i] != entity
        invariant 0 <= i < |entityArray| && entity in entityArray[i..]
        decreases |entityArray| - i
      {
        i := i + 1;
      }
      ghost var before := entityArray;
      entityArray := entityArray[..i] + entityArray[i + 1..];
      assert before[i] == entity && entityArray == before[..i] + before[i + 1..];
    }

    /** Call one method of every entity. */
    method CallAll(call: Call)
      modifies this`trace
      ensures trace == old(trace) + Round(entityArray, call)
    {
      for i := 0 to |entityArray|
        invariant trace == old(trace) + Round(entityArray, call)[..i]
      {
        trace := trace + [Event(entityArray[i], call)];
      }
    }

    /** The body of Trigger's loop, after `n` steps of a frame that began with the trace `before`. */
    method MakeStep(ghost before: seq<Event>, ghost n: nat)
      requires trace == before + Rounds(entityArray, [FrameBefore] + StepCalls(n))
      modifies this`simTimeStamp, this`trace
      ensures simTimeStamp == old(simTimeStamp) + stepSize
      ensures trace == before + Rounds(entityArray, [FrameBefore] + StepCalls(n + 1))
    {
      hide Rounds, StepCalls, Round;
      RoundsGrow(entityArray, n);
      CallAll(StepBefore);
      CallAll(StepAfter);
      simTimeStamp := simTimeStamp + stepSize;
    }

    /** The step size must be positive for the loop to end. Collision and the ODE step itself are not part of this. */
    method Trigger()
      requires Valid() && stepSize > 0.0
      modifies this`simTimeStamp, this`simSteps, this`trace
      ensures Valid() && time <= simTimeStamp < time + stepSize
      ensures simTimeStamp == SimAfter(old(simTimeStamp), time, stepSize)
      ensures var k := Steps(old(simTimeStamp), time, stepSize);
        && trace == old(trace) + Rounds(entityArray, FrameCalls(k))
        && (simSteps == k || simSteps == k - 1)
        && (0.0 <= time - old(simTimeStamp) <= 0.5 ==> simTimeStamp == old(simTimeStamp) + k as real * stepSize)
      ensures !(0.0 <= time - old(simTimeStamp) <= 0.5) ==>
        simTimeStamp == time && trace == old(trace) + Rounds(entityArray, [FrameBefore, FrameAfter])
    {
      hide Times, Steps, SimAfter, Ceil, Rounds, StepCalls, FrameCalls, Round;
      var timeDiff := time - simTimeStamp;
      if timeDiff < 0.0 {
        simTimeStamp := time;
      } else if timeDiff > 0.5 {
        simTimeStamp := time;
      }
      CallAll(FrameBefore);
      // A conversion to int truncates, which for this non-negative value is the floor.
      simSteps := ((time - simTimeStamp) / stepSize).Floor;
      ghost var start := simTimeStamp;
      ghost var n: nat := 0;
      ghost var total := Ceil((time - start) / stepSize);
      TimesAdd(0, 0, stepSize);
      RoundsGrow(entityArray, 0);
      assert [FrameBefore] + StepCalls(0) == [FrameBefore];
      while simTimeStamp < time
        modifies this`simTimeStamp, this`trace
        invariant simTimeStamp == start + Times(n, stepSize)
        invariant n == 0 || Times(n - 1, stepSize) < time - start
        invariant trace == old(trace) + Rounds(entityArray, [FrameBefore] + StepCalls(n))
        decreases total - n
      {
        StepsRemain(time - start, stepSize, n);
        TimesAdd(n, 1, stepSize);
        MakeStep(old(trace), n);
        n := n + 1;
      }
      CallAll(FrameAfter);
      TriggerEnds(old(simTimeStamp), time, stepSize, n);
      RoundsGrow(entityArray, n);
    }
  }
}
