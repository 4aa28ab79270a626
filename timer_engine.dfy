/** The countdown engine of the timer (src/timerEngine.js): the remaining-time
    rule, and the four-state machine that the closure of `createTimerEngine`
    keeps.

    The clock is an integer argument (milliseconds) of every operation that reads
    it; `start` and `resume` read it twice, once for the end time and once inside
    the `tick` they end with, so they take two readings. The interval handle is
    the flag `armed`, and the intervals that have been set and not yet cleared
    are counted in `liveSamplers`. The `onTick` / `onFinish` callbacks are
    recorded, in order, in an event log. */
module TimerEngine {
  import TimeUtils

  datatype TimerState = Idle | Running | Paused | Finished

  /** One callback invocation: `onTick(remainingSec, state)` or `onFinish()`. */
  datatype Event = OnTick(remainingSec: int, state: TimerState) | OnFinish

  /** `Math.ceil(d / 1000)` for an integer `d`: the least multiple of 1000 not
      below `d`, counted in thousands. */
  function CeilDiv1000(d: int): (r: int)
    ensures d <= 1000 * r < d + 1000
  {
    var q := (-d) / 1000;
    assert -d == 1000 * q + (-d) % 1000;
    -q
  }

  /** `computeRemainingSec(endTimeMs, nowMs)`: the least number of whole seconds
      `k >= 0` with `endTimeMs - nowMs <= 1000 * k`. */
  function ComputeRemainingSec(endTimeMs: int, nowMs: int): (r: int)
    ensures r >= 0
    ensures nowMs >= endTimeMs ==> r == 0
    ensures endTimeMs - nowMs <= 1000 * r
    ensures r > 0 ==> 1000 * (r - 1) < endTimeMs - nowMs
  {
    TimeUtils.Max(0, CeilDiv1000(endTimeMs - nowMs))
  }

  /** No smaller count of seconds covers the time left. */
  lemma RemainingIsLeast(endTimeMs: int, nowMs: int, k: int)
    requires 0 <= k && endTimeMs - nowMs <= 1000 * k
    ensures ComputeRemainingSec(endTimeMs, nowMs) <= k
  {
  }

  /** As the clock advances the remaining time never goes up. */
  lemma RemainingMonotone(endTimeMs: int, nowMs: int, laterMs: int)
    requires nowMs <= laterMs
    ensures ComputeRemainingSec(endTimeMs, laterMs) <= ComputeRemainingSec(endTimeMs, nowMs)
  {
  }

  /** An end time `k` whole seconds ahead reads as exactly `k` seconds left. */
  lemma RemainingOfWholeSeconds(nowMs: int, k: int)
    requires k >= 0
    ensures ComputeRemainingSec(nowMs + k * 1000, nowMs) == k
  {
  }

  lemma ComputeRemainingSecExamples(nowMs: int, r: int)
    requires (nowMs == 9001 && r == 1) || (nowMs == 9000 && r == 1) || (nowMs == 8999 && r == 2)
          || (nowMs == 10000 && r == 0) || (nowMs == 12000 && r == 0)
    ensures ComputeRemainingSec(10000, nowMs) == r
  {
  }

  // ---------------------------------------------------------------------------
  // The engine's state as a value, and each operation as a transition on it

  /** Everything the engine's closure holds, plus the ghost bookkeeping: the
      intervals alive, the callbacks made and where the current run began. */
  datatype Snapshot = Snapshot(
    state: TimerState,
    initialSec: int,
    remainingSec: int,
    endTimeMs: int,
    armed: bool,
    liveSamplers: int,
    events: seq<Event>,
    runStart: nat)

  /** A freshly created engine. */
  const Initial := Snapshot(Idle, 0, 0, 0, false, 0, [], 0)

  /** The number of `onFinish` calls in a log. */
  function FinishCount(log: seq<Event>): nat {
    if log == [] then 0
    else FinishCount(log[..|log| - 1]) + (if log[|log| - 1] == OnFinish then 1 else 0)
  }

  lemma {:induction false} FinishCountAppend(a: seq<Event>, b: seq<Event>)
    ensures FinishCount(a + b) == FinishCount(a) + FinishCount(b)
  {
    if b == [] {
      assert a + b == a;
    } else {
      assert (a + b)[..|a + b| - 1] == a + b[..|b| - 1];
      FinishCountAppend(a, b[..|b| - 1]);
    }
  }

  /** The events of the current run, since the last `start`. */
  function RunEvents(e: Snapshot): seq<Event>
    requires e.runStart <= |e.events|
  {
    e.events[e.runStart..]
  }

  /** The log ends with the final tick of a run and its finish notification. */
  predicate EndsWithFinish(log: seq<Event>) {
    |log| >= 2 && log[|log| - 2] == OnTick(0, Finished) && log[|log| - 1] == OnFinish
  }

  /** The invariant minus "a run in progress has time left", which `start` only
      re-establishes with its closing tick. */
  predicate Wired(e: Snapshot) {
    && e.initialSec >= 0 && e.remainingSec >= 0
    && (e.armed <==> e.state == Running)
    && e.liveSamplers == (if e.armed then 1 else 0)
    && e.runStart <= |e.events|
    && FinishCount(RunEvents(e)) <= 1
    && (e.state == Running || e.state == Paused ==> FinishCount(RunEvents(e)) == 0)
    && (e.state == Finished ==> e.remainingSec == 0 && FinishCount(RunEvents(e)) == 1 && EndsWithFinish(e.events))
  }

  /** The engine invariant: no negative time, exactly one live sampler while
      Running and none otherwise, at most one finish per run (exactly one, the
      last event, once Finished), and time left while a run is in progress. */
  predicate Inv(e: Snapshot) {
    Wired(e) && (e.state == Running || e.state == Paused ==> e.remainingSec > 0)
  }

  /** `stopInterval()`: clears the interval the handle refers to, if any. */
  function ClearInterval(e: Snapshot): Snapshot {
    e.(armed := false, liveSamplers := if e.armed then e.liveSamplers - 1 else e.liveSamplers)
  }

  /** `handle = setInterval(tick, 200)`. */
  function SetInterval(e: Snapshot): Snapshot {
    e.(armed := true, liveSamplers := e.liveSamplers + 1)
  }

  function Emit(e: Snapshot, ev: Event): Snapshot {
    e.(events := e.events + [ev])
  }

  /** `tick()` with the clock reading `nowMs`. */
  function AfterTick(e: Snapshot, nowMs: int): Snapshot {
    if e.state != Running then e
    else
      var rem := ComputeRemainingSec(e.endTimeMs, nowMs);
      if rem <= 0 then
        Emit(Emit(ClearInterval(e).(state := Finished, remainingSec := 0), OnTick(0, Finished)), OnFinish)
      else
        Emit(e.(remainingSec := rem), OnTick(rem, Running))
  }

  /** `start(totalSec)` (and `restart`, which is the same call): the end time is
      taken from `nowMs`, the closing `tick()` reads `tickNowMs`. */
  function AfterStart(e: Snapshot, totalSec: int, nowMs: int, tickNowMs: int): Snapshot {
    var init := TimeUtils.Max(0, totalSec);
    var armedRun := SetInterval(Emit(ClearInterval(e).(state := Running, initialSec := init, remainingSec := init,
                                                      endTimeMs := nowMs + init * 1000, runStart := |e.events|),
                                     OnTick(init, Running)));
    AfterTick(armedRun, tickNowMs)
  }

  /** `pause()`. */
  function AfterPause(e: Snapshot): Snapshot {
    if e.state != Running then e
    else Emit(ClearInterval(e).(state := Paused), OnTick(e.remainingSec, Paused))
  }

  /** `resume()`: a fresh end time from the frozen remainder, then `tick()`. */
  function AfterResume(e: Snapshot, nowMs: int, tickNowMs: int): Snapshot {
    if e.state != Paused then e
    else AfterTick(SetInterval(e.(state := Running, endTimeMs := nowMs + e.remainingSec * 1000)), tickNowMs)
  }

  /** `stop(newIdleRemainingSec)`. */
  function AfterStop(e: Snapshot, idleSec: int): Snapshot {
    var v := TimeUtils.Max(0, idleSec);
    Emit(ClearInterval(e).(state := Idle, initialSec := v, remainingSec := v), OnTick(v, Idle))
  }

  // ---------------------------------------------------------------------------
  // Each transition keeps the invariant

  lemma EventsOfRun(e: Snapshot, tail: seq<Event>)
    requires e.runStart <= |e.events|
    ensures (e.events + tail)[e.runStart..] == RunEvents(e) + tail
    ensures FinishCount((e.events + tail)[e.runStart..]) == FinishCount(RunEvents(e)) + FinishCount(tail)
  {
    assert (e.events + tail)[e.runStart..] == RunEvents(e) + tail;
    FinishCountAppend(RunEvents(e), tail);
  }

  /** Log fragments the transitions append, and how many finishes they hold. */
  lemma FragmentFinishes(rem: int, st: TimerState)
    ensures FinishCount([OnTick(rem, st)]) == 0
    ensures FinishCount([OnTick(rem, st), OnFinish]) == 1
  {
    assert [OnTick(rem, st)][..0] == [];
    assert [OnTick(rem, st), OnFinish][..1] == [OnTick(rem, st)];
  }

  /** The sample that finds the time used up keeps the invariant. */
  lemma FinishingTickKeepsInv(e: Snapshot, nowMs: int)
    requires Wired(e) && e.state == Running && ComputeRemainingSec(e.endTimeMs, nowMs) <= 0
    ensures Inv(AfterTick(e, nowMs))
  {
    EventsOfRun(e, [OnTick(0, Finished), OnFinish]);
    FragmentFinishes(0, Finished);
    assert e.events + [OnTick(0, Finished)] + [OnFinish] == e.events + [OnTick(0, Finished), OnFinish];
  }

  /** A sample that finds time left keeps the invariant. */
  lemma CountingTickKeepsInv(e: Snapshot, nowMs: int)
    requires Wired(e) && e.state == Running && ComputeRemainingSec(e.endTimeMs, nowMs) > 0
    ensures Inv(AfterTick(e, nowMs))
  {
    var rem := ComputeRemainingSec(e.endTimeMs, nowMs);
    EventsOfRun(e, [OnTick(rem, Running)]);
    FragmentFinishes(rem, Running);
  }

  /** A sample taken while Running restores the full invariant: either time is
      left, or the engine is Finished with one finish as its last event. */
  lemma TickKeepsInv(e: Snapshot, nowMs: int)
    requires Wired(e)
    ensures Wired(AfterTick(e, nowMs))
    ensures e.state == Running || Inv(e) ==> Inv(AfterTick(e, nowMs))
  {
    if e.state == Running {
      if ComputeRemainingSec(e.endTimeMs, nowMs) <= 0 {
        FinishingTickKeepsInv(e, nowMs);
      } else {
        CountingTickKeepsInv(e, nowMs);
      }
    }
  }

  lemma StartKeepsInv(e: Snapshot, totalSec: int, nowMs: int, tickNowMs: int)
    requires Inv(e)
    ensures Inv(AfterStart(e, totalSec, nowMs, tickNowMs))
  {
    var init := TimeUtils.Max(0, totalSec);
    var begun := Emit(ClearInterval(e).(state := Running, initialSec := init, remainingSec := init,
                                        endTimeMs := nowMs + init * 1000, runStart := |e.events|),
                      OnTick(init, Running));
    assert RunEvents(begun) == [OnTick(init, Running)];
    FragmentFinishes(init, Running);
    TickKeepsInv(SetInterval(begun), tickNowMs);
  }

  lemma PauseKeepsInv(e: Snapshot)
    requires Inv(e)
    ensures Inv(AfterPause(e))
  {
    if e.state == Running {
      EventsOfRun(e, [OnTick(e.remainingSec, Paused)]);
      FragmentFinishes(e.remainingSec, Paused);
    }
  }

  lemma ResumeKeepsInv(e: Snapshot, nowMs: int, tickNowMs: int)
    requires Inv(e)
    ensures Inv(AfterResume(e, nowMs, tickNowMs))
  {
    if e.state == Paused {
      TickKeepsInv(SetInterval(e.(state := Running, endTimeMs := nowMs + e.remainingSec * 1000)), tickNowMs);
    }
  }

  lemma StopKeepsInv(e: Snapshot, idleSec: int)
    requires Inv(e)
    ensures Inv(AfterStop(e, idleSec))
  {
    var v := TimeUtils.Max(0, idleSec);
    EventsOfRun(e, [OnTick(v, Idle)]);
    FragmentFinishes(v, Idle);
  }

  // ---------------------------------------------------------------------------
  // Sequences of calls

  /** A call made on the engine, or a firing of its interval. */
  datatype Op =
    | StartOp(totalSec: int, nowMs: int, tickNowMs: int)
    | RestartOp(totalSec: int, nowMs: int, tickNowMs: int)
    | PauseOp
    | ResumeOp(nowMs: int, tickNowMs: int)
    | StopOp(idleSec: int)
    | SampleOp(nowMs: int)

  function Step(e: Snapshot, op: Op): Snapshot {
    match op
    case StartOp(t, now, tickNow) => AfterStart(e, t, now, tickNow)
    case RestartOp(t, now, tickNow) => AfterStart(e, t, now, tickNow)
    case PauseOp => AfterPause(e)
    case ResumeOp(now, tickNow) => AfterResume(e, now, tickNow)
    case StopOp(idle) => AfterStop(e, idle)
    case SampleOp(now) => AfterTick(e, now)
  }

  function Run(e: Snapshot, ops: seq<Op>): Snapshot
    decreases |ops|
  {
    if ops == [] then e else Run(Step(e, ops[0]), ops[1..])
  }

  lemma StepKeepsInv(e: Snapshot, op: Op)
    requires Inv(e)
    ensures Inv(Step(e, op))
  {
    match op
    case StartOp(t, now, tickNow) => StartKeepsInv(e, t, now, tickNow);
    case RestartOp(t, now, tickNow) => StartKeepsInv(e, t, now, tickNow);
    case PauseOp => PauseKeepsInv(e);
    case ResumeOp(now, tickNow) => ResumeKeepsInv(e, now, tickNow);
    case StopOp(idle) => StopKeepsInv(e, idle);
    case SampleOp(now) => TickKeepsInv(e, now);
  }

  /** The invariant holds after any sequence of calls from a fresh engine. */
  lemma {:induction false} RunKeepsInv(e: Snapshot, ops: seq<Op>)
    requires Inv(e)
    ensures Inv(Run(e, ops))
    decreases |ops|
  {
    if ops != [] {
      StepKeepsInv(e, ops[0]);
      RunKeepsInv(Step(e, ops[0]), ops[1..]);
    }
  }

  lemma InitialInv()
    ensures Inv(Initial)
  {
    assert RunEvents(Initial) == [];
  }

  predicate IsStart(op: Op) {
    op.StartOp? || op.RestartOp?
  }

  /** Every call other than `start` / `restart` keeps the run and only appends
      to the log. */
  lemma StepAppends(e: Snapshot, op: Op)
    requires !IsStart(op)
    ensures var f := Step(e, op);
      f.runStart == e.runStart && |e.events| <= |f.events| && f.events[..|e.events|] == e.events
  {
  }

  /** Without a `start` or `restart`, calls only append to the log and the run
      keeps its first event. */
  lemma {:induction false} RunAppends(e: Snapshot, ops: seq<Op>)
    requires forall i :: 0 <= i < |ops| ==> !IsStart(ops[i])
    ensures var f := Run(e, ops);
      f.runStart == e.runStart && |e.events| <= |f.events| && f.events[..|e.events|] == e.events
    decreases |ops|
  {
    if ops != [] {
      var next := Step(e, ops[0]);
      StepAppends(e, ops[0]);
      RunAppends(next, ops[1..]);
      var f := Run(next, ops[1..]);
      assert f.events[..|e.events|] == f.events[..|next.events|][..|e.events|];
    }
  }

  /** Once Finished, no further finish notification can occur until the next
      `start` or `restart`. */
  lemma NoSecondFinish(e: Snapshot, ops: seq<Op>)
    requires Inv(e) && e.state == Finished
    requires forall i :: 0 <= i < |ops| ==> !IsStart(ops[i])
    ensures var f := Run(e, ops);
      |e.events| <= |f.events| && FinishCount(f.events[|e.events|..]) == 0
  {
    var f := Run(e, ops);
    RunKeepsInv(e, ops);
    RunAppends(e, ops);
    var added := f.events[|e.events|..];
    assert f.events == e.events + added;
    EventsOfRun(e, added);
  }

  // ---------------------------------------------------------------------------
  // The promises of the individual operations

  /** `pause` is a no-op unless Running, `resume` unless Paused, and a sample
      unless Running: nothing changes and nothing is emitted. */
  lemma GuardsAreNoOps(e: Snapshot, nowMs: int, tickNowMs: int)
    ensures e.state != Running ==> AfterPause(e) == e && AfterTick(e, nowMs) == e
    ensures e.state != Paused ==> AfterResume(e, nowMs, tickNowMs) == e
  {
  }

  /** `stop` from any state: Idle, the clamped display value, no sampler, and
      exactly one tick reporting it. */
  lemma StopFromAnyState(e: Snapshot, idleSec: int)
    requires Inv(e)
    ensures var f := AfterStop(e, idleSec);
      f.state == Idle && f.initialSec == f.remainingSec == TimeUtils.Max(0, idleSec) && f.initialSec >= 0
      && !f.armed && f.liveSamplers == 0 && f.events == e.events + [OnTick(f.remainingSec, Idle)]
  {
  }

  /** `start(t)` with an unchanged clock: the run is set to `max(0, t)` seconds
      ending `max(0, t)` seconds from now; a positive duration is Running with
      its sampler armed and has ticked twice with the full duration, while zero
      finishes at once with a single finish as the last event. */
  lemma StartFromAnyState(e: Snapshot, totalSec: int, nowMs: int)
    requires Inv(e)
    ensures var f := AfterStart(e, totalSec, nowMs, nowMs);
      var init := TimeUtils.Max(0, totalSec);
      f.initialSec == init && f.endTimeMs == nowMs + init * 1000 && f.runStart == |e.events|
      && (init > 0 ==>
            f.state == Running && f.armed && f.remainingSec == init
            && f.events == e.events + [OnTick(init, Running), OnTick(init, Running)])
      && (init == 0 ==>
            f.state == Finished && !f.armed && f.remainingSec == 0
            && f.events == e.events + [OnTick(0, Running), OnTick(0, Finished), OnFinish]
            && FinishCount(f.events[|e.events|..]) == 1)
  {
    var init := TimeUtils.Max(0, totalSec);
    RemainingOfWholeSeconds(nowMs, init);
    StartKeepsInv(e, totalSec, nowMs, nowMs);
  }

  /** Pausing and resuming at the same clock value leaves the engine Running
      with the whole-second remainder it had; the end time becomes
      `now + 1000 * remainingSec`. */
  lemma PauseResumeKeepsRemainder(e: Snapshot, nowMs: int)
    requires Inv(e) && e.state == Running
    ensures var f := AfterResume(AfterPause(e), nowMs, nowMs);
      f.state == Running && f.armed && f.liveSamplers == 1 && f.remainingSec == e.remainingSec
      && f.endTimeMs == nowMs + e.remainingSec * 1000
      && f.events == e.events + [OnTick(e.remainingSec, Paused), OnTick(e.remainingSec, Running)]
  {
    RemainingOfWholeSeconds(nowMs, e.remainingSec);
  }

  /** `pause` keeps only the whole seconds the last sample (at `sampleMs`) saw,
      so a pause and resume at `nowMs` moves the end time later by the time
      since that sample plus the part of a second the sample rounded up (less
      than a second, and nothing when the time left was whole seconds). */
  lemma PauseResumeDelay(e: Snapshot, sampleMs: int, nowMs: int)
    requires Inv(e) && e.state == Running && sampleMs <= nowMs && sampleMs < e.endTimeMs
    requires e.remainingSec == ComputeRemainingSec(e.endTimeMs, sampleMs)
    ensures var f := AfterResume(AfterPause(e), nowMs, nowMs);
      var late := nowMs - sampleMs;
      e.endTimeMs + late <= f.endTimeMs < e.endTimeMs + late + 1000
      && (f.endTimeMs == e.endTimeMs + late <==> (e.endTimeMs - sampleMs) % 1000 == 0)
  {
    var d := e.endTimeMs - sampleMs;
    assert d == 1000 * (d / 1000) + d % 1000;
    if d % 1000 == 0 {
      RemainingOfWholeSeconds(sampleMs, d / 1000);
    }
  }

  /** A 10-second countdown sampled at 8.999 s shows 2 seconds; pausing and
      resuming then moves its end from 10000 to 10999, so at 10000 it is still
      Running. */
  lemma PauseResumeDelayExample()
    ensures var f := Run(Initial, [StartOp(10, 0, 0), SampleOp(8999), PauseOp, ResumeOp(8999, 8999)]);
      f.endTimeMs == 10999 && AfterTick(f, 10000).state == Running
  {
    var ops := [StartOp(10, 0, 0), SampleOp(8999), PauseOp, ResumeOp(8999, 8999)];
    var s1 := AfterStart(Initial, 10, 0, 0);
    assert ComputeRemainingSec(10000, 0) == 10;
    assert s1.state == Running && s1.endTimeMs == 10000;
    var s2 := AfterTick(s1, 8999);
    assert ComputeRemainingSec(10000, 8999) == 2;
    assert s2.state == Running && s2.remainingSec == 2;
    var s3 := AfterPause(s2);
    var s4 := AfterResume(s3, 8999, 8999);
    assert s4.endTimeMs == 10999;
    assert ComputeRemainingSec(10999, 10000) == 1;
    assert Run(Initial, ops) == Run(s1, ops[1..]);
    assert Run(s1, ops[1..]) == Run(s2, ops[2..]);
    assert Run(s2, ops[2..]) == Run(s3, ops[3..]);
    assert Run(s3, ops[3..]) == s4;
  }

  /** A sample at or after the end time finishes a run: the state becomes
      Finished, the sampler is cleared, and the log gains the final tick
      `(0, Finished)` followed by exactly one finish. */
  lemma SampleAtEndFinishes(e: Snapshot, nowMs: int)
    requires Inv(e) && e.state == Running && nowMs >= e.endTimeMs
    ensures var f := AfterTick(e, nowMs);
      f.state == Finished && f.remainingSec == 0 && !f.armed && f.liveSamplers == 0
      && f.events == e.events + [OnTick(0, Finished), OnFinish]
  {
  }

  /** Samples taken during a run: whatever samples come first, once one is taken
      at or after the end time the engine is Finished and its run holds exactly
      one finish, which is its last event, after the tick `(0, Finished)`. */
  lemma {:induction false} SamplesFinish(e: Snapshot, samples: seq<int>)
    requires Inv(e) && (e.state == Running || e.state == Finished)
    requires samples != [] && samples[|samples| - 1] >= e.endTimeMs
    ensures var f := Run(e, SampleOps(samples));
      Inv(f) && f.state == Finished && f.remainingSec == 0 && !f.armed && f.runStart == e.runStart
      && FinishCount(RunEvents(f)) == 1 && EndsWithFinish(f.events)
    decreases |samples|
  {
    var next := AfterTick(e, samples[0]);
    TickKeepsInv(e, samples[0]);
    assert SampleOps(samples)[0] == SampleOp(samples[0]);
    if |samples| > 1 {
      assert SampleOps(samples)[1..] == SampleOps(samples[1..]);
      SamplesFinish(next, samples[1..]);
    } else {
      assert SampleOps(samples)[1..] == [];
    }
  }

  /** The firings of the interval at the given clock values. */
  function SampleOps(samples: seq<int>): (ops: seq<Op>)
    ensures |ops| == |samples|
    ensures forall i :: 0 <= i < |samples| ==> ops[i] == SampleOp(samples[i])
  {
    if samples == [] then [] else [SampleOp(samples[0])] + SampleOps(samples[1..])
  }

  /** A countdown of `n` seconds started at `t0` ends Finished, its run holding
      exactly one finish right after the tick `(0, Finished)`, once it is
      sampled at or after its end, whatever samples come first. */
  lemma StartedRunFinishes(e: Snapshot, n: nat, t0: int, samples: seq<int>)
    requires Inv(e)
    requires samples != [] && samples[|samples| - 1] >= t0 + n * 1000
    ensures var f := Run(AfterStart(e, n, t0, t0), SampleOps(samples));
      Inv(f) && f.state == Finished && f.runStart == |e.events|
      && FinishCount(RunEvents(f)) == 1 && EndsWithFinish(f.events)
  {
    var started := AfterStart(e, n, t0, t0);
    StartBegins(e, n, t0);
    SamplesFinish(started, samples);
  }

  /** What `SamplesFinish` needs to know of a run just started. */
  lemma StartBegins(e: Snapshot, n: nat, t0: int)
    requires Inv(e)
    ensures var started := AfterStart(e, n, t0, t0);
      Inv(started) && started.runStart == |e.events| && started.endTimeMs == t0 + n * 1000
      && (started.state == Running || started.state == Finished)
  {
    StartKeepsInv(e, n, t0, t0);
    StartFromAnyState(e, n, t0);
  }

  /** A countdown of `n` seconds started at `t0` on a fresh engine and sampled
      every 200 ms for `n` seconds plus one interval ends Finished with exactly
      one finish. */
  lemma CountdownCompletes(n: nat, t0: int)
    ensures var started := AfterStart(Initial, n, t0, t0);
      var f := Run(started, SampleOps(seq(n * 5 + 1, i => t0 + 200 * (i + 1))));
      f.state == Finished && FinishCount(f.events) == 1 && EndsWithFinish(f.events)
  {
    var samples := seq(n * 5 + 1, i => t0 + 200 * (i + 1));
    assert samples[|samples| - 1] == t0 + 200 * (n * 5 + 1);
    InitialInv();
    StartedRunFinishes(Initial, n, t0, samples);
    var f := Run(AfterStart(Initial, n, t0, t0), SampleOps(samples));
    assert RunEvents(f) == f.events;
  }

  // ---------------------------------------------------------------------------
  // The engine object

  /** The object `createTimerEngine` returns: the closure variables are fields
      that its methods reassign. */
  class Engine {
    var state: TimerState
    var initialSec: int
    var remainingSec: int
    var endTimeMs: int
    /** `handle !== null`. */
    var armed: bool
    /** Intervals set and not yet cleared. */
    ghost var liveSamplers: int
    /** The `onTick` / `onFinish` calls made so far, in order. */
    ghost var events: seq<Event>
    /** Where in `events` the current run began. */
    ghost var runStart: nat

    ghost function Model(): Snapshot
      reads this
    {
      Snapshot(state, initialSec, remainingSec, endTimeMs, armed, liveSamplers, events, runStart)
    }

    ghost predicate Valid()
      reads this
    {
      Inv(Model())
    }

    /** `createTimerEngine(...)`: Idle, nothing remaining, no sampler. */
    constructor ()
      ensures Model() == Initial && Valid()
    {
      state := Idle;
      initialSec := 0;
      remainingSec := 0;
      endTimeMs := 0;
      armed := false;
      liveSamplers := 0;
      events := [];
      runStart := 0;
      new;
      InitialInv();
    }

    /** `stopInterval()`. */
    method StopInterval()
      modifies this
      ensures Model() == ClearInterval(old(Model()))
    {
      if armed {
        liveSamplers := liveSamplers - 1;
      }
      armed := false;
    }

    /** `tick()`, the interval's callback, with the clock reading `nowMs`. */
    method Tick(nowMs: int)
      modifies this
      ensures Model() == AfterTick(old(Model()), nowMs)
      ensures old(Valid()) ==> Valid()
    {
      ghost var before := Model();
      if state != Running {
        return;
      }
      remainingSec := ComputeRemainingSec(endTimeMs, nowMs);
      if remainingSec <= 0 {
        StopInterval();
        state := Finished;
        remainingSec := 0;
        events := events + [OnTick(remainingSec, state)];
        events := events + [OnFinish];
        if Inv(before) {
          TickKeepsInv(before, nowMs);
        }
        return;
      }
      events := events + [OnTick(remainingSec, state)];
      if Inv(before) {
        TickKeepsInv(before, nowMs);
      }
    }

    /** `start(totalSec)`: the end time is read from `nowMs`, the closing
        `tick()` from `tickNowMs`. */
    method Start(totalSec: int, nowMs: int, tickNowMs: int)
      requires Valid()
      modifies this
      ensures Valid()
      ensures Model() == AfterStart(old(Model()), totalSec, nowMs, tickNowMs)
    {
      ghost var before := Model();
      StopInterval();
      state := Running;
      initialSec := TimeUtils.Max(0, totalSec);
      remainingSec := initialSec;
      endTimeMs := nowMs + initialSec * 1000;
      runStart := |events|;
      events := events + [OnTick(remainingSec, state)];
      armed := true;
      liveSamplers := liveSamplers + 1;
      assert Model() == SetInterval(Emit(ClearInterval(before).(state := Running, initialSec := initialSec,
                                                              remainingSec := initialSec, endTimeMs := endTimeMs,
                                                              runStart := runStart),
                                         OnTick(initialSec, Running)));
      Tick(tickNowMs);
      StartKeepsInv(before, totalSec, nowMs, tickNowMs);
    }

    /** `pause()`. */
    method Pause()
      requires Valid()
      modifies this
      ensures Valid()
      ensures Model() == AfterPause(old(Model()))
    {
      ghost var before := Model();
      if state != Running {
        return;
      }
      StopInterval();
      state := Paused;
      events := events + [OnTick(remainingSec, state)];
      PauseKeepsInv(before);
    }

    /** `resume()`: the end time is read from `nowMs`, the closing `tick()`
        from `tickNowMs`. */
    method Resume(nowMs: int, tickNowMs: int)
      requires Valid()
      modifies this
      ensures Valid()
      ensures Model() == AfterResume(old(Model()), nowMs, tickNowMs)
    {
      ghost var before := Model();
      if state != Paused {
        return;
      }
      state := Running;
      endTimeMs := nowMs + remainingSec * 1000;
      armed := true;
      liveSamplers := liveSamplers + 1;
      assert Model() == SetInterval(before.(state := Running, endTimeMs := endTimeMs));
      Tick(tickNowMs);
      ResumeKeepsInv(before, nowMs, tickNowMs);
    }

    /** `stop(newIdleRemainingSec)`. */
    method Stop(idleSec: int)
      requires Valid()
      modifies this
      ensures Valid()
      ensures Model() == AfterStop(old(Model()), idleSec)
    {
      ghost var before := Model();
      StopInterval();
      state := Idle;
      initialSec := TimeUtils.Max(0, idleSec);
      remainingSec := initialSec;
      events := events + [OnTick(remainingSec, state)];
      StopKeepsInv(before, idleSec);
    }

    /** `restart(totalSec)`, which only calls `start`. */
    method Restart(totalSec: int, nowMs: int, tickNowMs: int)
      requires Valid()
      modifies this
      ensures Valid()
      ensures Model() == AfterStart(old(Model()), totalSec, nowMs, tickNowMs)
    {
      Start(totalSec, nowMs, tickNowMs);
    }

    /** `getState()`: the sampler is armed exactly while Running. */
    method GetState() returns (s: TimerState)
      requires Valid()
      ensures s == state && (s == Running <==> armed)
    {
      s := state;
    }

    /** `getRemainingSec()`: never negative, and zero once Finished. */
    method GetRemainingSec() returns (r: int)
      requires Valid()
      ensures r == remainingSec && r >= 0 && (state == Finished ==> r == 0)
      ensures state == Running || state == Paused ==> r > 0
    {
      r := remainingSec;
    }

    /** `getInitialSec()`: never negative. */
    method GetInitialSec() returns (r: int)
      requires Valid()
      ensures r == initialSec && r >= 0
    {
      r := initialSec;
    }
  }
}
