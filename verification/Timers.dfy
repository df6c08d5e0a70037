/** The three hardware timers, brought up to date lazily in batches of CPU cycles
    (src/memory/timers.rs), for the clock sources derived from the CPU clock. */
module Timers {
  import opened Arithmetic
  import opened TimeKeeping
  import opened Interrupts
  import opened Batching

  /** A timer together with its bit in the interrupt status register. `period` and `phase`
      are in fixed point; no clock source ticks faster than once per CPU cycle. */
  datatype Timer = Timer(
    counter: nat,
    target: nat,
    targetWrap: bool,
    targetIrq: bool,
    wrapIrq: bool,
    targetReached: bool,
    overflowReached: bool,
    period: nat,
    phase: nat,
    interrupt: bool,
    irqStatus: bool
  ) {
    ghost predicate Valid() {
      && counter <= 0xffff
      && target <= 0xffff
      && ONE_CYCLE <= period
      && phase < period
    }

    /** Counter ticks seen when `delta` more CPU cycles have gone by. */
    function Ticks(delta: nat): nat
      requires Valid()
    {
      (delta * ONE_CYCLE + phase) / period
    }

    function Wrap(): nat {
      if targetWrap then target + 1 else 0x10000
    }

    predicate PassesTarget(ticks: nat) {
      counter <= target && counter + ticks > target
    }

    predicate Overflows(ticks: nat) {
      Wrap() == 0x10000 && counter + ticks >= Wrap()
    }

    predicate Fires(ticks: nat) {
      (wrapIrq && Overflows(ticks)) || (targetIrq && PassesTarget(ticks))
    }

    /** The effect of `ticks` counter ticks arriving in one batch. */
    function Count(ticks: nat): (r: Timer) {
      var count := counter + ticks;
      this.(
        counter := if count >= Wrap() then count % Wrap() else count,
        targetReached := targetReached || PassesTarget(ticks),
        overflowReached := overflowReached || Overflows(ticks),
        interrupt := Fires(ticks),
        irqStatus := irqStatus || Fires(ticks))
    }

    /** One `sync` that finds `delta` elapsed cycles. */
    function Sync(delta: nat): (r: Timer)
      requires Valid()
      ensures r.Valid()
    {
      if delta == 0 then this
      else Count(Ticks(delta)).(phase := (delta * ONE_CYCLE + phase) % period)
    }

    predicate TargetPassed(delta: nat)
      requires Valid()
    {
      PassesTarget(Ticks(delta))
    }

    /** Everything but the interrupt line itself, which is a pulse one sync long. */
    function Observed(): Timer {
      this.(interrupt := false)
    }

    function Countdown(): nat
      requires Valid()
    {
      if counter <= target then target - counter else 0xffff - counter + target
    }

    /** The delay the timer asks the scheduler for. */
    function Predict(): (d: nat)
      requires Valid()
    {
      var fp := period * (Countdown() + 1) - phase;
      assert fp > 0 by { assert period * (Countdown() + 1) >= period; }
      CeilDiv(fp, ONE_CYCLE)
    }

    /** Passing the target can no longer change what is observed, or has not happened yet. */
    predicate Settled() {
      counter <= target || (targetReached && (targetIrq ==> irqStatus))
    }
  }

  /** The reference: synchronise on every single CPU cycle. */
  function StepEach(t: Timer, n: nat): (r: Timer)
    requires t.Valid()
    ensures r.Valid()
  {
    if n == 0 then t else StepEach(t, n - 1).Sync(1)
  }

  lemma TicksAdd(t: Timer, a: nat, b: nat)
    requires t.Valid() && a > 0
    ensures t.Ticks(a + b) == t.Ticks(a) + t.Sync(a).Ticks(b)
    ensures ((a + b) * ONE_CYCLE + t.phase) % t.period == (b * ONE_CYCLE + t.Sync(a).phase) % t.period
  {
    SplitDivMod(a * ONE_CYCLE + t.phase, b * ONE_CYCLE, t.period);
  }

  /** A timer that ticks at most once per cycle. */
  lemma TicksInOneCycle(t: Timer)
    requires t.Valid()
    ensures t.Ticks(1) <= 1
  {
    DivAtLeast(ONE_CYCLE + t.phase, t.period, 2);
  }

  /** A sync leaves a settled timer settled. */
  lemma SettledStays(t: Timer, a: nat)
    requires t.Valid() && t.Settled()
    ensures t.Sync(a).Settled()
  {
  }

  /** Reducing modulo the wrap value before or after more ticks makes no difference. */
  lemma WrapTwice(x: nat, y: nat, w: nat)
    requires w > 0
    ensures (if x >= w then x % w else x) == x % w
    ensures (x + y) % w == (x % w + y) % w
  {
    SplitDivMod(x, y, w);
    if x < w {
      DivModUnique(x, w, 0, x);
    }
  }

  lemma CounterTwice(t: Timer, j: nat, k: nat)
    ensures t.Count(j).Count(k).counter == t.Count(j + k).counter
  {
    var s := t.Count(j);
    WrapTwice(t.counter + j, k, t.Wrap());
    WrapTwice(t.counter + j + k, 0, t.Wrap());
    WrapTwice(s.counter + k, 0, t.Wrap());
  }

  /** Where the first batch leaves the counter. */
  lemma CounterAfter(t: Timer, j: nat)
    ensures t.counter + j < t.Wrap() ==> t.Count(j).counter == t.counter + j
    ensures t.Count(j).counter < t.Wrap()
  {
  }

  /** Counting twice from a settled timer is counting once, and so is the counter from any. */
  lemma CountTwice(t: Timer, j: nat, k: nat)
    ensures t.Count(j).Count(k).counter == t.Count(j + k).counter
    ensures t.Settled() && t.counter <= 0xffff && t.target <= 0xffff
      ==> t.Count(j).Count(k).Observed() == t.Count(j + k).Observed()
  {
    CounterTwice(t, j, k);
    CounterAfter(t, j);
  }

  /** From a settled timer one sync does what any two consecutive shorter syncs do. */
  lemma SplitSync(t: Timer, a: nat, b: nat)
    requires t.Valid() && t.Settled()
    ensures t.Sync(a).Sync(b).Observed() == t.Sync(a + b).Observed()
  {
    if a == 0 || b == 0 {
    } else {
      TicksAdd(t, a, b);
      var j, k := t.Ticks(a), t.Sync(a).Ticks(b);
      CountTwice(t, j, k);
      CountKeepsPhase(t.Count(j), t.Sync(a).phase, k);
    }
  }

  lemma CountKeepsPhase(t: Timer, p: nat, ticks: nat)
    ensures t.(phase := p).Count(ticks) == t.Count(ticks).(phase := p)
  {
  }

  /** Batching is invisible: the counter, the phase, the sticky flags and the interrupt status
      after one batch are those of a sync on every cycle. */
  lemma {:induction false} BatchRefinesStepping(t: Timer, n: nat)
    requires t.Valid() && t.Settled()
    ensures StepEach(t, n).Observed() == t.Sync(n).Observed()
  {
    if n == 0 {
    } else {
      BatchRefinesStepping(t, n - 1);
      SyncIgnoresPulse(StepEach(t, n - 1), t.Sync(n - 1), 1);
      SplitSync(t, n - 1, 1);
    }
  }

  function SyncEach(t: Timer, deltas: seq<nat>): (r: Timer)
    requires t.Valid()
    ensures r.Valid()
    decreases |deltas|
  {
    if deltas == [] then t else SyncEach(t.Sync(deltas[0]), deltas[1..])
  }

  /** However the cycles are grouped into syncs, they do what single steps do. */
  lemma {:induction false} RunRefinesStepping(t: Timer, deltas: seq<nat>)
    requires t.Valid() && t.Settled()
    ensures SyncEach(t, deltas).Observed() == StepEach(t, Sum(deltas)).Observed()
    decreases |deltas|
  {
    if deltas != [] {
      SettledStays(t, deltas[0]);
      RunRefinesStepping(t.Sync(deltas[0]), deltas[1..]);
      StepsAfterSync(t, deltas[0], Sum(deltas[1..]));
    }
  }

  lemma StepsAfterSync(t: Timer, d: nat, n: nat)
    requires t.Valid() && t.Settled()
    ensures StepEach(t.Sync(d), n).Observed() == StepEach(t, d + n).Observed()
  {
    SettledStays(t, d);
    BatchRefinesStepping(t.Sync(d), n);
    SplitSync(t, d, n);
    BatchRefinesStepping(t, d + n);
  }

  lemma SyncIgnoresPulse(s: Timer, t: Timer, a: nat)
    requires s.Valid() && t.Valid() && s.Observed() == t.Observed()
    ensures s.Sync(a).Observed() == t.Sync(a).Observed()
  {
    CountIgnoresPulse(s, t, s.Ticks(a));
  }

  lemma CountIgnoresPulse(s: Timer, t: Timer, ticks: nat)
    requires s.Observed() == t.Observed()
    ensures s.Count(ticks).Observed() == t.Count(ticks).Observed()
  {
  }

  lemma {:induction false} StepEachFront(t: Timer, n: nat)
    requires t.Valid() && n > 0
    ensures StepEach(t, n) == StepEach(t.Sync(1), n - 1)
  {
    if n == 1 {
      assert StepEach(t, 0) == t;
    } else {
      StepEachFront(t, n - 1);
    }
  }

  /** The counter starts above the target and comes around to pass it within `n` cycles. */
  predicate ComesAround(t: Timer, n: nat)
    requires t.Valid()
  {
    && n > 0
    && t.counter > t.target
    && if t.targetWrap
       then t.Sync(1).counter + t.Ticks(n) - t.Ticks(1) > t.target
       else t.counter + t.Ticks(n) > 0x10000 + t.target
  }

  /** Reporting a passed target would change nothing, because it was reported before. */
  predicate AlreadyReported(t: Timer) {
    t.targetReached && (t.targetIrq ==> t.irqStatus || (t.wrapIrq && !t.targetWrap))
  }

  /** What stepping sees that one batch starting above the target does not. */
  function WithTargetReport(t: Timer, passed: bool): Timer {
    t.(targetReached := t.targetReached || passed,
       irqStatus := t.irqStatus || (passed && t.targetIrq))
  }

  /** One more cycle, which brings at most one tick, after `j` ticks from above the target. */
  lemma OneMoreTick(t: Timer, s: Timer, j: nat, k: nat, p: nat, q: nat)
    requires t.counter > t.target && t.counter <= 0xffff && !t.targetWrap && k <= 1
    requires s.Observed()
      == WithTargetReport(t.Count(j).(phase := p), t.counter + j > 0x10000 + t.target).Observed()
    ensures s.Count(k).(phase := q).Observed()
      == WithTargetReport(t.Count(j + k).(phase := q), t.counter + j + k > 0x10000 + t.target).Observed()
  {
    CountTwice(t, j, k);
  }

  /** The end of a batch, taken apart into counter ticks and phase. */
  lemma TailOfBatch(t: Timer, r: Timer, a: nat, b: nat) returns (k: nat, q: nat)
    requires t.Valid() && r.Valid() && a > 0 && b > 0
    requires r.phase == t.Sync(a).phase && r.period == t.period
    ensures b == 1 ==> k <= 1
    ensures r.Sync(b) == r.Count(k).(phase := q)
    ensures t.Sync(a + b) == t.Count(t.Ticks(a) + k).(phase := q)
    ensures t.Ticks(a + b) == t.Ticks(a) + k
  {
    TicksAdd(t, a, b);
    TicksInOneCycle(r);
    k, q := r.Ticks(b), r.Sync(b).phase;
  }

  /** `r` is what stepping makes of `t` in `j` ticks. */
  ghost predicate SteppedFromAbove(t: Timer, r: Timer, j: nat, p: nat) {
    r.Observed() == WithTargetReport(t.Count(j).(phase := p), t.counter + j > 0x10000 + t.target).Observed()
  }

  lemma OneStepFromAbove(t: Timer, k: nat, p: nat)
    requires t.counter > t.target && t.counter <= 0xffff && k <= 1
    ensures SteppedFromAbove(t, t.Count(k).(phase := p), k, p)
  {
  }

  lemma {:induction false} SteppingCounts(t: Timer, n: nat) returns (j: nat, p: nat)
    requires t.Valid() && t.counter > t.target && !t.targetWrap && n > 0
    ensures j == t.Ticks(n) && t.Sync(n) == t.Count(j).(phase := p)
    ensures SteppedFromAbove(t, StepEach(t, n), j, p)
  {
    if n == 1 {
      TicksInOneCycle(t);
      j, p := t.Ticks(1), t.Sync(1).phase;
      OneStepFromAbove(t, j, p);
      assert StepEach(t, 1) == StepEach(t, 0).Sync(1) == t.Sync(1);
    } else {
      var i, o := SteppingCounts(t, n - 1);
      var r := StepEach(t, n - 1);
      var k;
      k, p := TailOfBatch(t, r, n - 1, 1);
      OneMoreTick(t, r, i, k, o, p);
      j := i + k;
    }
  }

  lemma SteppingFromAbove(t: Timer, n: nat)
    requires t.Valid() && t.counter > t.target && !t.targetWrap && n > 0
    ensures StepEach(t, n).Observed()
      == WithTargetReport(t.Sync(n), t.counter + t.Ticks(n) > 0x10000 + t.target).Observed()
  {
    var j, p := SteppingCounts(t, n);
  }

  lemma FirstCycleWraps(t: Timer, s: Timer, j: nat, k: nat, q: nat)
    requires t.counter > t.target && t.targetWrap && t.counter <= 0xffff
    requires s.Observed() == t.Count(j).(phase := s.phase).Observed()
    ensures s.counter <= t.target && !t.PassesTarget(j) && !t.Overflows(j)
    ensures s.Count(k).(phase := q).Observed()
      == WithTargetReport(t.Count(j + k).(phase := q), s.counter + k > t.target).Observed()
  {
    CountTwice(t, j, k);
    WrapTwice(t.counter + j, 0, t.Wrap());
  }

  lemma FirstCycleSettles(t: Timer, n: nat)
    requires t.Valid() && t.counter > t.target && t.targetWrap && n > 0
    ensures StepEach(t, n).Observed() == t.Sync(1).Sync(n - 1).Observed()
  {
    FirstCycleWraps(t, t.Sync(1), t.Ticks(1), 0, 0);
    StepEachFront(t, n);
    BatchRefinesStepping(t.Sync(1), n - 1);
  }

  lemma SteppingFromAboveWithWrap(t: Timer, n: nat)
    requires t.Valid() && t.counter > t.target && t.targetWrap && n > 1
    ensures StepEach(t, n).Observed()
      == WithTargetReport(t.Sync(n), t.Sync(1).counter + t.Ticks(n) - t.Ticks(1) > t.target).Observed()
  {
    FirstCycleSettles(t, n);
    var k, q := TailOfBatch(t, t.Sync(1), 1, n - 1);
    FirstCycleWraps(t, t.Sync(1), t.Ticks(1), k, q);
  }

  /** A report from above the target, after `ticks` ticks, is news unless it was made before. */
  lemma ReportIsNews(t: Timer, ticks: nat, p: nat, passed: bool)
    requires t.target < t.counter <= 0xffff
    requires passed && !t.targetWrap ==> t.counter + ticks >= 0x10000
    ensures var r := t.Count(ticks).(phase := p);
      WithTargetReport(r, passed).Observed() == r.Observed() <==> !passed || AlreadyReported(t)
  {
    assert t.targetWrap ==> !t.Overflows(ticks);
  }

  /** Exactly when a batch may stand for single steps: always from at or below the target;
      from above it, unless the counter comes around and the report would be news. */
  lemma BatchExactness(t: Timer, n: nat)
    requires t.Valid()
    ensures StepEach(t, n).Observed() == t.Sync(n).Observed()
      <==> !ComesAround(t, n) || AlreadyReported(t)
  {
    if t.counter <= t.target {
      BatchRefinesStepping(t, n);
    } else if n > 0 {
      BatchExactnessFromAbove(t, n);
    }
  }

  /** It does happen: from a counter of 5 over a target of 2, in 0x10000 cycles. */
  lemma BatchCanDiffer()
    ensures exists t: Timer, n: nat :: t.Valid() && StepEach(t, n).Observed() != t.Sync(n).Observed()
  {
    var t := FastTimerAbove(5, 2, 0x10000);
    assert StepEach(t, 0x10000).Observed() != t.Sync(0x10000).Observed();
  }

  lemma FastTimerAbove(counter: nat, target: nat, n: nat) returns (t: Timer)
    requires target < counter <= 0xffff && n > 0
    ensures t.Valid()
    ensures counter + n > 0x10000 + target ==> StepEach(t, n).Observed() != t.Sync(n).Observed()
  {
    t := Timer(counter, target, false, true, false, false, false, ONE_CYCLE, 0, false, false);
    assert t.Ticks(n) == n by { DivModUnique(n * ONE_CYCLE, ONE_CYCLE, n, 0); }
    BatchExactness(t, n);
  }

  lemma BatchExactnessFromAbove(t: Timer, n: nat)
    requires t.Valid() && t.counter > t.target && n > 0
    ensures StepEach(t, n).Observed() == t.Sync(n).Observed()
      <==> !ComesAround(t, n) || AlreadyReported(t)
  {
    if !t.targetWrap {
      SteppingFromAbove(t, n);
    } else if n == 1 {
      FirstCycleWraps(t, t.Sync(1), t.Ticks(1), 0, 0);
      assert StepEach(t, 1) == StepEach(t, 0).Sync(1) == t.Sync(1);
    } else {
      SteppingFromAboveWithWrap(t, n);
    }
    ReportIsNews(t, t.Ticks(n), t.Sync(n).phase, ComesAround(t, n));
  }

  /** The predicted delay is the first one at which a sync sees the target passed. */
  lemma PredictionExact(t: Timer, d: nat)
    requires t.Valid() && t.counter <= t.target
    ensures t.TargetPassed(d) <==> d >= t.Predict()
  {
    var need := t.target - t.counter + 1;
    DivAtLeast(d * ONE_CYCLE + t.phase, t.period, need);
    CeilDivLeast(t.period * need - t.phase, ONE_CYCLE, d);
  }

  /** Syncing early, any number of cycles before the event, does not move its date. */
  lemma PredictionStable(t: Timer, d: nat)
    requires t.Valid() && t.counter <= t.target && d < t.Predict()
    ensures t.Sync(d).counter <= t.target
    ensures d + t.Sync(d).Predict() == t.Predict()
  {
    PredictionExact(t, d);
    if d > 0 {
      var k, x := t.Ticks(d), d * ONE_CYCLE + t.phase;
      var need := t.target - t.counter + 1;
      assert t.Sync(d).counter == t.counter + k;
      assert t.period * (need - k) - t.Sync(d).phase == t.period * need - t.phase - d * ONE_CYCLE by {
        assert x == t.period * k + x % t.period;
        assert t.period * (need - k) == t.period * need - t.period * k;
      }
      CeilDivShift(t.period * need - t.phase, ONE_CYCLE, d);
    }
  }

  /** The event of the reference machine happens exactly at the predicted date. */
  lemma PredictionIsFirstEvent(t: Timer, n: nat)
    requires t.Valid() && t.counter <= t.target && !t.targetReached
    ensures StepEach(t, n).targetReached <==> n >= t.Predict()
  {
    BatchRefinesStepping(t, n);
    PredictionExact(t, n);
    if n == 0 {
      assert !t.TargetPassed(0) by {
        DivModUnique(t.phase, t.period, 0, t.phase);
      }
    }
  }

  /** Above the target the prediction is one tick early but never late: a sync there finds the
      counter on the target, and the second prediction is the first event of the reference. */
  lemma TwoStagePrediction(t: Timer, n: nat)
    requires t.Valid() && t.counter > t.target && !t.targetWrap && !t.targetReached
    ensures t.Sync(t.Predict()).counter == t.target
    ensures StepEach(t, n).targetReached <==> n >= t.Predict() + t.Sync(t.Predict()).Predict()
  {
    PredictionsChain(t);
    if n > 0 {
      SteppingFromAbove(t, n);
    }
    TicksReach(t, t.Countdown() + 2, n);
    assert t.Ticks(0) == 0 by { DivModUnique(t.phase, t.period, 0, t.phase); }
  }

  lemma PredictionsChain(t: Timer)
    requires t.Valid() && t.counter > t.target && !t.targetWrap
    ensures t.Sync(t.Predict()).counter == t.target
    ensures t.Predict() + t.Sync(t.Predict()).Predict()
      == CeilDiv((t.Countdown() + 2) * t.period - t.phase, ONE_CYCLE)
  {
    var p, need := t.Predict(), t.Countdown() + 1;
    PredictLandsOnTick(t);
    assert t.Sync(p).counter == (t.counter + need) % 0x10000 == t.target;
    var x := (need + 1) * t.period - t.phase;
    assert t.Sync(p).period * 1 - t.Sync(p).phase == x - p * ONE_CYCLE by {
      assert (need + 1) * t.period == need * t.period + t.period;
    }
    CeilDivShift(x, ONE_CYCLE, p);
  }

  /** A sync at the predicted delay is in the first cycle after the last tick awaited. */
  lemma PredictLandsOnTick(t: Timer)
    requires t.Valid()
    ensures t.Predict() > 0
    ensures t.Ticks(t.Predict()) == t.Countdown() + 1
    ensures t.Sync(t.Predict()).phase == t.Predict() * ONE_CYCLE + t.phase - (t.Countdown() + 1) * t.period
  {
    var p, need := t.Predict(), t.Countdown() + 1;
    assert t.period * need == need * t.period;
    TicksReach(t, need, 0);
    TicksReach(t, need, p);
    assert t.Ticks(0) == 0 by { DivModUnique(t.phase, t.period, 0, t.phase); }
    TicksReach(t, need, p - 1);
    LastTick(t, p);
    TickPhase(t, p, need);
  }

  /** One cycle earlier at most one tick is missing. */
  lemma LastTick(t: Timer, p: nat)
    requires t.Valid() && p > 0
    ensures t.Ticks(p) <= t.Ticks(p - 1) + 1
  {
    if p == 1 {
      TicksInOneCycle(t);
    } else {
      TicksAdd(t, p - 1, 1);
      TicksInOneCycle(t.Sync(p - 1));
    }
  }

  /** The phase left over after the ticks of a sync. */
  lemma TickPhase(t: Timer, d: nat, k: nat)
    requires t.Valid() && d > 0 && t.Ticks(d) == k
    ensures t.Sync(d).phase == d * ONE_CYCLE + t.phase - k * t.period
  {
    var x := d * ONE_CYCLE + t.phase;
    assert x == t.period * (x / t.period) + x % t.period;
  }

  /** The first cycle by which `need` ticks have arrived. */
  lemma TicksReach(t: Timer, need: nat, n: nat)
    requires t.Valid()
    ensures t.Ticks(n) >= need <==> n >= CeilDiv(need * t.period - t.phase, ONE_CYCLE)
  {
    DivAtLeast(n * ONE_CYCLE + t.phase, t.period, need);
    CeilDivLeast(need * t.period - t.phase, ONE_CYCLE, n);
  }

  // ---- Predictions from above the target, when it is the wrap value ----

  /** The ticks until stepping passes the target: the first cycle wraps the counter below it. */
  function TicksToWrappedTarget(t: Timer): nat
    requires t.Valid() && t.targetWrap && t.counter > t.target
  {
    FirstCycleWraps(t, t.Sync(1), t.Ticks(1), 0, 0);
    t.target - t.Sync(1).counter + 1 + t.Ticks(1)
  }

  /** The first event of the reference from above a target that is the wrap value. */
  lemma WrappedEvent(t: Timer, n: nat)
    requires t.Valid() && t.targetWrap && t.counter > t.target && !t.targetReached
    ensures StepEach(t, n).targetReached
      <==> n >= CeilDiv(TicksToWrappedTarget(t) * t.period - t.phase, ONE_CYCLE)
  {
    FirstCycleWraps(t, t.Sync(1), t.Ticks(1), 0, 0);
    TicksReach(t, TicksToWrappedTarget(t), n);
    if n == 0 {
      TicksReach(t, 1, 0);
      CeilDivLeast(t.period - t.phase, ONE_CYCLE, 0);
      MulAtLeast(TicksToWrappedTarget(t), t.period);
      CeilDivLeast(TicksToWrappedTarget(t) * t.period - t.phase, ONE_CYCLE, 0);
    } else if n == 1 {
      assert StepEach(t, 1) == StepEach(t, 0).Sync(1) == t.Sync(1);
    } else {
      SteppingFromAboveWithWrap(t, n);
      assert StepEach(t, n).targetReached == StepEach(t, n).Observed().targetReached;
    }
  }

  lemma MulAtLeast(n: int, p: int)
    requires n >= 1 && p > 0
    ensures n * p >= p
  {
  }

  /** The wrap brings the counter back by less than the 0x10000 that the prediction assumes. */
  predicate WrapsEarly(t: Timer)
    requires t.Valid()
  {
    var c := t.counter + t.Ticks(1);
    c - c % (t.target + 1) < 0xffff
  }

  lemma WrapsEarlyMeaning(t: Timer)
    requires t.Valid() && t.targetWrap && t.counter > t.target
    ensures WrapsEarly(t) <==> TicksToWrappedTarget(t) < t.Countdown() + 1
  {
    WrapTwice(t.counter + t.Ticks(1), 0, t.Wrap());
  }

  /** More ticks to wait for, more cycles: a tick takes at least one. */
  lemma MoreTicksTakeLonger(t: Timer, a: nat, b: nat)
    requires t.Valid()
    ensures CeilDiv(a * t.period - t.phase, ONE_CYCLE) < CeilDiv(b * t.period - t.phase, ONE_CYCLE) <==> a < b
  {
    var x, y := a * t.period - t.phase, b * t.period - t.phase;
    if a < b {
      assert y - x >= t.period by {
        MulAtLeast(b - a, t.period);
        assert (b - a) * t.period == b * t.period - a * t.period;
      }
      CeilDivGap(x, y, ONE_CYCLE);
    } else {
      assert x >= y by {
        ProductSign(a - b, t.period);
        assert (a - b) * t.period == a * t.period - b * t.period;
      }
      CeilDivLeast(y, ONE_CYCLE, CeilDiv(x, ONE_CYCLE));
      CeilDivLeast(x, ONE_CYCLE, CeilDiv(x, ONE_CYCLE));
    }
  }

  lemma CeilDivGap(x: int, y: int, d: int)
    requires 0 < d && y - x >= d
    ensures CeilDiv(x, d) < CeilDiv(y, d)
  {
    var q := CeilDiv(y, d);
    CeilDivLeast(y, d, q);
    CeilDivLeast(x, d, q - 1);
  }

  predicate AboveWrappingTarget(t: Timer) {
    t.targetWrap && t.counter > t.target && !t.targetReached
  }

  /** The predicted date comes after the first event of the reference. */
  ghost predicate PredictedLate(t: Timer)
    requires t.Valid()
  {
    exists n: nat :: n < t.Predict() && StepEach(t, n).targetReached
  }

  /** With the target as wrap value and the counter above it, the prediction is late exactly
      when the wrap comes early. */
  lemma PredictionLateExactly(t: Timer)
    requires t.Valid() && AboveWrappingTarget(t)
    ensures PredictedLate(t) <==> WrapsEarly(t)
  {
    var need, wait := TicksToWrappedTarget(t), t.Countdown() + 1;
    var date := CeilDiv(need * t.period - t.phase, ONE_CYCLE);
    WrapsEarlyMeaning(t);
    MoreTicksTakeLonger(t, need, wait);
    assert t.period * wait == wait * t.period;
    assert date < t.Predict() <==> WrapsEarly(t);
    if WrapsEarly(t) {
      MulAtLeast(need, t.period);
      CeilDivLeast(need * t.period - t.phase, ONE_CYCLE, 0);
      WrappedEvent(t, date);
      assert StepEach(t, date).targetReached;
    }
    forall n: nat | n < t.Predict() && StepEach(t, n).targetReached ensures WrapsEarly(t) {
      WrappedEvent(t, n);
    }
  }

  /** Both happen: a counter of 100 over a target of 10 is predicted late, one of 0xffff over a
      target of 2 is not. */
  lemma PredictionCanBeLate()
    ensures exists t: Timer :: t.Valid() && AboveWrappingTarget(t) && PredictedLate(t)
    ensures exists t: Timer :: t.Valid() && AboveWrappingTarget(t) && !PredictedLate(t)
  {
    var t := TimerAbove(100, 10, ONE_CYCLE);
    var u := TimerAbove(0xffff, 2, 8 * ONE_CYCLE);
    assert PredictedLate(t) && !PredictedLate(u);
  }

  lemma TimerAbove(counter: nat, target: nat, period: nat) returns (t: Timer)
    requires target < counter <= 0xffff && period >= ONE_CYCLE
    ensures t.Valid() && AboveWrappingTarget(t)
    ensures var c := counter + ONE_CYCLE / period;
      PredictedLate(t) <==> c - c % (target + 1) < 0xffff
  {
    t := Timer(counter, target, true, true, false, false, false, period, 0, false, false);
    PredictionLateExactly(t);
  }

  // ---- Tick by tick ----

  /** The counter is where its ticks can bring it. */
  predicate InRange(t: Timer) {
    t.targetWrap ==> t.counter <= t.target
  }

  /** The reference for one tick of the counter. It goes up to 0xffff, or to the target if that
      is where it wraps, and then starts again; the tick that takes it off the target reports
      the target, and the one that takes it off 0xffff an overflow. */
  function Tick(t: Timer): Timer {
    var last := if t.targetWrap then t.target else 0xffff;
    var leaves, overflows := t.counter == t.target, t.counter == last == 0xffff;
    t.(counter := if t.counter == last then 0 else t.counter + 1,
       targetReached := t.targetReached || leaves,
       overflowReached := t.overflowReached || overflows,
       irqStatus := t.irqStatus || (leaves && t.targetIrq) || (overflows && t.wrapIrq))
  }

  const TICK: Timer -> Timer := (t: Timer) => Tick(t)

  lemma CountIsTick(t: Timer, k: nat)
    requires t.Valid() && InRange(t) && k <= 1
    ensures t.Count(k).Observed() == (if k == 0 then t else Tick(t)).Observed()
    ensures t.Count(k).Valid() && InRange(t.Count(k))
  {
    var count := t.counter + k;
    assert count <= t.Wrap();
    DivModUnique(t.Wrap(), t.Wrap(), 1, 0);
    assert t.Count(k).counter == if count == t.Wrap() then 0 else count;
  }

  /** `ticked` is `stepped` but for the phase and the pulse. */
  ghost predicate SameCount(stepped: Timer, ticked: Timer) {
    stepped.Observed() == ticked.(phase := stepped.phase).Observed()
  }

  /** Stepping every CPU cycle lets the counter tick once for each period that has gone by. */
  lemma {:induction false} SteppingTicks(t: Timer, n: nat)
    requires t.Valid() && InRange(t)
    ensures SameCount(StepEach(t, n), Iterate(TICK, t, t.Ticks(n))) && InRange(StepEach(t, n))
    ensures StepEach(t, n).phase == (n * ONE_CYCLE + t.phase) % t.period && StepEach(t, n).period == t.period
  {
    if n == 0 {
      DivModUnique(t.phase, t.period, 0, t.phase);
    } else {
      SteppingTicks(t, n - 1);
      var r := StepEach(t, n - 1);
      var k, q := NextCycle(t, n, r);
      CountIsTick(r, k);
      TickOnce(t, t.Ticks(n - 1), r, k);
    }
  }

  /** One more cycle from any timer with that period and phase. */
  lemma NextCycle(t: Timer, n: nat, r: Timer) returns (k: nat, q: nat)
    requires t.Valid() && r.Valid() && n > 0
    requires r.period == t.period && r.phase == ((n - 1) * ONE_CYCLE + t.phase) % t.period
    ensures k <= 1 && r.Sync(1) == r.Count(k).(phase := q) && t.Ticks(n) == t.Ticks(n - 1) + k
    ensures q == (n * ONE_CYCLE + t.phase) % t.period
  {
    SplitDivMod((n - 1) * ONE_CYCLE + t.phase, ONE_CYCLE, t.period);
    TicksInOneCycle(r);
    k, q := r.Ticks(1), r.Sync(1).phase;
  }

  lemma TickOnce(t: Timer, j: nat, r: Timer, k: nat)
    requires SameCount(r, Iterate(TICK, t, j)) && k <= 1
    ensures SameCount(if k == 0 then r else Tick(r), Iterate(TICK, t, j + k))
  {
    var s := Iterate(TICK, t, j);
    assert Iterate(TICK, t, j + 1) == Tick(s);
  }

  /** The total at which a counter that starts at `counter` is first at `mark`. */
  function FirstAt(counter: nat, mark: nat, size: nat): nat {
    if counter <= mark then mark else size + mark
  }

  lemma FirstTime(counter: nat, k: nat, mark: nat, size: nat)
    requires counter < size && mark < size
    ensures counter + k == FirstAt(counter, mark, size) ==> (counter + k) % size == mark
    ensures counter + k < FirstAt(counter, mark, size) ==> (counter + k) % size != mark
  {
    var x := counter + k;
    if x < size {
      DivModUnique(x, size, 0, x);
    } else if x < 2 * size {
      DivModUnique(x, size, 1, x - size);
    }
  }

  /** The timer `k` ticks on: the counter has gone around, the target is reported once it has
      been passed and an overflow once a full count has been. */
  ghost predicate TickedTo(t: Timer, k: nat, r: Timer) {
    var size := if t.targetWrap then t.target + 1 else 0x10000;
    var total := t.counter + k;
    var passed, overflowed := total > FirstAt(t.counter, t.target, size), size == 0x10000 && total >= 0x10000;
    && r.counter == total % size
    && (r.targetReached <==> t.targetReached || passed)
    && (r.overflowReached <==> t.overflowReached || overflowed)
    && (r.irqStatus <==> t.irqStatus || (t.targetIrq && passed) || (t.wrapIrq && overflowed))
    && SameSettings(t, r)
  }

  predicate SameSettings(t: Timer, r: Timer) {
    && r.target == t.target && r.targetWrap == t.targetWrap && r.targetIrq == t.targetIrq && r.wrapIrq == t.wrapIrq
    && r.period == t.period
  }

  lemma TickedNext(t: Timer, k: nat, r: Timer)
    requires t.Valid() && InRange(t) && TickedTo(t, k, r)
    ensures TickedTo(t, k + 1, Tick(r))
  {
    var size := if t.targetWrap then t.target + 1 else 0x10000;
    NextDivMod(t.counter + k, size);
    FirstTime(t.counter, k, t.target, size);
    FirstTime(t.counter, k, size - 1, size);
  }

  lemma {:induction false} TicksInClosedForm(t: Timer, k: nat)
    requires t.Valid() && InRange(t)
    ensures TickedTo(t, k, Iterate(TICK, t, k))
  {
    if k == 0 {
      DivModUnique(t.counter, if t.targetWrap then t.target + 1 else 0x10000, 0, t.counter);
    } else {
      TicksInClosedForm(t, k - 1);
      TickedNext(t, k - 1, Iterate(TICK, t, k - 1));
    }
  }

  /** What stepping does, in closed form, for any number of cycles: without a wrap at the
      target an overflow is reported if and only if the total reaches 0x10000. */
  lemma SteppingInClosedForm(t: Timer, n: nat)
    requires t.Valid() && InRange(t)
    ensures TickedTo(t, (n * ONE_CYCLE + t.phase) / t.period, StepEach(t, n))
    ensures StepEach(t, n).phase == (n * ONE_CYCLE + t.phase) % t.period
  {
    SteppingTicks(t, n);
    TicksInClosedForm(t, t.Ticks(n));
    OtherPhase(t, t.Ticks(n), Iterate(TICK, t, t.Ticks(n)), StepEach(t, n));
  }

  lemma OtherPhase(t: Timer, k: nat, r: Timer, s: Timer)
    requires TickedTo(t, k, r) && SameCount(s, r)
    ensures TickedTo(t, k, s)
  {
  }

  /** The line is up after a sync if and only if that sync saw an event that it is enabled
      for. */
  lemma PulseIsEvent(t: Timer, delta: nat)
    requires t.Valid() && delta > 0
    ensures var total := t.counter + (delta * ONE_CYCLE + t.phase) / t.period;
      t.Sync(delta).interrupt
      <==> || (t.targetIrq && t.counter <= t.target < total)
           || (t.wrapIrq && (!t.targetWrap || t.target == 0xffff) && total >= 0x10000)
  {
  }

  datatype ClockSource = SysClock | SysClockDiv8

  /** The clock sources: a tick for every CPU cycle, or for every eighth one. */
  lemma ClockRates(t: Timer, n: nat)
    requires t.Valid()
    ensures t.(period := PeriodOf(SysClock), phase := 0).Ticks(n) == n
    ensures t.(period := PeriodOf(SysClockDiv8), phase := 0).Ticks(n) == n / 8
  {
    DivModUnique(n * ONE_CYCLE, ONE_CYCLE, n, 0);
    DivModUnique(n * ONE_CYCLE, 8 * ONE_CYCLE, n / 8, (n % 8) * ONE_CYCLE);
  }

  /** What a prediction does to the clock. */
  function Scheduling(t: Timer, who: Peripheral): Op
    requires t.Valid()
  {
    if t.targetIrq then Op.SetNextSyncDelta(who, t.Predict()) else Op.NoSyncNeeded(who)
  }

  class TimerDevice {
    const instance: Peripheral
    const line: Interrupt
    var counter: nat
    var target: nat
    var targetWrap: bool
    var targetIrq: bool
    var wrapIrq: bool
    var targetReached: bool
    var overflowReached: bool
    var period: nat
    var phase: nat
    var interrupt: bool

    ghost function View(irq: InterruptState): Timer
      reads this, irq
    {
      Timer(counter, target, targetWrap, targetIrq, wrapIrq, targetReached, overflowReached,
            period, phase, interrupt, line in irq.status)
    }

    constructor (instance: Peripheral, line: Interrupt, irq: InterruptState)
      ensures this.instance == instance && this.line == line
      ensures View(irq).Valid() && View(irq).Settled()
      ensures counter == 0 && target == 0 && !targetIrq && phase == 0 && period == ONE_CYCLE
    {
      this.instance, this.line := instance, line;
      counter, target := 0, 0;
      targetWrap, targetIrq, wrapIrq := false, false, false;
      targetReached, overflowReached := false, false;
      period, phase, interrupt := ONE_CYCLE, 0, false;
    }

    method PredictNextSync(tk: TimeKeeper, ghost irq: InterruptState)
      requires View(irq).Valid() && tk.View().Valid()
      requires Fits(tk.View(), Scheduling(View(irq), instance))
      modifies tk
      ensures tk.View() == Apply(old(tk.View()), Scheduling(View(irq), instance))
    {
      if !targetIrq {
        tk.NoSyncNeeded(instance);
        return;
      }
      var countdown := if counter <= target then target - counter else 0xffff - counter + target;
      assert period * (countdown + 1) >= period;
      var delta := period * (countdown + 1) - phase;
      tk.SetNextSyncDelta(instance, (delta + (ONE_CYCLE - 1)) / ONE_CYCLE);
    }

    /** Brings the timer up to the current date: the batch is exactly the elapsed time, and a
        new prediction is scheduled unless no time has passed. */
    method Sync(tk: TimeKeeper, irq: InterruptState)
      requires View(irq).Valid() && tk.View().Valid()
      requires Fits(tk.View(), Scheduling(View(irq).Sync(tk.View().Unseen(instance)), instance))
      modifies this, tk, irq
      ensures View(irq) == old(View(irq)).Sync(old(tk.View()).Unseen(instance))
      ensures View(irq).Valid()
      ensures irq.status - {line} == old(irq.status) - {line}
      ensures var synced := Apply(old(tk.View()), Op.Sync(instance));
        tk.View() ==
        if old(tk.View()).Unseen(instance) == 0 then synced
        else Apply(synced, Scheduling(View(irq), instance))
    {
      var delta := tk.Sync(instance);
      if delta == 0 {
        return;
      }
      Elapse(delta, irq);
      PredictNextSync(tk, irq);
    }

    method Elapse(delta: nat, irq: InterruptState)
      requires View(irq).Valid() && delta > 0
      modifies this, irq
      ensures View(irq) == old(View(irq)).Sync(delta)
      ensures irq.status - {line} == old(irq.status) - {line}
    {
      var ticks := delta * ONE_CYCLE + phase;
      var count := ticks / period;
      CountKeepsPhase(View(irq), ticks % period, count);
      phase := ticks % period;
      CountTicks(count, irq);
    }

    /** The part of `sync` that follows the conversion from cycles to counter ticks. */
    method CountTicks(ticks: nat, irq: InterruptState)
      requires counter <= 0xffff
      modifies this, irq
      ensures View(irq) == old(View(irq)).Count(ticks)
      ensures irq.status - {line} == old(irq.status) - {line}
    {
      var count := ticks + counter;
      var targetPassed := false;
      if counter <= target && count > target {
        targetReached := true;
        targetPassed := true;
      }
      var wrap := if targetWrap then target + 1 else 0x10000;
      var overflow := false;
      if count >= wrap {
        count := count % wrap;
        if wrap == 0x10000 {
          overflowReached := true;
          overflow := true;
        }
      }
      counter := count;
      if (wrapIrq && overflow) || (targetIrq && targetPassed) {
        irq.Assert(line);
        interrupt := true;
      } else {
        interrupt := false;
      }
    }

    method Reconfigure(clock: ClockSource, tk: TimeKeeper, ghost irq: InterruptState)
      requires View(irq).Valid() && tk.View().Valid()
      requires var t := View(irq).(phase := 0, period := PeriodOf(clock));
        Fits(tk.View(), Scheduling(t, instance))
      modifies this, tk
      ensures View(irq) == old(View(irq)).(phase := 0, period := PeriodOf(clock))
      ensures View(irq).Valid()
      ensures tk.View() == Apply(old(tk.View()), Scheduling(View(irq), instance))
    {
      match clock {
        case SysClock => period := ONE_CYCLE;
        case SysClockDiv8 => period := 8 * ONE_CYCLE;
      }
      phase := 0;
      PredictNextSync(tk, irq);
    }
  }

  function PeriodOf(clock: ClockSource): nat {
    match clock
    case SysClock => ONE_CYCLE
    case SysClockDiv8 => 8 * ONE_CYCLE
  }
}
