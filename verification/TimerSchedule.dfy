/** A timer and the scheduler together: the CPU lets time pass instruction by instruction, and
    peripherals are brought up to date only when a sync is pending (src/cpu/mod.rs,
    src/memory/mod.rs, src/memory/timers.rs, src/timekeeper.rs). */
module TimerSchedule {
  import opened TimeKeeping
  import opened Timers

  /** The clock and one of the timers, peripheral `who` of the clock. */
  datatype Machine = Machine(clock: Clock, timer: Timer, who: Peripheral) {
    ghost predicate Valid() {
      clock.Valid() && timer.Valid()
    }
  }

  function Elapsed(m: Machine): nat
    requires m.Valid()
  {
    m.clock.now - m.clock.Sheet(m.who).lastSync
  }

  /** The timer is brought up to date, and scheduled again unless no time has passed. */
  predicate CanResync(m: Machine)
    requires m.Valid()
  {
    Fits(m.clock, Scheduling(m.timer.Sync(Elapsed(m)), m.who))
  }

  function Resync(m: Machine): (r: Machine)
    requires m.Valid() && CanResync(m)
    ensures r.Valid() && r.who == m.who
  {
    var t, c := m.timer.Sync(Elapsed(m)), Apply(m.clock, Op.Sync(m.who));
    Machine(if Elapsed(m) == 0 then c else Apply(c, Scheduling(t, m.who)), t, m.who)
  }

  /** An operation of another peripheral on the clock. */
  predicate OfOthers(op: Op, who: Peripheral) {
    !op.Tick? && !op.UpdateSyncPending? && op.who != who
  }

  datatype Event =
    | Instruction(cycles: nat, before: seq<Op>, after: seq<Op>)
    | Access
    | Other(op: Op)

  ghost predicate Elsewhere(ops: seq<Op>, who: Peripheral) {
    forall op :: op in ops ==> OfOthers(op, who)
  }

  /** The timer's part in bringing all peripherals up to date. */
  ghost function SyncTimer(m: Machine): (r: Machine)
    requires m.Valid() && (m.clock.NeedsSync(m.who) ==> CanResync(m))
    ensures r.Valid() && r.who == m.who
  {
    if m.clock.NeedsSync(m.who) then Resync(m) else m
  }

  /** All peripherals are brought up to date: the others do what they like to the clock before
      and after the timer, and then the global date is found again. */
  ghost predicate CanSyncAll(m: Machine, before: seq<Op>, after: seq<Op>)
    requires m.Valid()
  {
    && Elsewhere(before, m.who) && Elsewhere(after, m.who) && RunFits(m.clock, before)
    && var m1 := m.(clock := Run(m.clock, before));
       && (m1.clock.NeedsSync(m.who) ==> CanResync(m1))
       && RunFits(SyncTimer(m1).clock, after)
  }

  ghost function SyncAllPeripherals(m: Machine, before: seq<Op>, after: seq<Op>): (r: Machine)
    requires m.Valid() && CanSyncAll(m, before, after)
    ensures r.Valid() && r.who == m.who
  {
    var m2 := SyncTimer(m.(clock := Run(m.clock, before)));
    m2.(clock := Apply(Run(m2.clock, after), UpdateSyncPending))
  }

  /** An instruction takes its time; what is pending then is done before the next one. A
      register access brings the timer up to date early. Other devices use the clock too. */
  ghost predicate Allowed(m: Machine, e: Event)
    requires m.Valid()
  {
    match e
    case Instruction(n, before, after) =>
      && Fits(m.clock, Tick(n))
      && var m1 := m.(clock := Apply(m.clock, Tick(n)));
         m1.clock.SyncPending() ==> CanSyncAll(m1, before, after)
    case Access => CanResync(m)
    case Other(op) => OfOthers(op, m.who) && Fits(m.clock, op) && KeepsSound(m.clock, op)
  }

  ghost function Next(m: Machine, e: Event): (r: Machine)
    requires m.Valid() && Allowed(m, e)
    ensures r.Valid() && r.who == m.who
  {
    match e
    case Instruction(n, before, after) =>
      var m1 := m.(clock := Apply(m.clock, Tick(n)));
      if m1.clock.SyncPending() then SyncAllPeripherals(m1, before, after) else m1
    case Access => Resync(m)
    case Other(op) => m.(clock := Apply(m.clock, op))
  }

  // ---- The invariant ----

  /** The target has not been reached and the scheduler knows when it will be. */
  ghost predicate Armed(m: Machine, due: nat) {
    && m.Valid() && m.timer.targetIrq && !m.timer.targetReached && m.timer.counter <= m.timer.target
    && m.clock.Sheet(m.who).nextSync == m.clock.Sheet(m.who).lastSync + m.timer.Predict() == due
  }

  /** The target was reached and its interrupt raised. */
  ghost predicate Fired(m: Machine) {
    m.Valid() && m.timer.targetReached && m.timer.irqStatus
  }

  /** At every instruction boundary the interrupt is up exactly if its date has come. */
  ghost predicate OnTime(m: Machine, due: nat) {
    && m.Valid() && m.clock.Sound()
    && (if m.clock.now < due then Armed(m, due) else Fired(m))
  }

  lemma OthersKeepSheet(c: Clock, op: Op, who: Peripheral)
    requires c.Valid() && Fits(c, op) && OfOthers(op, who)
    ensures Apply(c, op).Sheet(who) == c.Sheet(who) && Apply(c, op).now == c.now
  {
    assert op.who.Index() != who.Index();
  }

  lemma {:induction false} OthersKeepSheets(c: Clock, ops: seq<Op>, who: Peripheral)
    requires c.Valid() && RunFits(c, ops) && Elsewhere(ops, who)
    ensures Run(c, ops).Sheet(who) == c.Sheet(who) && Run(c, ops).now == c.now
    decreases |ops|
  {
    if ops != [] {
      OthersKeepSheet(c, ops[0], who);
      OthersKeepSheets(Apply(c, ops[0]), ops[1..], who);
    }
  }

  /** Brought up to date before its date, the timer asks for the same date again. */
  lemma ResyncEarly(m: Machine, due: nat)
    requires Armed(m, due) && m.clock.now < due && CanResync(m)
    ensures Armed(Resync(m), due)
    ensures Resync(m).clock.now == m.clock.now
  {
    var d := Elapsed(m);
    PredictionExact(m.timer, d);
    PredictionStable(m.timer, d);
    if d > 0 {
      assert m.timer.Sync(d).targetReached == m.timer.TargetPassed(d);
    }
  }

  /** Brought up to date from its date on, it raises the interrupt. */
  lemma ResyncLate(m: Machine, due: nat)
    requires Armed(m, due) && m.clock.now >= due && CanResync(m)
    ensures Fired(Resync(m))
  {
    PredictionExact(m.timer, Elapsed(m));
    PredictPositive(m.timer);
  }

  lemma PredictPositive(t: Timer)
    requires t.Valid()
    ensures t.Predict() > 0
  {
    PredictLandsOnTick(t);
  }

  lemma ResyncKeepsSound(m: Machine)
    requires m.Valid() && CanResync(m) && m.clock.Sound()
    ensures Resync(m).clock.Sound() && Resync(m).clock.now == m.clock.now
  {
    var c := Apply(m.clock, Op.Sync(m.who));
    SoundStep(m.clock, Op.Sync(m.who));
    SoundStep(c, Scheduling(m.timer.Sync(Elapsed(m)), m.who));
  }

  /** Sticky flags stay up. */
  lemma ResyncFired(m: Machine)
    requires Fired(m) && CanResync(m)
    ensures Fired(Resync(m))
  {
  }

  lemma UpdateMakesSound(c: Clock)
    requires c.Valid()
    ensures Apply(c, UpdateSyncPending).Sound() && Apply(c, UpdateSyncPending).sheets == c.sheets
    ensures Apply(c, UpdateSyncPending).now == c.now
  {
  }

  // ---- Every event keeps it ----

  lemma SyncTimerOnTime(m: Machine, due: nat)
    requires m.Valid() && (m.clock.NeedsSync(m.who) ==> CanResync(m)) && (Armed(m, due) || Fired(m))
    ensures SyncTimer(m).clock.now == m.clock.now
    ensures if Armed(m, due) && m.clock.now < due then Armed(SyncTimer(m), due) else Fired(SyncTimer(m))
  {
    if Armed(m, due) && m.clock.now >= due {
      ResyncLate(m, due);
    } else if Fired(m) && m.clock.NeedsSync(m.who) {
      ResyncFired(m);
    }
  }

  lemma SameSheet(m: Machine, c: Clock, due: nat)
    requires m.Valid() && c.Valid() && c.Sheet(m.who) == m.clock.Sheet(m.who)
    ensures Armed(m.(clock := c), due) == Armed(m, due) && Fired(m.(clock := c)) == Fired(m)
  {
  }

  lemma SyncAllOnTime(m: Machine, before: seq<Op>, after: seq<Op>, due: nat)
    requires m.Valid() && CanSyncAll(m, before, after) && (Armed(m, due) || Fired(m))
    ensures var r := SyncAllPeripherals(m, before, after);
      && r.clock.now == m.clock.now && r.clock.Sound()
      && if Armed(m, due) && m.clock.now < due then Armed(r, due) else Fired(r)
  {
    var c1 := Run(m.clock, before);
    OthersKeepSheets(m.clock, before, m.who);
    SameSheet(m, c1, due);
    SyncTimerOnTime(m.(clock := c1), due);
    var m2 := SyncTimer(m.(clock := c1));
    var c2 := Run(m2.clock, after);
    OthersKeepSheets(m2.clock, after, m.who);
    UpdateMakesSound(c2);
    SameSheet(m2, Apply(c2, UpdateSyncPending), due);
  }

  lemma InstructionOnTime(m: Machine, n: nat, before: seq<Op>, after: seq<Op>, due: nat)
    requires OnTime(m, due) && Allowed(m, Instruction(n, before, after))
    ensures OnTime(Next(m, Instruction(n, before, after)), due)
  {
    var c := Apply(m.clock, Tick(n));
    var m1 := m.(clock := c);
    SoundStep(m.clock, Tick(n));
    SameSheet(m, c, due);
    if c.SyncPending() {
      SyncAllOnTime(m1, before, after, due);
    } else if Armed(m, due) {
      assert c.nextSync <= c.sheets[m.who.Index()].nextSync;
    }
  }

  lemma AccessOnTime(m: Machine, due: nat)
    requires OnTime(m, due) && CanResync(m)
    ensures OnTime(Resync(m), due)
  {
    ResyncKeepsSound(m);
    if m.clock.now < due {
      ResyncEarly(m, due);
    } else {
      ResyncFired(m);
    }
  }

  lemma NextOnTime(m: Machine, e: Event, due: nat)
    requires OnTime(m, due) && Allowed(m, e)
    ensures OnTime(Next(m, e), due)
  {
    match e
    case Instruction(n, before, after) => InstructionOnTime(m, n, before, after, due);
    case Access => AccessOnTime(m, due);
    case Other(op) =>
      SoundStep(m.clock, op);
      OthersKeepSheet(m.clock, op, m.who);
      SameSheet(m, Apply(m.clock, op), due);
  }

  // ---- Whole runs ----

  ghost predicate AllAllowed(m: Machine, events: seq<Event>)
    requires m.Valid()
    decreases |events|
  {
    events == [] || (Allowed(m, events[0]) && AllAllowed(Next(m, events[0]), events[1..]))
  }

  ghost function RunEvents(m: Machine, events: seq<Event>): (r: Machine)
    requires m.Valid() && AllAllowed(m, events)
    ensures r.Valid()
    decreases |events|
  {
    if events == [] then m else RunEvents(Next(m, events[0]), events[1..])
  }

  lemma {:induction false} RunOnTime(m: Machine, events: seq<Event>, due: nat)
    requires OnTime(m, due) && AllAllowed(m, events)
    ensures OnTime(RunEvents(m, events), due)
    decreases |events|
  {
    if events != [] {
      NextOnTime(m, events[0], due);
      RunOnTime(Next(m, events[0]), events[1..], due);
    }
  }

  /** A timer that is up to date, with its target ahead, and its prediction made. */
  ghost predicate Scheduled(m: Machine, c: Clock) {
    && c.Valid() && c.Sound() && m.timer.Valid() && m.timer.targetIrq && !m.timer.targetReached
    && m.timer.counter <= m.timer.target && c.Sheet(m.who).lastSync == c.now
    && Fits(c, Scheduling(m.timer, m.who)) && m.clock == Apply(c, Scheduling(m.timer, m.who))
  }

  lemma ScheduledOnTime(m: Machine, c: Clock)
    requires Scheduled(m, c)
    ensures OnTime(m, c.now + m.timer.Predict()) && m.clock.now == c.now
  {
    PredictPositive(m.timer);
    SoundStep(c, Scheduling(m.timer, m.who));
  }

  /** From its prediction on, through any instructions, register accesses and doings of other
      devices, a timer has reached its target and raised its interrupt at exactly those
      instruction boundaries that are not before the predicted date. */
  lemma InterruptOnTime(m: Machine, c: Clock, events: seq<Event>)
    requires Scheduled(m, c) && m.Valid() && AllAllowed(m, events)
    ensures var r := RunEvents(m, events);
      && (r.timer.targetReached <==> r.clock.now >= c.now + m.timer.Predict())
      && (r.timer.targetReached ==> r.timer.irqStatus)
  {
    ScheduledOnTime(m, c);
    RunOnTime(m, events, c.now + m.timer.Predict());
  }
}
