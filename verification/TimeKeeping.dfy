/** The event clock: the date of the CPU, the date every peripheral was last brought up to,
    and the dates at which they ask to be brought up to date again (src/timekeeper.rs).

    Dates are unsigned 64 bit counts of CPU cycles. The program does not tolerate their
    overflow, so operations that compute a date require it to fit. */
module TimeKeeping {

  const U64_MAX: nat := 0xffff_ffff_ffff_ffff

  /** One CPU cycle in the 48.16 fixed point format of `FracCycles`. */
  const ONE_CYCLE: nat := 0x10000

  datatype Peripheral = Gpu | Timer0 | Timer1 | Timer2 | PadMemCard | CdRom {
    function Index(): nat {
      match this
      case Gpu => 0
      case Timer0 => 1
      case Timer1 => 2
      case Timer2 => 3
      case PadMemCard => 4
      case CdRom => 5
    }
  }

  const PERIPHERALS: nat := 6

  datatype TimeSheet = TimeSheet(lastSync: nat, nextSync: nat)

  /** The value of a `TimeKeeper`. */
  datatype Clock = Clock(now: nat, nextSync: nat, sheets: seq<TimeSheet>) {
    ghost predicate Valid() {
      && |sheets| == PERIPHERALS
      && now <= U64_MAX
      && nextSync <= U64_MAX
      && forall i :: 0 <= i < PERIPHERALS ==> sheets[i].lastSync <= now && sheets[i].nextSync <= U64_MAX
    }

    function Sheet(who: Peripheral): TimeSheet
      requires |sheets| == PERIPHERALS
    {
      sheets[who.Index()]
    }

    function WithSheet(who: Peripheral, s: TimeSheet): Clock
      requires |sheets| == PERIPHERALS
    {
      this.(sheets := sheets[who.Index() := s])
    }

    predicate SyncPending() {
      nextSync <= now
    }

    predicate NeedsSync(who: Peripheral)
      requires |sheets| == PERIPHERALS
    {
      Sheet(who).nextSync <= now
    }

    /** Cycles the peripheral has not been told about yet. */
    function Unseen(who: Peripheral): int
      requires |sheets| == PERIPHERALS
    {
      now - Sheet(who).lastSync
    }

    /** The scheduler never sleeps through a date a peripheral asked for. */
    ghost predicate Sound()
      requires |sheets| == PERIPHERALS
    {
      forall i :: 0 <= i < PERIPHERALS ==> nextSync <= sheets[i].nextSync
    }
  }

  const NEW_SHEET := TimeSheet(0, 0)

  const INITIAL: Clock := Clock(0, 0, [NEW_SHEET, NEW_SHEET, NEW_SHEET, NEW_SHEET, NEW_SHEET, NEW_SHEET])

  function EarliestSync(sheets: seq<TimeSheet>): (d: nat)
    requires sheets != []
    ensures forall i :: 0 <= i < |sheets| ==> d <= sheets[i].nextSync
    ensures exists i :: 0 <= i < |sheets| && d == sheets[i].nextSync
  {
    if |sheets| == 1 then sheets[0].nextSync
    else
      var rest := EarliestSync(sheets[1..]);
      assert forall i :: 1 <= i < |sheets| ==> sheets[i] == sheets[1..][i - 1];
      if sheets[0].nextSync <= rest then sheets[0].nextSync else rest
  }

  /** The operations the emulator performs on the clock. */
  datatype Op =
    | Tick(cycles: nat)
    | Sync(who: Peripheral)
    | SetNextSyncDelta(who: Peripheral, delta: nat)
    | MaybeSetNextSync(who: Peripheral, date: nat)
    | NoSyncNeeded(who: Peripheral)
    | UpdateSyncPending

  /** No date computed by `op` leaves the 64 bit range. */
  predicate Fits(c: Clock, op: Op) {
    match op
    case Tick(n) => c.now + n <= U64_MAX
    case SetNextSyncDelta(_, d) => c.now + d <= U64_MAX
    case MaybeSetNextSync(_, date) => date <= U64_MAX
    case _ => true
  }

  function Apply(c: Clock, op: Op): (r: Clock)
    requires c.Valid() && Fits(c, op)
    ensures r.Valid()
  {
    match op
    case Tick(n) => c.(now := c.now + n)
    case Sync(who) => c.WithSheet(who, c.Sheet(who).(lastSync := c.now))
    case SetNextSyncDelta(who, delta) =>
      var date := c.now + delta;
      var c' := c.WithSheet(who, c.Sheet(who).(nextSync := date));
      if date < c.nextSync then c'.(nextSync := date) else c'
    case MaybeSetNextSync(who, date) =>
      if c.Sheet(who).nextSync > date
      then c.WithSheet(who, c.Sheet(who).(nextSync := date))
      else c
    case NoSyncNeeded(who) => c.WithSheet(who, c.Sheet(who).(nextSync := U64_MAX))
    case UpdateSyncPending => c.(nextSync := EarliestSync(c.sheets))
  }

  /** The cycles that `op` hands to peripheral `who`. */
  function Delivered(c: Clock, op: Op, who: Peripheral): int
    requires c.Valid()
  {
    if op.Sync? && op.who == who then c.Unseen(who) else 0
  }

  /** What a conditional reschedule may do without putting the scheduler to sleep too long:
      keep the old date, or move to one that is not before the next global sync. */
  predicate KeepsSound(c: Clock, op: Op)
    requires c.Valid()
  {
    op.MaybeSetNextSync? ==> c.Sheet(op.who).nextSync <= op.date || c.nextSync <= op.date
  }

  /** Soundness survives an operation exactly when the operation is not a conditional
      reschedule to before the next global sync. */
  lemma SoundStep(c: Clock, op: Op)
    requires c.Valid() && Fits(c, op) && c.Sound()
    ensures Apply(c, op).Sound() <==> KeepsSound(c, op)
  {
    var c' := Apply(c, op);
    if op.MaybeSetNextSync? && !KeepsSound(c, op) {
      assert c'.sheets[op.who.Index()].nextSync == op.date < c'.nextSync;
    }
  }

  /** `who` needs a sync and none is pending. */
  predicate Oversleeps(c: Clock, who: Peripheral)
    requires |c.sheets| == PERIPHERALS
  {
    c.NeedsSync(who) && !c.SyncPending()
  }

  /** Once `n` cycles have gone by after a conditional reschedule, the event is overslept. */
  ghost predicate OversleptAfter(c: Clock, who: Peripheral, delta: nat, n: nat)
    requires c.Valid() && c.now + delta <= U64_MAX
  {
    c.now + n <= U64_MAX && Oversleeps(Apply(Apply(c, MaybeSetNextSync(who, c.now + delta)), Tick(n)), who)
  }

  /** A reschedule to a later date, as every caller makes it, loses its event exactly when it
      does not keep the scheduler sound: there is then a stretch of time, starting at the date,
      in which the peripheral is due and nobody is told. */
  lemma MaybeSetNextSyncCanOversleep(c: Clock, who: Peripheral, delta: nat)
    requires c.Valid() && c.Sound() && c.now + delta <= U64_MAX
    ensures (exists n: nat :: OversleptAfter(c, who, delta, n))
      <==> !KeepsSound(c, MaybeSetNextSync(who, c.now + delta))
  {
    var date := c.now + delta;
    assert c.nextSync <= c.sheets[who.Index()].nextSync;
    if !KeepsSound(c, MaybeSetNextSync(who, date)) {
      assert OversleptAfter(c, who, delta, delta);
    }
  }

  /** Every operation of the run fits. */
  ghost predicate RunFits(c: Clock, ops: seq<Op>)
    requires c.Valid()
    decreases |ops|
  {
    ops == [] || (Fits(c, ops[0]) && RunFits(Apply(c, ops[0]), ops[1..]))
  }

  ghost function Run(c: Clock, ops: seq<Op>): (r: Clock)
    requires c.Valid() && RunFits(c, ops)
    ensures r.Valid()
    decreases |ops|
  {
    if ops == [] then c else Run(Apply(c, ops[0]), ops[1..])
  }

  /** No operation of the run is a reschedule that loses an event. */
  ghost predicate RunKeepsSound(c: Clock, ops: seq<Op>)
    requires c.Valid() && RunFits(c, ops)
    decreases |ops|
  {
    ops == [] || (KeepsSound(c, ops[0]) && RunKeepsSound(Apply(c, ops[0]), ops[1..]))
  }

  ghost function TotalDelivered(c: Clock, ops: seq<Op>, who: Peripheral): int
    requires c.Valid() && RunFits(c, ops)
    decreases |ops|
  {
    if ops == [] then 0
    else Delivered(c, ops[0], who) + TotalDelivered(Apply(c, ops[0]), ops[1..], who)
  }

  ghost predicate RunsTo(from: Clock, ops: seq<Op>, c: Clock) {
    from.Valid() && RunFits(from, ops) && Run(from, ops) == c
  }

  ghost predicate Reachable(c: Clock) {
    exists ops: seq<Op> :: RunsTo(INITIAL, ops, c)
  }

  lemma {:induction false} RunSnoc(c: Clock, ops: seq<Op>, op: Op)
    requires c.Valid() && RunFits(c, ops) && Fits(Run(c, ops), op)
    ensures RunFits(c, ops + [op]) && Run(c, ops + [op]) == Apply(Run(c, ops), op)
    decreases |ops|
  {
    if ops == [] {
      assert ops + [op] == [op] && [op][1..] == [];
    } else {
      assert (ops + [op])[1..] == ops[1..] + [op];
      RunSnoc(Apply(c, ops[0]), ops[1..], op);
    }
  }

  lemma ReachNext(c: Clock, op: Op)
    requires Reachable(c) && c.Valid() && Fits(c, op)
    ensures Reachable(Apply(c, op))
  {
    var ops: seq<Op> :| RunsTo(INITIAL, ops, c);
    RunSnoc(INITIAL, ops, op);
    assert RunsTo(INITIAL, ops + [op], Apply(c, op));
  }

  function Nth(i: nat): (p: Peripheral)
    requires i < PERIPHERALS
    ensures p.Index() == i
  {
    if i == 0 then Gpu
    else if i == 1 then Timer0
    else if i == 2 then Timer1
    else if i == 3 then Timer2
    else if i == 4 then PadMemCard
    else CdRom
  }

  /** The first `n` peripherals have asked for a sync in `d` cycles. */
  lemma {:induction false} Asked(n: nat, d: nat) returns (c: Clock)
    requires n <= PERIPHERALS && d <= U64_MAX
    ensures Reachable(c) && c.Valid() && c.now == c.nextSync == 0
    ensures forall i :: 0 <= i < n ==> c.sheets[i].nextSync == d
  {
    if n == 0 {
      c := INITIAL;
      assert RunsTo(INITIAL, [], c);
    } else {
      var b := Asked(n - 1, d);
      var op := SetNextSyncDelta(Nth(n - 1), d);
      ReachNext(b, op);
      c := Apply(b, op);
    }
  }

  /** It happens in a run from reset: all ask for a sync in 9 cycles, the CD-ROM then for one
      in 1 cycle, and two cycles go by. */
  lemma OversleepIsReachable()
    ensures exists c: Clock, delta: nat, n: nat ::
      && Reachable(c) && c.Valid() && c.Sound() && 0 < delta && c.now + delta <= U64_MAX
      && OversleptAfter(c, CdRom, delta, n)
  {
    var b := Asked(PERIPHERALS, 9);
    ReachNext(b, UpdateSyncPending);
    var c := Apply(b, UpdateSyncPending);
    assert c.nextSync == 9 && c.Sheet(CdRom).nextSync == 9;
    assert OversleptAfter(c, CdRom, 1, 2);
  }

  /** Over any other run from reset, no peripheral is ever due while no sync is pending. */
  lemma NeverOversleeps(ops: seq<Op>, who: Peripheral)
    requires RunFits(INITIAL, ops) && RunKeepsSound(INITIAL, ops)
    ensures Run(INITIAL, ops).Sound()
    ensures !Oversleeps(Run(INITIAL, ops), who)
  {
    RunStaysSound(INITIAL, ops);
    var r := Run(INITIAL, ops);
    assert r.nextSync <= r.sheets[who.Index()].nextSync;
  }

  lemma {:induction false} RunStaysSound(c: Clock, ops: seq<Op>)
    requires c.Valid() && RunFits(c, ops) && RunKeepsSound(c, ops) && c.Sound()
    ensures Run(c, ops).Sound()
    decreases |ops|
  {
    if ops == [] {
    } else {
      SoundStep(c, ops[0]);
      RunStaysSound(Apply(c, ops[0]), ops[1..]);
    }
  }

  /** The cycles a run lets go by. */
  function CyclesOf(ops: seq<Op>): nat {
    if ops == [] then 0 else (if ops[0].Tick? then ops[0].cycles else 0) + CyclesOf(ops[1..])
  }

  /** The operation gives `who` another date. */
  predicate Reschedules(op: Op, who: Peripheral) {
    (op.SetNextSyncDelta? || op.MaybeSetNextSync? || op.NoSyncNeeded?) && op.who == who
  }

  lemma {:induction false} DatesKept(c: Clock, ops: seq<Op>, who: Peripheral)
    requires c.Valid() && RunFits(c, ops) && forall i :: 0 <= i < |ops| ==> !Reschedules(ops[i], who)
    ensures Run(c, ops).now == c.now + CyclesOf(ops) && Run(c, ops).Sheet(who).nextSync == c.Sheet(who).nextSync
    decreases |ops|
  {
    if ops != [] {
      assert !Reschedules(ops[0], who);
      assert forall i :: 0 <= i < |ops[1..]| ==> ops[1..][i] == ops[i + 1];
      DatesKept(Apply(c, ops[0]), ops[1..], who);
    }
  }

  /** A peripheral that asks for a sync is due after exactly that many cycles, whatever happens
      in between, unless it asks again. */
  lemma DueExactly(c: Clock, who: Peripheral, delta: nat, ops: seq<Op>)
    requires c.Valid() && c.now + delta <= U64_MAX
    requires RunFits(Apply(c, SetNextSyncDelta(who, delta)), ops)
    requires forall i :: 0 <= i < |ops| ==> !Reschedules(ops[i], who)
    ensures Run(Apply(c, SetNextSyncDelta(who, delta)), ops).NeedsSync(who) <==> CyclesOf(ops) >= delta
  {
    DatesKept(Apply(c, SetNextSyncDelta(who, delta)), ops, who);
  }

  /** A conditional reschedule takes the earlier of both dates. */
  lemma DueAtEarlier(c: Clock, who: Peripheral, date: nat, ops: seq<Op>)
    requires c.Valid() && date <= U64_MAX
    requires RunFits(Apply(c, MaybeSetNextSync(who, date)), ops)
    requires forall i :: 0 <= i < |ops| ==> !Reschedules(ops[i], who)
    ensures Run(Apply(c, MaybeSetNextSync(who, date)), ops).NeedsSync(who)
      <==> c.now + CyclesOf(ops) >= date || c.now + CyclesOf(ops) >= c.Sheet(who).nextSync
  {
    DatesKept(Apply(c, MaybeSetNextSync(who, date)), ops, who);
  }

  /** A peripheral that needs no sync is not due before the end of time. */
  lemma NeverDue(c: Clock, who: Peripheral, ops: seq<Op>)
    requires c.Valid() && RunFits(Apply(c, NoSyncNeeded(who)), ops)
    requires forall i :: 0 <= i < |ops| ==> !Reschedules(ops[i], who)
    ensures Run(Apply(c, NoSyncNeeded(who)), ops).NeedsSync(who)
      <==> c.now + CyclesOf(ops) == 0xffff_ffff_ffff_ffff
  {
    DatesKept(Apply(c, NoSyncNeeded(who)), ops, who);
  }

  /** Time is conserved: what a peripheral was handed plus what it has not seen yet is the date. */
  lemma TimeIsConserved(ops: seq<Op>, who: Peripheral)
    requires RunFits(INITIAL, ops)
    ensures TotalDelivered(INITIAL, ops, who) == Run(INITIAL, ops).Sheet(who).lastSync
    ensures TotalDelivered(INITIAL, ops, who) + Run(INITIAL, ops).Unseen(who) == Run(INITIAL, ops).now
  {
    DeliveredIsElapsed(INITIAL, ops, who);
  }

  lemma {:induction false} DeliveredIsElapsed(c: Clock, ops: seq<Op>, who: Peripheral)
    requires c.Valid() && RunFits(c, ops)
    ensures TotalDelivered(c, ops, who) == Run(c, ops).Sheet(who).lastSync - c.Sheet(who).lastSync
    decreases |ops|
  {
    if ops == [] {
    } else {
      DeliveredIsElapsed(Apply(c, ops[0]), ops[1..], who);
    }
  }

  /** After the pending date is recomputed it is exact: a sync is pending exactly when
      some peripheral needs one. */
  lemma UpdateMakesPendingExact(c: Clock)
    requires c.Valid()
    ensures Apply(c, UpdateSyncPending).SyncPending()
      <==> exists who: Peripheral :: Apply(c, UpdateSyncPending).NeedsSync(who)
  {
    var r := Apply(c, UpdateSyncPending);
    var i :| 0 <= i < PERIPHERALS && r.nextSync == c.sheets[i].nextSync;
    var owner := [Gpu, Timer0, Timer1, Timer2, PadMemCard, CdRom][i];
    assert owner.Index() == i && r.Sheet(owner).nextSync == r.nextSync;
    if r.SyncPending() {
      assert r.NeedsSync(owner);
    }
    if who: Peripheral :| r.NeedsSync(who) {
      assert r.nextSync <= r.sheets[who.Index()].nextSync;
    }
  }

  class TimeKeeper {
    var now: nat
    var nextSync: nat
    var timesheets: seq<TimeSheet>

    ghost function View(): Clock
      reads this
    {
      Clock(now, nextSync, timesheets)
    }

    constructor ()
      ensures View() == INITIAL && View().Valid()
    {
      now, nextSync := 0, 0;
      timesheets := seq(PERIPHERALS, _ => TimeSheet(0, 0));
    }

    method Tick(cycles: nat)
      requires View().Valid() && Fits(View(), Op.Tick(cycles))
      modifies this
      ensures View() == Apply(old(View()), Op.Tick(cycles))
    {
      now := now + cycles;
    }

    method Sync(who: Peripheral) returns (delta: nat)
      requires View().Valid()
      modifies this
      ensures View() == Apply(old(View()), Op.Sync(who))
      ensures delta == Delivered(old(View()), Op.Sync(who), who)
    {
      var sheet := timesheets[who.Index()];
      assert sheet == View().sheets[who.Index()];
      delta := now - sheet.lastSync;
      timesheets := timesheets[who.Index() := sheet.(lastSync := now)];
    }

    method SetNextSyncDelta(who: Peripheral, delta: nat)
      requires View().Valid() && Fits(View(), Op.SetNextSyncDelta(who, delta))
      modifies this
      ensures View() == Apply(old(View()), Op.SetNextSyncDelta(who, delta))
    {
      var date := now + delta;
      var sheet := timesheets[who.Index()];
      timesheets := timesheets[who.Index() := sheet.(nextSync := date)];
      if date < nextSync {
        nextSync := date;
      }
    }

    method MaybeSetNextSync(who: Peripheral, date: nat)
      requires View().Valid() && Fits(View(), Op.MaybeSetNextSync(who, date))
      modifies this
      ensures View() == Apply(old(View()), Op.MaybeSetNextSync(who, date))
    {
      var sheet := timesheets[who.Index()];
      if sheet.nextSync > date {
        timesheets := timesheets[who.Index() := sheet.(nextSync := date)];
      }
    }

    method MaybeSetNextSyncDelta(who: Peripheral, delta: nat)
      requires View().Valid() && now + delta <= U64_MAX
      modifies this
      ensures View() == Apply(old(View()), Op.MaybeSetNextSync(who, old(now) + delta))
    {
      MaybeSetNextSync(who, now + delta);
    }

    method NoSyncNeeded(who: Peripheral)
      requires View().Valid()
      modifies this
      ensures View() == Apply(old(View()), Op.NoSyncNeeded(who))
    {
      var sheet := timesheets[who.Index()];
      timesheets := timesheets[who.Index() := sheet.(nextSync := U64_MAX)];
    }

    method UpdateSyncPending()
      requires View().Valid()
      modifies this
      ensures View() == Apply(old(View()), Op.UpdateSyncPending)
    {
      nextSync := EarliestSync(timesheets);
    }
  }
}
