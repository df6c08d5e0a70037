/** When the CD-ROM interrupts the host, and with what response. */
module CdTiming {
  import opened Options
  import opened Fifos
  import opened CdCommands
  import opened CdProtocol
  import opened Batching

  // ---- What a running sequence is going to deliver ----

  /** The command has yet to be executed. */
  predicate Unexecuted(c: Cd) {
    c.sequence.CommandPending? || c.sequence.ParamPush?
  }

  /** The reply of the pending command, once the sub-CPU has all its parameters. */
  function Planned(c: Cd): Reply
    requires c.drive.Valid() && c.command.Some?
  {
    Execute(c.drive, c.command.value, c.params + c.hostParams)
  }

  /** A sequence is running, and its command will not be refused. */
  ghost predicate WillRun(c: Cd) {
    c.Inv() && c.InCommand() && (Unexecuted(c) ==> Planned(c).Reply?)
  }

  /** The cycles left until the interrupt. */
  ghost function Due(c: Cd): nat
    requires WillRun(c)
  {
    c.timer +
    match c.sequence
    case Idle => 0
    case CommandPending => Transfer(|c.hostParams|, |Planned(c).bytes|)
    case ParamPush => Transfer(|c.hostParams|, |Planned(c).bytes|)
    case Execution => RX_FLUSH + (|c.response| - 1) * RX_PUSH + BUSY_DELAY + IRQ_DELAY
    case RxFlush => (|c.response| - 1) * RX_PUSH + BUSY_DELAY + IRQ_DELAY
    case RxPush => (|c.response| - 1) * RX_PUSH + BUSY_DELAY + IRQ_DELAY
    case BusyDelay => IRQ_DELAY
    case IrqDelay => 0
    case AsyncRxPush => (|c.response| - 1) * RX_PUSH + IRQ_DELAY
  }

  /** The cycles for `p` parameters, the execution and `k` response bytes. */
  function Transfer(p: nat, k: nat): nat
    requires k >= 1
  {
    p * PARAM_PUSH + EXECUTION + RX_FLUSH + (k - 1) * RX_PUSH + BUSY_DELAY + IRQ_DELAY
  }

  /** What the response buffer will hold. */
  ghost function FinalResponse(c: Cd): seq<Byte>
    requires WillRun(c)
  {
    if Unexecuted(c) then Planned(c).bytes
    else if c.sequence.Execution? then c.response
    else c.hostResponse + c.response
  }

  ghost function FinalCode(c: Cd): Byte
    requires WillRun(c)
  {
    if Unexecuted(c) && Planned(c).code == ERROR then ERROR else c.irqCode
  }

  /** The drive the command will leave, and the second response it will schedule. */
  ghost function FinalDrive(c: Cd): Drive
    requires WillRun(c)
  {
    if Unexecuted(c) then Planned(c).drive else c.drive
  }

  function HandlerOf(s: Option<Schedule>): Option<Handler> {
    if s.Some? then Some(s.value.handler) else None
  }

  ghost function FinalHandler(c: Cd): Option<Handler>
    requires WillRun(c)
  {
    HandlerOf(if Unexecuted(c) then Planned(c).later else c.async)
  }

  ghost predicate SamePlan(c: Cd, d: Cd)
    requires WillRun(c) && WillRun(d)
  {
    && FinalResponse(d) == FinalResponse(c) && FinalCode(d) == FinalCode(c)
    && FinalDrive(d) == FinalDrive(c) && FinalHandler(d) == FinalHandler(c)
    && d.irqMask == c.irqMask && d.asserted == c.asserted
  }

  /** The response is complete and the interrupt is up. */
  ghost predicate Delivered(c: Cd, d: Cd)
    requires WillRun(c)
  {
    && !d.InCommand() && d.command.None?
    && d.irqFlags == FinalCode(c) && d.irqFlags != 0
    && d.hostResponse == FinalResponse(c)
    && d.drive == FinalDrive(c) && HandlerOf(d.async) == FinalHandler(c)
    && d.asserted == c.asserted + if FinalCode(c) & c.irqMask != 0 then 1 else 0
  }

  // ---- One step ----

  lemma ParamStep(c: Cd)
    requires WillRun(c) && Unexecuted(c) && c.hostParams != []
    ensures NextStep(c).Running? && WillRun(NextStep(c).cd)
    ensures SamePlan(c, NextStep(c).cd) && Due(c) == c.timer + Due(NextStep(c).cd)
  {
    NextStepGood(c);
    var d := NextStep(c).cd;
    assert d.params + d.hostParams == c.params + c.hostParams;
    assert Planned(d) == Planned(c);
    ParamProduct(|c.hostParams|);
  }

  lemma ParamProduct(p: nat)
    requires p > 0
    ensures p * PARAM_PUSH == PARAM_PUSH + (p - 1) * PARAM_PUSH
  {
  }

  lemma ExecuteStep(c: Cd)
    requires WillRun(c) && Unexecuted(c) && c.hostParams == []
    ensures NextStep(c).Running? && WillRun(NextStep(c).cd)
    ensures SamePlan(c, NextStep(c).cd) && Due(c) == c.timer + Due(NextStep(c).cd)
  {
    NextStepGood(c);
    assert c.params + c.hostParams == c.params;
    assert c.response + Planned(c).bytes == Planned(c).bytes;
  }

  lemma ResponseStep(c: Cd)
    requires WillRun(c) && (c.sequence.RxFlush? || c.sequence.RxPush? || c.sequence.AsyncRxPush?)
    ensures NextStep(c).Running? && WillRun(NextStep(c).cd)
    ensures SamePlan(c, NextStep(c).cd) && Due(c) == c.timer + Due(NextStep(c).cd)
  {
    NextStepGood(c);
    assert c.hostResponse + [c.response[0]] + c.response[1..] == c.hostResponse + c.response;
  }

  lemma StepKeepsPlan(c: Cd)
    requires WillRun(c) && !c.sequence.IrqDelay?
    ensures NextStep(c).Running? && WillRun(NextStep(c).cd)
    ensures SamePlan(c, NextStep(c).cd) && Due(c) == c.timer + Due(NextStep(c).cd)
  {
    match c.sequence
    case CommandPending => if c.hostParams == [] { ExecuteStep(c); } else { ParamStep(c); }
    case ParamPush => if c.hostParams == [] { ExecuteStep(c); } else { ParamStep(c); }
    case Execution => NextStepGood(c);
    case RxFlush => ResponseStep(c);
    case RxPush => ResponseStep(c);
    case BusyDelay => NextStepGood(c);
    case AsyncRxPush => ResponseStep(c);
  }

  /** Nothing has changed but the date of a second response. */
  predicate OnlyLater(c: Cd, d: Cd) {
    d == c.(async := d.async) && HandlerOf(d.async) == HandlerOf(c.async)
  }

  /** A second response that cannot start yet only counts down. */
  lemma AsyncWaits(c: Cd, n: nat)
    requires c.InCommand() || c.irqFlags != 0
    ensures AsyncTick(c, n).Running? && OnlyLater(c, AsyncTick(c, n).cd)
  {
  }

  lemma PlanIgnoresAsync(c: Cd, d: Cd)
    requires WillRun(c) && d.Inv() && OnlyLater(c, d)
    ensures WillRun(d) && SamePlan(c, d) && Due(d) == Due(c)
  {
  }

  /** Within a step a sync only counts down. */
  lemma SyncWithinStep(c: Cd, n: nat)
    requires c.Inv() && n < c.timer && c.InCommand()
    ensures Sync(c, n).Running?
    ensures OnlyLater(c.(timer := c.timer - n), Sync(c, n).cd)
  {
    if n > 0 {
      IterationWithinStep(c, n, c.(timer := c.timer - n));
      AsyncWaits(c.(timer := c.timer - n), n);
    }
  }

  /** One iteration of the sync loop and the rest of it. */
  lemma SyncUnfolds(c: Cd, n: nat)
    requires c.Inv() && n > 0
    ensures Iteration(c, n).Good() && 0 < Elapsed(c, n) <= n
    ensures Sync(c, n) ==
            if Iteration(c, n).Running? then Sync(Iteration(c, n).cd, n - Elapsed(c, n)) else Iteration(c, n)
  {
    IterationGood(c, n);
  }

  /** A sync that reaches the end of a step; `t` is the state after it, with the second
      response stepped too. */
  lemma SyncAcrossStep(c: Cd, n: nat, t: Outcome)
    requires c.Inv() && n >= c.timer && c.InCommand()
    requires NextStep(c).Running? && t == AsyncTick(NextStep(c).cd, c.timer)
    ensures t.Good() && Sync(c, n) == if t.Running? then Sync(t.cd, n - c.timer) else t
  {
    IterationAcrossStep(c, n);
    SyncContinues(c, n, t, c.timer);
  }

  lemma SyncContinues(c: Cd, n: nat, t: Outcome, e: nat)
    requires c.Inv() && n > 0 && t == Iteration(c, n) && e == Elapsed(c, n)
    ensures t.Good() && 0 < e <= n && Sync(c, n) == if t.Running? then Sync(t.cd, n - e) else t
  {
    SyncUnfolds(c, n);
  }

  lemma IterationAcrossStep(c: Cd, n: nat)
    requires c.drive.Valid() && n >= c.timer && c.InCommand()
    ensures Elapsed(c, n) == c.timer
    ensures Iteration(c, n) == if NextStep(c).Running? then AsyncTick(NextStep(c).cd, c.timer) else NextStep(c)
  {
  }

  lemma WithinStepKeepsPlan(c: Cd, d: Cd, n: nat)
    requires WillRun(c) && n < c.timer && d.Inv() && OnlyLater(c.(timer := c.timer - n), d)
    ensures WillRun(d) && SamePlan(c, d) && Due(d) == Due(c) - n && n < Due(c)
  {
  }

  /** An idle sub-CPU whose interrupt is not acknowledged waits. */
  lemma {:induction false} UnacknowledgedWaits(c: Cd, n: nat)
    requires c.Inv() && !c.InCommand() && c.irqFlags != 0
    ensures Sync(c, n).Running? && OnlyLater(c, Sync(c, n).cd)
  {
    if n > 0 {
      IterationGood(c, n);
      AsyncWaits(c, n);
      assert Sync(c, n) == Sync(Iteration(c, n).cd, 0);
    }
  }

  /** The last step raises the interrupt. */
  lemma IrqStep(c: Cd)
    requires WillRun(c) && c.sequence.IrqDelay?
    ensures NextStep(c).Running? && NextStep(c).cd.Inv() && Delivered(c, NextStep(c).cd) && Due(c) == c.timer
  {
    NextStepGood(c);
    assert c.hostResponse + c.response == c.hostResponse;
  }

  lemma IrqFires(c: Cd, n: nat)
    requires WillRun(c) && c.sequence.IrqDelay? && n >= c.timer
    ensures Sync(c, n).Running? && Delivered(c, Sync(c, n).cd) && Due(c) == c.timer
  {
    IrqStep(c);
    var d := NextStep(c).cd;
    var t := AsyncTick(d, c.timer);
    SyncAcrossStep(c, n, t);
    AsyncWaits(d, c.timer);
    UnacknowledgedWaits(t.cd, n - c.timer);
  }

  // ---- Whole waits ----

  /** Whatever sequence is running, its interrupt comes up after exactly the cycles due, with
      the complete response, and no sooner. */
  lemma {:induction false} SyncIsExact(c: Cd, n: nat)
    requires WillRun(c)
    ensures Sync(c, n).Running?
    ensures n < Due(c) ==>
              WillRun(Sync(c, n).cd) && SamePlan(c, Sync(c, n).cd) && Due(Sync(c, n).cd) == Due(c) - n
    ensures n >= Due(c) ==> Delivered(c, Sync(c, n).cd)
    decreases n
  {
    if n < c.timer {
      SyncWithinStep(c, n);
      WithinStepKeepsPlan(c, Sync(c, n).cd, n);
    } else if c.sequence.IrqDelay? {
      IrqFires(c, n);
    } else {
      var d := StepOfSync(c, n);
      SyncIsExact(d, n - c.timer);
    }
  }

  lemma StepOfSync(c: Cd, n: nat) returns (d: Cd)
    requires WillRun(c) && c.timer <= n && !c.sequence.IrqDelay?
    ensures WillRun(d) && SamePlan(c, d) && Due(c) == c.timer + Due(d)
    ensures AsyncTick(NextStep(c).cd, c.timer) == Running(d) && NextStep(c).Running?
    ensures Sync(c, n) == Sync(d, n - c.timer)
  {
    StepKeepsPlan(c);
    var e := NextStep(c).cd;
    var t := AsyncTick(e, c.timer);
    SyncAcrossStep(c, n, t);
    AsyncWaits(e, c.timer);
    d := t.cd;
    PlanIgnoresAsync(e, d);
  }

  /** A wait cut into several syncs. */
  function SyncCuts(c: Cd, cuts: seq<nat>): (r: Outcome)
    requires c.Inv()
    ensures r.Good()
    decreases |cuts|
  {
    if cuts == [] then Running(c)
    else
      match Sync(c, cuts[0])
      case Panic(f) => Panic(f)
      case Running(d) => SyncCuts(d, cuts[1..])
  }

  lemma {:induction false} UnacknowledgedCuts(c: Cd, cuts: seq<nat>)
    requires c.Inv() && !c.InCommand() && c.irqFlags != 0
    ensures SyncCuts(c, cuts).Running? && OnlyLater(c, SyncCuts(c, cuts).cd)
    decreases |cuts|
  {
    if cuts != [] {
      UnacknowledgedWaits(c, cuts[0]);
      UnacknowledgedCuts(Sync(c, cuts[0]).cd, cuts[1..]);
    }
  }

  lemma StillDelivered(c: Cd, d: Cd, e: Cd)
    requires WillRun(c) && Delivered(c, d) && OnlyLater(d, e)
    ensures Delivered(c, e)
  {
  }

  /** The same however the wait is cut into syncs. */
  lemma {:induction false} InterruptIsExact(c: Cd, cuts: seq<nat>)
    requires WillRun(c)
    ensures SyncCuts(c, cuts).Running?
    ensures Sum(cuts) < Due(c) ==>
              && WillRun(SyncCuts(c, cuts).cd) && SamePlan(c, SyncCuts(c, cuts).cd)
              && Due(SyncCuts(c, cuts).cd) == Due(c) - Sum(cuts)
    ensures Sum(cuts) >= Due(c) ==> Delivered(c, SyncCuts(c, cuts).cd)
    decreases |cuts|
  {
    if cuts != [] {
      SyncIsExact(c, cuts[0]);
      var d := Sync(c, cuts[0]).cd;
      if cuts[0] < Due(c) {
        InterruptIsExact(d, cuts[1..]);
      } else {
        UnacknowledgedCuts(d, cuts[1..]);
        StillDelivered(c, d, SyncCuts(c, cuts).cd);
      }
    }
  }

  /** The latency of a command, in closed form: with `p` parameters and `k` response bytes the
      interrupt is up if and only if the cycles since the sub-CPU took notice of it reach the
      pending delay plus `Transfer(p, k)`, however they are cut into syncs. The response
      buffer then holds the reply and nothing else. */
  lemma CommandLatency(c: Cd, cuts: seq<nat>)
    requires c.Inv() && c.sequence.CommandPending? && c.params == [] && Planned(c).Reply?
    ensures var reply := Execute(c.drive, c.command.value, c.hostParams);
      var r := SyncCuts(c, cuts);
      var latency := c.timer + Transfer(|c.hostParams|, |reply.bytes|);
      && reply.Reply? && r.Running?
      && (r.cd.irqFlags != 0 <==> Sum(cuts) >= latency)
      && (r.cd.irqFlags != 0 ==>
            && r.cd.irqFlags == (if reply.code == ERROR then ERROR else c.irqCode)
            && r.cd.hostResponse == reply.bytes && !r.cd.InCommand() && r.cd.command.None?
            && r.cd.drive == reply.drive && HandlerOf(r.cd.async) == HandlerOf(reply.later))
  {
    assert c.params + c.hostParams == c.hostParams;
    InterruptIsExact(c, cuts);
  }

  /** The same in cycles: 9300, 1800 for each parameter and 1500 for each byte of the response,
      after a pending delay of 9400 to 15399. */
  lemma LatencyInCycles(c: Cd, cmd: Byte, cuts: seq<nat>)
    requires c.Inv() && !c.InCommand() && c.irqFlags == 0 && c.async.None? && Execute(c.drive, cmd, c.hostParams).Reply?
    ensures var d := OnCommand(c, cmd).cd;
      var reply := Execute(c.drive, cmd, c.hostParams);
      var r := SyncCuts(d, cuts);
      && 9_400 <= d.timer < 15_400
      && r.Running?
      && (r.cd.irqFlags != 0 <==> Sum(cuts) >= d.timer + 9_300 + 1_800 * |c.hostParams| + 1_500 * |reply.bytes|)
      && (r.cd.irqFlags != 0 ==> r.cd.irqFlags == (if reply.code == ERROR then 5 else 3))
  {
    CommandStarts(c, cmd);
    var d := OnCommand(c, cmd).cd;
    assert d.params + d.hostParams == c.hostParams;
    CommandLatency(d, cuts);
  }

  /** A command written while the sub-CPU is free starts at once. */
  lemma CommandStarts(c: Cd, cmd: Byte)
    requires c.Inv() && !c.InCommand() && c.irqFlags == 0 && c.async.None?
    ensures var r := OnCommand(c, cmd);
      && r.Running? && r.cd.sequence.CommandPending? && r.cd.command == Some(cmd) && r.cd.params == []
      && r.cd.hostParams == c.hostParams && r.cd.drive == c.drive && r.cd.irqCode == OK
      && COMMAND_PENDING <= r.cd.timer < COMMAND_PENDING + COMMAND_PENDING_VARIATION
  {
  }

  // ---- Second responses ----

  ghost predicate Waiting(c: Cd) {
    c.Inv() && !c.InCommand() && c.irqFlags == 0 && c.async.Some?
  }

  /** The state in which the second response starts. */
  ghost function Started(c: Cd): Cd
    requires Waiting(c)
  {
    var late := Respond(c.drive, c.async.value.handler);
    c.(async := None, irqCode := ASYNC_OK, response := late.bytes, drive := late.drive,
       sequence := AsyncRxPush, timer := late.delay)
  }

  lemma StartedWillRun(c: Cd)
    requires Waiting(c)
    ensures WillRun(Started(c))
    ensures var late := Respond(c.drive, c.async.value.handler);
      && Due(Started(c)) == late.delay + (|late.bytes| - 1) * RX_PUSH + IRQ_DELAY
      && FinalResponse(Started(c)) == c.hostResponse + late.bytes && FinalCode(Started(c)) == ASYNC_OK
  {
    ProcessGood(c.(async := Some(Schedule(0, c.async.value.handler))));
  }

  /** A sync past the date of a second response starts it, and drops the cycles that are
      left over. */
  lemma {:induction false} WaitingSync(c: Cd, n: nat)
    requires Waiting(c)
    ensures Sync(c, n) == Running(if n < c.async.value.delay
                                  then c.(async := Some(Schedule(c.async.value.delay - n, c.async.value.handler)))
                                  else Started(c))
  {
    if n > 0 {
      IterationGood(c, n);
      assert Sync(c, n) == Sync(Iteration(c, n).cd, 0);
    }
  }

  lemma {:induction false} WaitingCuts(c: Cd, cuts: seq<nat>)
    requires Waiting(c) && Sum(cuts) < c.async.value.delay
    ensures SyncCuts(c, cuts) ==
            Running(c.(async := Some(Schedule(c.async.value.delay - Sum(cuts), c.async.value.handler))))
    decreases |cuts|
  {
    if cuts != [] {
      WaitingSync(c, cuts[0]);
      WaitingCuts(Sync(c, cuts[0]).cd, cuts[1..]);
    }
  }

  lemma {:induction false} CutsAppend(c: Cd, a: seq<nat>, b: seq<nat>)
    requires c.Inv() && SyncCuts(c, a).Running?
    ensures SyncCuts(c, a + b) == SyncCuts(SyncCuts(c, a).cd, b)
    decreases |a|
  {
    if a == [] {
      assert a + b == b;
    } else {
      assert (a + b)[0] == a[0] && (a + b)[1..] == a[1..] + b;
      CutsAppend(Sync(c, a[0]).cd, a[1..], b);
    }
  }

  /** The cycle at which the CD-ROM asks to be synced. */
  function PredictNextSync(c: Cd): Option<nat> {
    if c.InCommand() then Some(c.timer)
    else if c.irqFlags == 0 && c.async.Some? then Some(c.async.value.delay)
    else None
  }

  /** The latency of a second response: it counts from the sync that reaches its date, `x`
      here. The bytes queue up behind what the host left unread. */
  lemma AsyncLatency(c: Cd, a: seq<nat>, x: nat, b: seq<nat>)
    requires Waiting(c) && Sum(a) < c.async.value.delay <= Sum(a) + x
    ensures var late := Respond(c.drive, c.async.value.handler);
      var r := SyncCuts(c, a + [x] + b);
      var latency := late.delay + (|late.bytes| - 1) * RX_PUSH + IRQ_DELAY;
      && r.Running?
      && (r.cd.irqFlags != 0 <==> Sum(b) >= latency)
      && (r.cd.irqFlags != 0 ==>
            r.cd.irqFlags == ASYNC_OK && r.cd.hostResponse == c.hostResponse + late.bytes && r.cd.drive == late.drive)
    ensures SyncCuts(c, a).Running? && PredictNextSync(SyncCuts(c, a).cd) == Some(c.async.value.delay - Sum(a))
  {
    WaitingCuts(c, a);
    var d := SyncCuts(c, a).cd;
    WaitingSync(d, x);
    assert Started(d) == Started(c);
    StartedWillRun(c);
    assert SyncCuts(d, [x]) == Running(Started(c)) by {
      assert [x][1..] == [];
    }
    CutsAppend(c, a, [x]);
    CutsAppend(c, a + [x], b);
    InterruptIsExact(Started(c), b);
  }

  /** After these cuts and more the interrupt is up exactly from the date it is due. */
  ghost predicate OnTime(c: Cd, cuts: seq<nat>, due: nat)
    requires c.Inv()
  {
    forall b: seq<nat> :: OnTimeAfter(c, cuts, b, due)
  }

  ghost predicate OnTimeAfter(c: Cd, cuts: seq<nat>, b: seq<nat>, due: nat)
    requires c.Inv()
  {
    SyncCuts(c, cuts + b).Running?
    && (SyncCuts(c, cuts + b).cd.irqFlags != 0 <==> Sum(cuts) + Sum(b) >= due)
  }

  /** A second response is on time exactly when the sync that reaches its date falls on it. A
      sync that is not later than predicted does. */
  lemma AsyncOnTime(c: Cd, a: seq<nat>, x: nat)
    requires Waiting(c) && Sum(a) < c.async.value.delay <= Sum(a) + x
    ensures var late := Respond(c.drive, c.async.value.handler);
      var due := c.async.value.delay + late.delay + (|late.bytes| - 1) * RX_PUSH + IRQ_DELAY;
      OnTime(c, a + [x], due) <==> Sum(a) + x == c.async.value.delay
    ensures SyncCuts(c, a).Running? && PredictNextSync(SyncCuts(c, a).cd).Some?
    ensures x <= PredictNextSync(SyncCuts(c, a).cd).value ==> Sum(a) + x == c.async.value.delay
  {
    var late := Respond(c.drive, c.async.value.handler);
    OnTimeExactly(c, a, x, late.delay + (|late.bytes| - 1) * RX_PUSH + IRQ_DELAY);
    AsyncLatency(c, a, x, []);
  }

  lemma UpAfter(c: Cd, a: seq<nat>, x: nat, b: seq<nat>, latency: nat)
    requires Waiting(c) && Sum(a) < c.async.value.delay <= Sum(a) + x
    requires var late := Respond(c.drive, c.async.value.handler);
      latency == late.delay + (|late.bytes| - 1) * RX_PUSH + IRQ_DELAY
    ensures latency > 0 && SyncCuts(c, a + [x] + b).Running?
    ensures SyncCuts(c, a + [x] + b).cd.irqFlags != 0 <==> Sum(b) >= latency
  {
    AsyncLatency(c, a, x, b);
  }

  lemma OnTimeExactly(c: Cd, a: seq<nat>, x: nat, latency: nat)
    requires Waiting(c) && Sum(a) < c.async.value.delay <= Sum(a) + x
    requires var late := Respond(c.drive, c.async.value.handler);
      latency == late.delay + (|late.bytes| - 1) * RX_PUSH + IRQ_DELAY
    ensures OnTime(c, a + [x], c.async.value.delay + latency) <==> Sum(a) + x == c.async.value.delay
  {
    var due := c.async.value.delay + latency;
    SumSnoc(a, x);
    if Sum(a) + x == c.async.value.delay {
      forall b: seq<nat> ensures OnTimeAfter(c, a + [x], b, due) {
        UpAfter(c, a, x, b, latency);
      }
    } else {
      UpAfter(c, a, x, [], latency);
      var b := [latency - 1];
      assert Sum(b) == latency - 1 + Sum(b[1..]) && b[1..] == [];
      UpAfter(c, a, x, b, latency);
      assert !OnTimeAfter(c, a + [x], b, due);
    }
  }

  lemma {:induction false} SumSnoc(a: seq<nat>, x: nat)
    ensures Sum(a + [x]) == Sum(a) + x
  {
    if a == [] {
      assert a + [x] == [x] && [x][1..] == [];
    } else {
      assert (a + [x])[1..] == a[1..] + [x];
      SumSnoc(a[1..], x);
    }
  }

  function Shortened(later: Schedule, n: nat): Schedule {
    Schedule(if later.delay > n then later.delay - n else 0, later.handler)
  }

  /** The delay of a second response is shortened by the cycles that elapse in the same sync
      as the execution, although they precede it. */
  lemma ExecutionShortensDelay(c: Cd)
    requires WillRun(c) && Unexecuted(c) && c.hostParams == [] && Planned(c).later.Some?
    ensures Sync(c, c.timer).Running? && Sync(c, c.timer).cd.sequence.Execution?
    ensures Sync(c, c.timer).cd.async == Some(Shortened(Planned(c).later.value, c.timer))
  {
    Schedules(c);
    TickShortens(NextStep(c).cd, c.timer);
    SyncAcrossStep(c, c.timer, AsyncTick(NextStep(c).cd, c.timer));
  }

  lemma Schedules(c: Cd)
    requires WillRun(c) && Unexecuted(c) && c.hostParams == []
    ensures NextStep(c).Running? && NextStep(c).cd.sequence.Execution? && NextStep(c).cd.async == Planned(c).later
  {
    assert c.params + c.hostParams == c.params;
  }

  lemma TickShortens(c: Cd, n: nat)
    requires c.InCommand() && c.async.Some?
    ensures AsyncTick(c, n) == Running(c.(async := Some(Shortened(c.async.value, n))))
  {
  }

  /** So it depends on where the wait before the execution is cut. */
  lemma AsyncDelayDependsOnCut(c: Cd, cut: nat)
    requires WillRun(c) && Unexecuted(c) && c.hostParams == [] && Planned(c).later.Some? && cut < c.timer
    ensures Sync(c, cut).Running? && Sync(Sync(c, cut).cd, c.timer - cut).Running?
    ensures Sync(Sync(c, cut).cd, c.timer - cut).cd.async == Some(Shortened(Planned(c).later.value, c.timer - cut))
  {
    SyncWithinStep(c, cut);
    var d := Sync(c, cut).cd;
    WithinStepKeepsPlan(c, d, cut);
    assert Planned(d) == Planned(c);
    ExecutionShortensDelay(d);
  }

  // ---- Commands that arrive during a second response ----

  function WithCommand(c: Cd, cmd: Byte): Cd {
    c.(command := Some(cmd))
  }

  /** The interrupt of a sequence clears the command register, whatever it holds. */
  lemma IrqIgnoresCommand(c: Cd, cmd: Byte)
    requires c.Inv() && c.sequence.IrqDelay?
    ensures NextStep(WithCommand(c, cmd)) == NextStep(c)
  {
  }

  lemma LateIgnoresCommand(c: Cd, cmd: Byte)
    requires c.Inv() && c.sequence.AsyncRxPush?
    ensures NextStep(c).Running? && NextStep(c).cd.command == c.command
    ensures NextStep(WithCommand(c, cmd)) == Running(WithCommand(NextStep(c).cd, cmd))
    ensures NextStep(c).cd.InCommand()
  {
  }

  lemma TickIgnoresCommand(c: Cd, cmd: Byte, n: nat)
    requires c.InCommand()
    ensures AsyncTick(WithCommand(c, cmd), n) == Running(WithCommand(AsyncTick(c, n).cd, cmd))
    ensures AsyncTick(c, n).Running? && AsyncTick(c, n).cd.command == c.command
  {
  }

  ghost predicate LostAfter(c: Cd, cmd: Byte, n: nat)
    requires WillRun(c) && c.command.None?
  {
    && WithCommand(c, cmd).Inv() && Sync(c, n).Running?
    && Sync(WithCommand(c, cmd), n) ==
       if n < Due(c) then Running(WithCommand(Sync(c, n).cd, cmd)) else Sync(c, n)
  }

  /** A command written during a second response is lost: it stays in its register until the
      interrupt of that response, and from then on everything is as if it had not been
      written. */
  lemma {:induction false} CommandIsLost(c: Cd, cmd: Byte, n: nat)
    requires WillRun(c) && c.command.None?
    ensures OnCommand(c, cmd) == Running(WithCommand(c, cmd)) && LostAfter(c, cmd, n)
    decreases n
  {
    if n < c.timer {
      LostWithinStep(c, cmd, n);
    } else if c.sequence.IrqDelay? {
      LostAtIrq(c, cmd, n);
    } else {
      var e := LostAcrossStep(c, cmd, n);
      CommandIsLost(e, cmd, n - c.timer);
    }
  }

  lemma SameNextStep(c: Cd, d: Cd, n: nat)
    requires c.Inv() && d.Inv() && c.InCommand() && d.InCommand() && c.timer == d.timer <= n
    requires NextStep(d) == NextStep(c) && NextStep(c).Running?
    ensures Sync(d, n) == Sync(c, n)
  {
    var t := AsyncTick(NextStep(c).cd, c.timer);
    SyncAcrossStep(c, n, t);
    SyncAcrossStep(d, n, t);
  }

  lemma LostAtIrq(c: Cd, cmd: Byte, n: nat)
    requires WillRun(c) && c.command.None? && n >= c.timer && c.sequence.IrqDelay?
    ensures LostAfter(c, cmd, n)
  {
    IrqFires(c, n);
    IrqIgnoresCommand(c, cmd);
    IrqStep(c);
    SameNextStep(c, WithCommand(c, cmd), n);
  }

  lemma LostAcrossStep(c: Cd, cmd: Byte, n: nat) returns (e: Cd)
    requires WillRun(c) && c.command.None? && n >= c.timer && c.sequence.AsyncRxPush?
    ensures WillRun(e) && e.command.None? && WithCommand(c, cmd).Inv()
    ensures LostAfter(e, cmd, n - c.timer) ==> LostAfter(c, cmd, n)
  {
    e := StepOfSync(c, n);
    LateIgnoresCommand(c, cmd);
    TickIgnoresCommand(NextStep(c).cd, cmd, c.timer);
    LateStepOfSync(c, cmd, n, e);
  }

  lemma LateStepOfSync(c: Cd, cmd: Byte, n: nat, e: Cd)
    requires WithCommand(c, cmd).Inv() && n >= c.timer && c.InCommand()
    requires NextStep(WithCommand(c, cmd)).Running?
    requires AsyncTick(NextStep(WithCommand(c, cmd)).cd, c.timer) == Running(WithCommand(e, cmd))
    ensures WithCommand(e, cmd).Inv() && Sync(WithCommand(c, cmd), n) == Sync(WithCommand(e, cmd), n - c.timer)
  {
    SyncAcrossStep(WithCommand(c, cmd), n, Running(WithCommand(e, cmd)));
  }

  lemma LostWithinStep(c: Cd, cmd: Byte, n: nat)
    requires WillRun(c) && c.command.None? && n < c.timer
    ensures LostAfter(c, cmd, n)
  {
    if n > 0 {
      var e := c.(timer := c.timer - n);
      IterationWithinStep(c, n, e);
      IterationWithinStep(WithCommand(c, cmd), n, WithCommand(e, cmd));
      TickIgnoresCommand(e, cmd, n);
    }
  }

  lemma IterationWithinStep(c: Cd, n: nat, d: Cd)
    requires c.Inv() && 0 < n < c.timer && c.InCommand() && d == c.(timer := c.timer - n)
    ensures Sync(c, n) == AsyncTick(d, n)
  {
    assert Iteration(c, n) == AsyncTick(d, n);
    SyncContinues(c, n, AsyncTick(d, n), n);
  }

  // ---- What becomes of a command ----

  /** A running sequence, or an interrupt that is not acknowledged. */
  predicate Occupied(c: Cd) {
    c.InCommand() || c.irqFlags != 0
  }

  lemma IterationStaysOccupied(c: Cd, n: nat)
    requires c.Inv() && Occupied(c) && n > 0 && Iteration(c, n).Running?
    ensures Occupied(Iteration(c, n).cd)
  {
    if c.InCommand() && c.timer <= n {
      StepStaysOccupied(c);
      AsyncWaits(NextStep(c).cd, c.timer);
      IterationAcrossStep(c, n);
    } else {
      AsyncWaits(SequenceTick(c, n).cd, Elapsed(c, n));
    }
  }

  lemma StepStaysOccupied(c: Cd)
    requires c.Inv() && c.InCommand() && NextStep(c).Running?
    ensures Occupied(NextStep(c).cd)
  {
  }

  /** Time alone never makes the sub-CPU quiet again. */
  lemma {:induction false} StaysOccupied(c: Cd, n: nat)
    requires c.Inv() && Occupied(c)
    ensures Sync(c, n).Running? ==> Occupied(Sync(c, n).cd)
    decreases n
  {
    if n > 0 {
      var t, e := Iteration(c, n), Elapsed(c, n);
      SyncContinues(c, n, t, e);
      if t.Running? {
        IterationStaysOccupied(c, n);
        StaysOccupied(t.cd, n - e);
      }
    }
  }

  /** A quiet sub-CPU with nothing scheduled stays as it is. */
  lemma {:induction false} QuietStays(c: Cd, n: nat)
    requires c.Inv() && !Occupied(c) && c.async.None?
    ensures Sync(c, n) == Running(c)
  {
    if n > 0 {
      IterationGood(c, n);
      assert Sync(c, n) == Sync(Iteration(c, n).cd, 0);
    }
  }

  /** A command written while an interrupt waits to be acknowledged is kept, however long. */
  lemma CommandWaits(c: Cd, cmd: Byte, n: nat)
    requires c.Inv() && !c.InCommand() && c.irqFlags != 0 && c.command.None?
    ensures OnCommand(c, cmd) == Running(WithCommand(c, cmd)) && WithCommand(c, cmd).Inv()
    ensures Sync(WithCommand(c, cmd), n).Running?
    ensures var d := Sync(WithCommand(c, cmd), n).cd;
      d.command == Some(cmd) && !d.InCommand() && d.irqFlags == c.irqFlags && d.hostParams == c.hostParams
  {
    UnacknowledgedWaits(WithCommand(c, cmd), n);
  }

  /** It starts at the acknowledgement that leaves no flag up, and not before; if a second
      response is still to come the controller gives up there. */
  lemma CommandStartsAtAck(c: Cd, bits: Byte, clearParams: bool)
    requires c.Inv() && !c.InCommand() && c.irqFlags != 0 && c.command.Some?
    ensures var r := OnAcknowledge(c, bits, clearParams);
      var kept := if clearParams then [] else c.hostParams;
      if Remaining(c.irqFlags, bits) != 0 then
        r.Running? && r.cd.command == c.command && !r.cd.InCommand() && r.cd.irqFlags != 0 && r.cd.hostParams == kept
      else if c.async.Some? then r == Panic(CommandDuringAsync)
      else
        && r.Running? && r.cd.command == c.command && r.cd.drive == c.drive && r.cd.hostParams == kept
        && r.cd.sequence.CommandPending? && r.cd.params == []
  {
  }

  /** After some time everything is as if the command had not been written. */
  ghost predicate Lost(c: Cd, cmd: Byte)
    requires c.Inv()
  {
    OnCommand(c, cmd).Running? && exists n: nat :: SameAfter(OnCommand(c, cmd).cd, c, n)
  }

  ghost predicate SameAfter(c: Cd, d: Cd, n: nat)
    requires c.Inv() && d.Inv()
  {
    Sync(c, n) == Sync(d, n)
  }

  /** A command written with none pending is lost exactly when a sequence is running, which is
      then a second response. */
  lemma CommandLostExactly(c: Cd, cmd: Byte)
    requires c.Inv() && c.command.None?
    ensures Lost(c, cmd) <==> c.InCommand()
  {
    if c.InCommand() {
      assert WillRun(c);
      CommandIsLost(c, cmd, Due(c));
      assert SameAfter(WithCommand(c, cmd), c, Due(c));
    } else if OnCommand(c, cmd).Running? {
      forall n: nat ensures !SameAfter(OnCommand(c, cmd).cd, c, n) {
        CommandLeavesTrace(c, cmd, n);
      }
    }
  }

  lemma CommandLeavesTrace(c: Cd, cmd: Byte, n: nat)
    requires c.Inv() && c.command.None? && !c.InCommand() && OnCommand(c, cmd).Running?
    ensures !SameAfter(OnCommand(c, cmd).cd, c, n)
  {
    if c.irqFlags != 0 {
      CommandWaits(c, cmd, n);
      UnacknowledgedWaits(c, n);
    } else {
      CommandStarts(c, cmd);
      StaysOccupied(OnCommand(c, cmd).cd, n);
      QuietStays(c, n);
    }
  }

  // ---- A run that loses a command ----

  ghost predicate Reachable(start: Cd, c: Cd)
    requires start.Inv()
  {
    exists ops: seq<HostOp> :: RunHost(Running(start), ops) == Running(c)
  }

  lemma {:induction false} RunHostSnoc(o: Outcome, ops: seq<HostOp>, op: HostOp, c: Cd)
    requires o.Good() && RunHost(o, ops) == Running(c)
    ensures c.Inv() && RunHost(o, ops + [op]) == Host(c, op)
    decreases |ops|
  {
    if ops == [] {
      assert ops + [op] == [op] && [op][1..] == [];
      assert RunHost(Host(c, op), []) == Host(c, op);
    } else {
      assert (ops + [op])[0] == ops[0] && (ops + [op])[1..] == ops[1..] + [op];
      RunHostSnoc(Host(o.cd, ops[0]), ops[1..], op, c);
    }
  }

  lemma ReachNext(start: Cd, c: Cd, op: HostOp, d: Cd)
    requires start.Inv() && Reachable(start, c) && c.Inv() && Host(c, op) == Running(d)
    ensures Reachable(start, d)
  {
    var ops: seq<HostOp> :| RunHost(Running(start), ops) == Running(c);
    RunHostSnoc(Running(start), ops, op, c);
  }

  lemma AsyncKeptByPush(c: Cd, more: Sequence, delay: nat, last: Sequence)
    requires PushResponse(c, more, delay, last).Running?
    ensures var d := PushResponse(c, more, delay, last).cd;
      d.async == c.async && (d.sequence == more || d.sequence == last)
  {
  }

  lemma AsyncKeptByStep(c: Cd)
    requires c.drive.Valid() && c.InCommand() && !Unexecuted(c) && NextStep(c).Running?
    ensures NextStep(c).cd.async == c.async && !Unexecuted(NextStep(c).cd)
  {
    match c.sequence
    case Execution =>
    case RxFlush => AsyncKeptByPush(c, RxPush, BUSY_DELAY, BusyDelay);
    case RxPush => AsyncKeptByPush(c, RxPush, BUSY_DELAY, BusyDelay);
    case BusyDelay =>
    case IrqDelay =>
    case AsyncRxPush => AsyncKeptByPush(c, AsyncRxPush, IRQ_DELAY, IrqDelay);
  }

  lemma IterationKeepsAsync(c: Cd, n: nat)
    requires c.Inv() && Occupied(c) && !Unexecuted(c) && c.async.Some? && n > 0 && Iteration(c, n).Running?
    ensures Iteration(c, n).cd.async.Some? && !Unexecuted(Iteration(c, n).cd)
  {
    if c.InCommand() && c.timer <= n {
      AsyncKeptByStep(c);
      StepStaysOccupied(c);
      AsyncWaits(NextStep(c).cd, c.timer);
      IterationAcrossStep(c, n);
    } else {
      AsyncWaits(SequenceTick(c, n).cd, Elapsed(c, n));
    }
  }

  /** A scheduled second response stays scheduled while the sub-CPU is occupied. */
  lemma {:induction false} AsyncKept(c: Cd, n: nat)
    requires c.Inv() && Occupied(c) && !Unexecuted(c) && c.async.Some?
    ensures Sync(c, n).Running? ==> Sync(c, n).cd.async.Some?
    decreases n
  {
    if n > 0 {
      var t, e := Iteration(c, n), Elapsed(c, n);
      SyncContinues(c, n, t, e);
      if t.Running? {
        IterationKeepsAsync(c, n);
        IterationStaysOccupied(c, n);
        AsyncKept(t.cd, n - e);
      }
    }
  }

  /** A command with a second response, without parameters, up to its interrupt. */
  lemma FirstResponse(start: Cd, c: Cd) returns (d: Cd)
    requires start.Inv() && Reachable(start, c) && WillRun(c) && Unexecuted(c) && c.hostParams == []
    requires Planned(c).later.Some?
    ensures Reachable(start, d) && d.Inv() && !d.InCommand() && d.command.None? && d.async.Some?
    ensures d.irqFlags == FinalCode(c)
  {
    ExecutionShortensDelay(c);
    SyncIsExact(c, c.timer);
    var e := Sync(c, c.timer).cd;
    ReachNext(start, c, Pass(c.timer), e);
    SyncIsExact(e, Due(e));
    AsyncKept(e, Due(e));
    d := Sync(e, Due(e)).cd;
    ReachNext(start, e, Pass(Due(e)), d);
  }

  lemma AcknowledgeAll(c: Cd)
    requires c.Inv() && !c.InCommand() && c.command.None? && (c.irqFlags == ASYNC_OK || c.irqFlags == OK || c.irqFlags == ERROR)
    ensures OnAcknowledge(c, 0x1f, false).Running?
    ensures var d := OnAcknowledge(c, 0x1f, false).cd;
      d.command.None? && (d.InCommand() || (d.irqFlags == 0 && d.async == c.async))
  {
  }

  /** Once the first interrupt is acknowledged the second response starts, at once or at its
      date. */
  lemma SecondResponse(start: Cd, c: Cd) returns (d: Cd)
    requires start.Inv() && Reachable(start, c) && c.Inv() && !c.InCommand() && c.command.None? && c.async.Some?
    requires c.irqFlags == OK || c.irqFlags == ERROR
    ensures Reachable(start, d) && d.Inv() && d.InCommand() && d.command.None?
  {
    AcknowledgeAll(c);
    d := OnAcknowledge(c, 0x1f, false).cd;
    ReachNext(start, c, Acknowledge(0x1f, false), d);
    if !d.InCommand() {
      var e := d;
      WaitingSync(e, e.async.value.delay);
      StartedWillRun(e);
      d := Started(e);
      ReachNext(start, e, Pass(e.async.value.delay), d);
    }
  }

  lemma ReadTocStarts(start: Cd) returns (c: Cd)
    requires start.Inv() && !Occupied(start) && start.async.None? && start.hostParams == []
    ensures Reachable(start, c) && WillRun(c) && Unexecuted(c) && c.hostParams == [] && Planned(c).later.Some?
    ensures FinalCode(c) == OK
  {
    CommandStarts(start, 0x1e);
    c := OnCommand(start, 0x1e).cd;
    assert RunHost(Running(start), []) == Running(start);
    ReachNext(start, start, SetCommand(0x1e), c);
    assert c.params + c.hostParams == [];
    assert Decode(0x1e) == Some(ReadToc);
  }

  /** From a fresh controller the host can lose any command: it reads the table of contents,
      acknowledges the first response, waits for the second and writes the command then. */
  lemma LostIsReachable(disc: Option<Region>, location: seq<Byte>, cmd: Byte)
    requires |location| == 8
    ensures exists c: Cd :: Reachable(NewCd(disc, location), c) && c.Inv() && c.command.None? && Lost(c, cmd)
  {
    var start := NewCd(disc, location);
    var a := ReadTocStarts(start);
    var b := FirstResponse(start, a);
    var c := SecondResponse(start, b);
    CommandLostExactly(c, cmd);
  }
}
