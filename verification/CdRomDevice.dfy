/** The CD-ROM controller as the emulator runs it: four ring buffers and a sync loop, proved
    against the protocol (src/cdrom/mod.rs). */
module CdRomDevice {
  import opened Options
  import opened Fifos
  import opened CdCommands
  import opened CdProtocol
  import CdTiming
  import TimeKeeping

  /** What a prediction does to the clock. */
  ghost predicate CanSchedule(t: TimeKeeping.Clock, c: Cd) {
    t.Valid() && (CdTiming.PredictNextSync(c).Some? ==> t.now + CdTiming.PredictNextSync(c).value <= TimeKeeping.U64_MAX)
  }

  ghost function Scheduled(t: TimeKeeping.Clock, c: Cd): TimeKeeping.Clock
    requires CanSchedule(t, c)
  {
    var free := TimeKeeping.Apply(t, TimeKeeping.NoSyncNeeded(TimeKeeping.Peripheral.CdRom));
    match CdTiming.PredictNextSync(c)
    case None => free
    case Some(d) => TimeKeeping.Apply(free, TimeKeeping.SetNextSyncDelta(TimeKeeping.Peripheral.CdRom, d))
  }

  class CdRom {
    var hostParams: Fifo
    var hostResponse: Fifo
    var command: Option<Byte>
    var irqFlags: Byte
    var irqMask: Byte
    var sequence: Sequence
    var timer: nat
    var params: Fifo
    var response: Fifo
    var irqCode: Byte
    var async: Option<Schedule>
    var drive: Drive
    var random: bv32
    var asserted: nat

    ghost predicate Sound()
      reads this
    {
      hostParams.Sound() && hostResponse.Sound() && params.Sound() && response.Sound()
    }

    ghost function View(): Cd
      requires Sound()
      reads this
    {
      Cd(hostParams.Contents(), hostResponse.Contents(), command, irqFlags, irqMask, sequence, timer,
         params.Contents(), response.Contents(), irqCode, async, drive, random, asserted)
    }

    ghost predicate Valid()
      reads this
    {
      Sound() && View().Inv()
    }

    /** The device did what the protocol says, or gave up for the same reason. */
    ghost predicate Follows(o: Outcome, fault: Option<Fault>)
      reads this
    {
      match o
      case Panic(f) => fault == Some(f)
      case Running(c) => fault == None && Sound() && View() == c
    }

    constructor (disc: Option<Region>, location: seq<Byte>)
      requires |location| == 8
      ensures Valid() && View() == NewCd(disc, location)
    {
      hostParams, hostResponse, params, response := Empty(), Empty(), Empty(), Empty();
      command, irqFlags, irqMask, irqCode := None, 0, 0, OK;
      sequence, timer, async := Idle, 0, None;
      drive, random, asserted := NewDrive(disc, location), 1, 0;
    }

    method RaiseIrq() returns (fault: Option<Fault>)
      requires Sound()
      modifies this
      ensures Follows(TriggerIrq(old(View())), fault)
    {
      if irqFlags != 0 {
        return Some(IrqPending);
      }
      irqFlags := irqCode;
      if irqFlags & irqMask != 0 {
        asserted := asserted + 1;
      }
      return None;
    }

    /** Takes all parameters out of the sub-CPU's buffer. */
    method PopParams() returns (taken: seq<Byte>)
      requires Sound()
      modifies `params
      ensures Sound() && taken == old(View().params) && View() == old(View()).(params := [])
    {
      taken := [];
      while !params.IsEmpty()
        invariant Sound()
        invariant taken + params.Contents() == old(params.Contents())
        decreases params.Len()
      {
        FlagsAreExact(params);
        PopIsDequeue(params);
        ghost var before := params.Contents();
        var (v, rest) := params.Pop();
        taken, params := taken + [v], rest;
        assert before == [v] + params.Contents();
      }
      FlagsAreExact(params);
    }

    method PushAll(bytes: seq<Byte>)
      requires Sound() && response.Len() + |bytes| <= CAPACITY
      modifies `response
      ensures Sound() && View() == old(View()).(response := old(View().response) + bytes)
    {
      for i := 0 to |bytes|
        invariant Sound() && response.Len() == old(response.Len()) + i
        invariant response.Contents() == old(response.Contents()) + bytes[..i]
      {
        PushIsEnqueue(response, bytes[i]);
        FlagsAreExact(response);
        response := response.Push(bytes[i]);
        FlagsAreExact(response);
        assert bytes[..i + 1] == bytes[..i] + [bytes[i]];
      }
      assert bytes[..|bytes|] == bytes;
    }

    /** Takes in the reply of a command. */
    method Accept(reply: Reply) returns (fault: Option<Fault>)
      requires Sound() && reply.Reply? && response.Len() + |reply.bytes| <= CAPACITY
      modifies this
      ensures fault == if reply.later.Some? && old(async.Some?) then Some(AsyncPending) else None
      ensures Sound() && View() == old(View()).(
                drive := reply.drive, response := old(View().response) + reply.bytes,
                irqCode := if reply.code == ERROR then ERROR else old(irqCode),
                async := if fault.None? && reply.later.Some? then reply.later else old(async))
    {
      PushAll(reply.bytes);
      drive, fault := reply.drive, None;
      if reply.code == ERROR {
        irqCode := ERROR;
      }
      if reply.later.Some? {
        if async.Some? {
          return Some(AsyncPending);
        }
        async := reply.later;
      }
    }

    method RunCommand() returns (fault: Option<Fault>)
      requires Sound() && drive.Valid() && response.Len() == 0
      modifies this
      ensures Follows(ExecuteCommand(old(View())), fault)
    {
      if command.None? {
        return Some(NoCommand);
      }
      var taken := PopParams();
      var reply := Execute(drive, command.value, taken);
      if reply.Refused? {
        return Some(reply.fault);
      }
      fault := Accept(reply);
    }

    method SendParam() returns (fault: Option<Fault>)
      requires Valid() && (sequence.CommandPending? || sequence.ParamPush?)
      modifies this
      ensures Follows(TakeParam(old(View())), fault)
    {
      FlagsAreExact(hostParams);
      FlagsAreExact(params);
      FlagsAreExact(response);
      if hostParams.IsEmpty() {
        fault := RunCommand();
        if fault.None? {
          timer, sequence := EXECUTION, Execution;
        }
      } else {
        PopIsDequeue(hostParams);
        var (v, rest) := hostParams.Pop();
        PushIsEnqueue(params, v);
        hostParams, params := rest, params.Push(v);
        timer, sequence, fault := PARAM_PUSH, ParamPush, None;
      }
    }

    method Enter(next: Sequence, delay: nat)
      requires Sound()
      modifies `sequence, `timer
      ensures Sound() && View() == old(View()).(sequence := next, timer := delay)
    {
      sequence, timer := next, delay;
    }

    /** Moves one byte from the sub-CPU to the host. */
    method MoveResponse()
      requires Sound() && hostResponse.Len() < CAPACITY && response.Len() > 0
      modifies `response, `hostResponse
      ensures Sound() && old(View().response) != []
      ensures View() == old(View()).(response := old(View().response)[1..],
                                     hostResponse := old(View().hostResponse) + [old(View().response)[0]])
    {
      FlagsAreExact(response);
      PopIsDequeue(response);
      var (v, rest) := response.Pop();
      PushIsEnqueue(hostResponse, v);
      response, hostResponse := rest, hostResponse.Push(v);
    }

    method SendResponse(more: Sequence, delay: nat, last: Sequence) returns (fault: Option<Fault>)
      requires Sound() && hostResponse.Len() < CAPACITY && response.Len() > 0
      modifies this
      ensures Follows(PushResponse(old(View()), more, delay, last), fault)
    {
      MoveResponse();
      FlagsAreExact(response);
      if response.IsEmpty() {
        Enter(last, delay);
      } else {
        Enter(more, RX_PUSH);
      }
      return None;
    }

    method NextSubCpuStep() returns (fault: Option<Fault>)
      requires Valid() && !sequence.Idle?
      modifies this
      ensures Follows(NextStep(old(View())), fault)
    {
      FlagsAreExact(hostResponse);
      FlagsAreExact(response);
      fault := None;
      match sequence {
        case CommandPending => fault := SendParam();
        case ParamPush => fault := SendParam();
        case Execution => hostResponse, timer, sequence := Empty(), RX_FLUSH, RxFlush;
        case RxFlush => fault := SendResponse(RxPush, BUSY_DELAY, BusyDelay);
        case RxPush => fault := SendResponse(RxPush, BUSY_DELAY, BusyDelay);
        case BusyDelay => Enter(IrqDelay, IRQ_DELAY);
        case IrqDelay =>
          command := None;
          fault := RaiseIrq();
          if fault.None? {
            sequence := Idle;
          }
        case AsyncRxPush => fault := SendResponse(AsyncRxPush, IRQ_DELAY, IrqDelay);
      }
    }

    method MaybeStart() returns (fault: Option<Fault>)
      requires Sound()
      modifies this
      ensures Follows(MaybeStartCommand(old(View())), fault)
    {
      if command.Some? && irqFlags == 0 && sequence.Idle? {
        if async.Some? {
          return Some(CommandDuringAsync);
        }
        random := NextRandom(random);
        timer := COMMAND_PENDING + random as nat % COMMAND_PENDING_VARIATION;
        sequence, params, response, irqCode := CommandPending, Empty(), Empty(), OK;
      }
      return None;
    }

    method Answer(late: Late)
      requires Sound() && |late.bytes| <= CAPACITY
      modifies this
      ensures Sound()
      ensures View() == old(View()).(async := None, irqCode := ASYNC_OK, response := late.bytes, drive := late.drive)
    {
      response := Empty();
      PushAll(late.bytes);
      async, irqCode, drive := None, ASYNC_OK, late.drive;
      assert [] + late.bytes == late.bytes;
    }

    method MaybeRespond() returns (fault: Option<Fault>)
      requires Sound()
      modifies this
      ensures Follows(MaybeProcessAsync(old(View())), fault)
    {
      if async.Some? && async.value.delay == 0 && irqFlags == 0 && sequence.Idle? {
        if !CanRespond(drive, async.value.handler) {
          return Some(NoDisc);
        }
        var late := Respond(drive, async.value.handler);
        Answer(late);
        Enter(AsyncRxPush, late.delay);
      }
      return None;
    }

    method TickAsync(elapsed: nat) returns (fault: Option<Fault>)
      requires Sound()
      modifies this
      ensures Follows(AsyncTick(old(View()), elapsed), fault)
    {
      fault := None;
      if async.Some? {
        if async.value.delay > elapsed {
          async := Some(Schedule(async.value.delay - elapsed, async.value.handler));
        } else {
          async := Some(Schedule(0, async.value.handler));
          fault := MaybeRespond();
        }
      }
    }

    method Step(n: nat) returns (fault: Option<Fault>, elapsed: nat)
      requires Valid() && n > 0
      modifies this
      ensures elapsed == Elapsed(old(View()), n) && Follows(Iteration(old(View()), n), fault)
    {
      fault, elapsed := None, n;
      if !sequence.Idle? {
        if timer > n {
          timer := timer - n;
        } else {
          elapsed := timer;
          fault := NextSubCpuStep();
        }
      }
      if fault.None? {
        fault := TickAsync(elapsed);
      }
    }

    method SyncCycles(delta: nat) returns (fault: Option<Fault>)
      requires Valid()
      modifies this
      ensures Follows(Sync(old(View()), delta), fault)
      ensures fault.None? ==> Valid()
    {
      ghost var c0 := View();
      var remaining: nat := delta;
      while remaining > 0
        invariant Valid() && remaining <= delta
        invariant Sync(View(), remaining) == Sync(c0, delta)
      {
        IterationGood(View(), remaining);
        var f, elapsed := Step(remaining);
        if f.Some? {
          return f;
        }
        remaining := remaining - elapsed;
      }
      return None;
    }

    method PredictNextSync(tk: TimeKeeping.TimeKeeper)
      requires Sound() && CanSchedule(tk.View(), View())
      modifies tk
      ensures tk.View() == Scheduled(old(tk.View()), View())
    {
      tk.NoSyncNeeded(TimeKeeping.Peripheral.CdRom);
      if !sequence.Idle? {
        tk.SetNextSyncDelta(TimeKeeping.Peripheral.CdRom, timer);
      } else if irqFlags == 0 && async.Some? {
        tk.SetNextSyncDelta(TimeKeeping.Peripheral.CdRom, async.value.delay);
      }
    }

    /** Brings the CD-ROM up to date with the clock: the cycles since the last sync, cut to 32
        bits, go by, and the next step is scheduled. */
    method SyncWith(tk: TimeKeeping.TimeKeeper) returns (fault: Option<Fault>)
      requires Valid() && tk.View().Valid()
      requires var after := Sync(View(), tk.View().Unseen(TimeKeeping.Peripheral.CdRom) % 0x1_0000_0000);
        after.Running? ==> CanSchedule(tk.View(), after.cd)
      modifies this, tk
      ensures Follows(Sync(old(View()), old(tk.View()).Unseen(TimeKeeping.Peripheral.CdRom) % 0x1_0000_0000), fault)
      ensures fault.None? ==> Valid()
      ensures var synced := TimeKeeping.Apply(old(tk.View()), TimeKeeping.Op.Sync(TimeKeeping.Peripheral.CdRom));
        fault.None? ==> CanSchedule(synced, View()) && tk.View() == Scheduled(synced, View())
    {
      var delta := tk.Sync(TimeKeeping.Peripheral.CdRom);
      fault := SyncCycles(delta % 0x1_0000_0000);
      if fault.None? {
        PredictNextSync(tk);
      }
    }

    method WriteCommand(cmd: Byte) returns (fault: Option<Fault>)
      requires Valid()
      modifies this
      ensures Follows(OnCommand(old(View()), cmd), fault)
      ensures fault.None? ==> Valid()
    {
      if command.Some? {
        return Some(NestedCommand);
      }
      command := Some(cmd);
      fault := MaybeStart();
    }

    method WriteParameter(v: Byte) returns (fault: Option<Fault>)
      requires Valid()
      modifies this
      ensures Follows(OnParameter(old(View()), v), fault)
      ensures fault.None? ==> Valid()
    {
      FlagsAreExact(hostParams);
      if command.Some? {
        return Some(ParameterDuringCommand);
      }
      if hostParams.IsFull() {
        return Some(ParameterOverflow);
      }
      PushIsEnqueue(hostParams, v);
      hostParams := hostParams.Push(v);
      return None;
    }

    method WriteMask(m: Byte)
      requires Valid()
      modifies `irqMask
      ensures Valid() && Running(View()) == Host(old(View()), SetMask(m))
    {
      irqMask := m & 0x1f;
    }

    method ReadResponse() returns (fault: Option<Fault>, v: Byte)
      requires Valid()
      modifies this
      ensures Follows(OnRead(old(View())), fault)
      ensures fault.None? ==> Valid() && v == old(View().hostResponse)[0]
    {
      FlagsAreExact(hostResponse);
      if hostResponse.IsEmpty() {
        return Some(ResponseUnderflow), 0;
      }
      PopIsDequeue(hostResponse);
      var (b, rest) := hostResponse.Pop();
      hostResponse := rest;
      return None, b;
    }

    method IrqAck(bits: Byte, clearParams: bool) returns (fault: Option<Fault>)
      requires Valid()
      modifies this
      ensures Follows(OnAcknowledge(old(View()), bits, clearParams), fault)
      ensures fault.None? ==> Valid()
    {
      irqFlags := Remaining(irqFlags, bits);
      fault := MaybeStart();
      if fault.None? {
        fault := MaybeRespond();
      }
      if fault.None? && clearParams {
        hostParams := Empty();
      }
    }
  }
}
