/** The dialogue between the host and the CD-ROM sub-CPU (src/cdrom/mod.rs): commands and their
    parameters one way, response bytes and interrupts the other, all of it timed. */
module CdProtocol {
  import opened Options
  import opened Fifos
  import opened CdCommands

  // Timings, in CPU cycles.
  const COMMAND_PENDING: nat := 9_400
  const COMMAND_PENDING_VARIATION: nat := 6_000
  const PARAM_PUSH: nat := 1_800
  const EXECUTION: nat := 2_000
  const RX_FLUSH: nat := 3_500
  const RX_PUSH: nat := 1_500
  const BUSY_DELAY: nat := 3_300
  const IRQ_DELAY: nat := 2_000

  datatype Sequence =
    | Idle
    | CommandPending
    | ParamPush
    | Execution
    | RxFlush
    | RxPush
    | BusyDelay
    | IrqDelay
    | AsyncRxPush

  /** One cycle of the sub-CPU's random generator. */
  function NextRandom(x: bv32): (r: bv32)
    ensures x != 0 ==> r != 0
  {
    var a := x ^ (x << 6);
    var b := a ^ (a >> 1);
    b ^ (b << 11)
  }

  /** The first numbers from its seed. */
  lemma FirstRandoms()
    ensures NextRandom(1) == 0x0003_0861
    ensures NextRandom(0x0003_0861) == 0x0c60_1031
    ensures NextRandom(0x0c60_1031) == 0xaec4_5a49
  {
  }

  /** `asserted` counts the interrupts sent to the main interrupt controller. */
  datatype Cd = Cd(
    hostParams: seq<Byte>, hostResponse: seq<Byte>, command: Option<Byte>, irqFlags: Byte, irqMask: Byte,
    sequence: Sequence, timer: nat, params: seq<Byte>, response: seq<Byte>, irqCode: Byte,
    async: Option<Schedule>, drive: Drive, random: bv32, asserted: nat)
  {
    predicate InCommand() {
      !sequence.Idle?
    }

    /** The busy flag is down in the last delay before an interrupt and in second responses. */
    predicate IsBusy() {
      || sequence.CommandPending? || sequence.ParamPush? || sequence.Execution? || sequence.RxFlush?
      || sequence.RxPush? || sequence.BusyDelay?
    }

    /** What every step keeps. */
    ghost predicate Inv() {
      Unsettled() && NothingStuck()
    }

    /** The same while something may still have to be started. */
    ghost predicate Unsettled() {
      && WithinCapacity()
      && drive.Valid() && random != 0 && irqCode != 0
      && (InCommand() ==> irqFlags == 0 && timer > 0)
      && (IsBusy() ==> command.Some?)
      && (sequence.CommandPending? || sequence.ParamPush? ==> async.None? && response == [])
      && (sequence.Execution? || sequence.RxFlush? || sequence.RxPush? || sequence.AsyncRxPush? ==> response != [])
      && (sequence.BusyDelay? || sequence.IrqDelay? ==> response == [])
      && (async.Some? ==> CanRespond(drive, async.value.handler))
    }

    /** An idle sub-CPU leaves neither a command nor a second response waiting, except for the
        host to acknowledge an interrupt. */
    predicate NothingStuck() {
      !InCommand() && irqFlags == 0 ==> command.None? && (async.Some? ==> async.value.delay > 0)
    }

    /** No queue outgrows its buffer. A second response is pushed behind the first, which is
        one byte long then. */
    predicate WithinCapacity() {
      && |hostParams| <= CAPACITY
      && |hostResponse| <= 9
      && |response| <= 8
      && (sequence.CommandPending? || sequence.ParamPush? ==> |params| + |hostParams| <= CAPACITY)
      && (sequence.Execution? && async.Some? ==> |response| <= 1)
      && (!sequence.Execution? && async.Some? ==> |hostResponse| + |response| <= 1)
      && (sequence.RxFlush? || sequence.RxPush? ==> |hostResponse| + |response| <= 8)
      && (sequence.AsyncRxPush? ==> |hostResponse| + |response| <= 9)
    }
  }

  datatype Outcome = Running(cd: Cd) | Panic(fault: Fault) {
    /** The run goes on, in a good state, or the host is to blame. */
    ghost predicate Good() {
      match this
      case Running(c) => c.Inv()
      case Panic(f) => f.ByHost()
    }
  }

  function NewCd(disc: Option<Region>, location: seq<Byte>): (c: Cd)
    requires |location| == 8
    ensures c.Inv()
  {
    Cd([], [], None, 0, 0, Idle, 0, [], [], OK, None, NewDrive(disc, location), 1, 0)
  }

  // ---- Sub-CPU ----

  function TriggerIrq(c: Cd): Outcome {
    if c.irqFlags != 0 then Panic(IrqPending)
    else
      Running(c.(irqFlags := c.irqCode, asserted := c.asserted + if c.irqCode & c.irqMask != 0 then 1 else 0))
  }

  function ExecuteCommand(c: Cd): Outcome
    requires c.drive.Valid()
  {
    if c.command.None? then Panic(NoCommand)
    else
      match Execute(c.drive, c.command.value, c.params)
      case Refused(f) => Panic(f)
      case Reply(drive, bytes, code, later) =>
        var c' := c.(drive := drive, params := [], response := c.response + bytes,
                     irqCode := if code == ERROR then ERROR else c.irqCode);
        if later.None? then Running(c')
        else if c.async.Some? then Panic(AsyncPending)
        else Running(c'.(async := later))
  }

  function NextStep(c: Cd): Outcome
    requires c.drive.Valid()
  {
    match c.sequence
    case Idle => Panic(IdleStep)
    case CommandPending => TakeParam(c)
    case ParamPush => TakeParam(c)
    case Execution => Running(c.(hostResponse := [], timer := RX_FLUSH, sequence := RxFlush))
    case RxFlush => PushResponse(c, RxPush, BUSY_DELAY, BusyDelay)
    case RxPush => PushResponse(c, RxPush, BUSY_DELAY, BusyDelay)
    case BusyDelay => Running(c.(timer := IRQ_DELAY, sequence := IrqDelay))
    case IrqDelay =>
      match TriggerIrq(c.(command := None)) {
        case Panic(f) => Panic(f)
        case Running(c') => Running(c'.(sequence := Idle))
      }
    case AsyncRxPush => PushResponse(c, AsyncRxPush, IRQ_DELAY, IrqDelay)
  }

  /** Sends the next parameter to the sub-CPU, or runs the command after the last one. */
  function TakeParam(c: Cd): Outcome
    requires c.drive.Valid()
  {
    if c.hostParams == [] then
      match ExecuteCommand(c) {
        case Panic(f) => Panic(f)
        case Running(c') => Running(c'.(timer := EXECUTION, sequence := Execution))
      }
    else
      Running(c.(hostParams := c.hostParams[1..], params := c.params + [c.hostParams[0]],
                 timer := PARAM_PUSH, sequence := ParamPush))
  }

  /** Sends a response byte to the host, and moves on after the last one. */
  function PushResponse(c: Cd, more: Sequence, delay: nat, last: Sequence): Outcome {
    if c.response == [] then Panic(NoResponse)
    else
      var c' := c.(response := c.response[1..], hostResponse := c.hostResponse + [c.response[0]]);
      Running(if c'.response == [] then c'.(timer := delay, sequence := last)
              else c'.(timer := RX_PUSH, sequence := more))
  }

  function MaybeStartCommand(c: Cd): Outcome {
    if c.command.Some? && c.irqFlags == 0 && !c.InCommand() then
      if c.async.Some? then Panic(CommandDuringAsync)
      else
        var x := NextRandom(c.random);
        Running(c.(random := x, sequence := CommandPending,
                   timer := COMMAND_PENDING + x as nat % COMMAND_PENDING_VARIATION,
                   params := [], response := [], irqCode := OK))
    else Running(c)
  }

  function MaybeProcessAsync(c: Cd): Outcome {
    if c.async.Some? && c.async.value.delay == 0 && c.irqFlags == 0 && !c.InCommand() then
      if !CanRespond(c.drive, c.async.value.handler) then Panic(NoDisc)
      else
        var late := Respond(c.drive, c.async.value.handler);
        Running(c.(async := None, irqCode := ASYNC_OK, response := late.bytes, drive := late.drive,
                   sequence := AsyncRxPush, timer := late.delay))
    else Running(c)
  }

  /** Starts what was waiting for an acknowledgement. */
  function Settle(c: Cd): Outcome {
    match MaybeStartCommand(c)
    case Panic(f) => Panic(f)
    case Running(c') => MaybeProcessAsync(c')
  }

  // ---- Time ----

  /** The cycles of the next iteration of the sync loop, out of `n`. */
  function Elapsed(c: Cd, n: nat): nat {
    if c.InCommand() && c.timer <= n then c.timer else n
  }

  /** The sequence part of an iteration. */
  function SequenceTick(c: Cd, n: nat): Outcome
    requires c.drive.Valid()
  {
    if !c.InCommand() then Running(c)
    else if c.timer > n then Running(c.(timer := c.timer - n))
    else NextStep(c)
  }

  /** The part of an iteration that steps the second response. */
  function AsyncTick(c: Cd, elapsed: nat): Outcome {
    if c.async.None? then Running(c)
    else if c.async.value.delay > elapsed then
      Running(c.(async := Some(Schedule(c.async.value.delay - elapsed, c.async.value.handler))))
    else MaybeProcessAsync(c.(async := Some(Schedule(0, c.async.value.handler))))
  }

  function Iteration(c: Cd, n: nat): Outcome
    requires c.drive.Valid()
  {
    match SequenceTick(c, n)
    case Panic(f) => Panic(f)
    case Running(c') => AsyncTick(c', Elapsed(c, n))
  }

  /** Lets `n` cycles pass. The loop makes progress because a running sequence has a positive
      timer. */
  function Sync(c: Cd, n: nat): (r: Outcome)
    requires c.Inv()
    ensures r.Good()
    decreases n
  {
    if n == 0 then Running(c)
    else
      IterationGood(c, n);
      match Iteration(c, n)
      case Panic(f) => Panic(f)
      case Running(c') => Sync(c', n - Elapsed(c, n))
  }

  // ---- The protocol invariant ----

  lemma ExecuteGood(c: Cd)
    requires c.Inv() && (c.sequence.CommandPending? || c.sequence.ParamPush?) && c.hostParams == []
    ensures TakeParam(c).Good()
  {
    var reply := Execute(c.drive, c.command.value, c.params);
    if reply.Reply? {
      assert c.response + reply.bytes == reply.bytes;
    }
  }

  lemma TakeParamGood(c: Cd)
    requires c.Inv() && (c.sequence.CommandPending? || c.sequence.ParamPush?)
    ensures TakeParam(c).Good()
  {
    if c.hostParams == [] {
      ExecuteGood(c);
    }
  }

  lemma PushResponseGood(c: Cd)
    requires c.Inv() && (c.sequence.RxFlush? || c.sequence.RxPush?)
    ensures NextStep(c).Good()
  {
  }

  lemma PushLateGood(c: Cd)
    requires c.Inv() && c.sequence.AsyncRxPush?
    ensures NextStep(c).Good()
  {
  }

  lemma NextStepGood(c: Cd)
    requires c.Inv() && c.InCommand()
    ensures NextStep(c).Good()
  {
    if c.sequence.CommandPending? || c.sequence.ParamPush? {
      TakeParamGood(c);
    } else if c.sequence.RxFlush? || c.sequence.RxPush? {
      PushResponseGood(c);
    } else if c.sequence.AsyncRxPush? {
      PushLateGood(c);
    }
  }

  lemma StartGood(c: Cd)
    requires c.Unsettled()
    ensures MaybeStartCommand(c).Panic? ==> MaybeStartCommand(c).fault.ByHost()
    ensures MaybeStartCommand(c).Running? ==>
              MaybeStartCommand(c).cd.Unsettled() && (c.async.None? ==> MaybeStartCommand(c).cd.Inv())
  {
  }

  lemma ProcessGood(c: Cd)
    requires c.Unsettled() && (!c.InCommand() && c.irqFlags == 0 ==> c.command.None?)
    ensures MaybeProcessAsync(c).Good()
  {
  }

  lemma SettleGood(c: Cd)
    requires c.Unsettled()
    ensures Settle(c).Good()
  {
    StartGood(c);
    if MaybeStartCommand(c).Running? {
      ProcessGood(MaybeStartCommand(c).cd);
    }
  }

  lemma AsyncTickGood(c: Cd, n: nat)
    requires c.Inv()
    ensures AsyncTick(c, n).Good()
  {
    if c.async.Some? && c.async.value.delay <= n {
      ProcessGood(c.(async := Some(Schedule(0, c.async.value.handler))));
    }
  }

  lemma IterationGood(c: Cd, n: nat)
    requires c.Inv() && n > 0
    ensures Iteration(c, n).Good() && 0 < Elapsed(c, n) <= n
  {
    if c.InCommand() && c.timer <= n {
      NextStepGood(c);
    }
    if SequenceTick(c, n).Running? {
      AsyncTickGood(SequenceTick(c, n).cd, Elapsed(c, n));
    }
  }

  // ---- The host ----

  datatype HostOp =
    | Pass(cycles: nat)
    | SetCommand(cmd: Byte)
    | SetParameter(param: Byte)
    | SetMask(mask: Byte)
    | Acknowledge(bits: Byte, clearParams: bool)
    | ReadResponse

  function Host(c: Cd, op: HostOp): (r: Outcome)
    requires c.Inv()
    ensures r.Good()
  {
    match op
    case Pass(n) => Sync(c, n)
    case SetCommand(cmd) => OnCommand(c, cmd)
    case SetParameter(v) => OnParameter(c, v)
    case SetMask(m) => Running(c.(irqMask := m & 0x1f))
    case Acknowledge(bits, clear) => OnAcknowledge(c, bits, clear)
    case ReadResponse => OnRead(c)
  }

  function OnCommand(c: Cd, cmd: Byte): (r: Outcome)
    requires c.Inv()
    ensures r.Good()
  {
    if c.command.Some? then Panic(NestedCommand)
    else
      StartGood(c.(command := Some(cmd)));
      MaybeStartCommand(c.(command := Some(cmd)))
  }

  function OnParameter(c: Cd, v: Byte): (r: Outcome)
    requires c.Inv()
    ensures r.Good()
  {
    if c.command.Some? then Panic(ParameterDuringCommand)
    else if |c.hostParams| == CAPACITY then Panic(ParameterOverflow)
    else Running(c.(hostParams := c.hostParams + [v]))
  }

  function OnRead(c: Cd): (r: Outcome)
    requires c.Inv()
    ensures r.Good()
  {
    if c.hostResponse == [] then Panic(ResponseUnderflow)
    else Running(c.(hostResponse := c.hostResponse[1..]))
  }

  function Remaining(flags: Byte, bits: Byte): (r: Byte)
    ensures flags == 0 ==> r == 0
  {
    flags & !(bits & 0x1f)
  }

  function OnAcknowledge(c: Cd, bits: Byte, clearParams: bool): (r: Outcome)
    requires c.Inv()
    ensures r.Good()
  {
    var c0 := c.(irqFlags := Remaining(c.irqFlags, bits));
    assert c0.Unsettled();
    SettleGood(c0);
    match Settle(c0)
    case Panic(f) => Panic(f)
    case Running(c1) => Running(if clearParams then c1.(hostParams := []) else c1)
  }

  /** An acknowledgement takes down exactly the flags that it names. */
  lemma AcknowledgeBits(c: Cd, bits: Byte, clearParams: bool, k: Byte)
    requires c.Inv() && OnAcknowledge(c, bits, clearParams).Running?
    requires k == 1 || k == 2 || k == 4 || k == 8 || k == 16
    ensures OnAcknowledge(c, bits, clearParams).cd.irqFlags & k != 0 <==> c.irqFlags & k != 0 && bits & k == 0
  {
    AcknowledgeKeeps(c, bits, clearParams);
    RemainingBits(c.irqFlags, bits, k);
  }

  /** A write of the mask sets its five bits and nothing else. */
  lemma MaskBits(c: Cd, mask: Byte, k: Byte)
    requires c.Inv() && (k == 1 || k == 2 || k == 4 || k == 8 || k == 16)
    ensures var r := Host(c, SetMask(mask));
      && r.Running? && r.cd == c.(irqMask := r.cd.irqMask)
      && r.cd.irqMask < 0x20 && (r.cd.irqMask & k != 0 <==> mask & k != 0)
  {
  }

  lemma RemainingBits(flags: Byte, bits: Byte, k: Byte)
    requires k == 1 || k == 2 || k == 4 || k == 8 || k == 16
    ensures Remaining(flags, bits) & k != 0 <==> flags & k != 0 && bits & k == 0
  {
  }

  /** Fields that starting a command or a second response leaves alone. */
  predicate SameHost(c: Cd, d: Cd) {
    && d.irqFlags == c.irqFlags && d.irqMask == c.irqMask && d.asserted == c.asserted
    && d.hostParams == c.hostParams && d.hostResponse == c.hostResponse && d.command == c.command
  }

  lemma StartKeeps(c: Cd)
    requires MaybeStartCommand(c).Running?
    ensures SameHost(c, MaybeStartCommand(c).cd)
  {
  }

  lemma SettleKeeps(c: Cd)
    requires Settle(c).Running?
    ensures SameHost(c, Settle(c).cd)
  {
    StartKeeps(c);
  }

  lemma AcknowledgeKeeps(c: Cd, bits: Byte, clearParams: bool)
    requires c.Inv() && OnAcknowledge(c, bits, clearParams).Running?
    ensures SameHost(c.(irqFlags := Remaining(c.irqFlags, bits), hostParams := if clearParams then [] else c.hostParams),
                     OnAcknowledge(c, bits, clearParams).cd)
  {
    SettleKeeps(c.(irqFlags := Remaining(c.irqFlags, bits)));
  }

  function RunHost(o: Outcome, ops: seq<HostOp>): (r: Outcome)
    requires o.Good()
    ensures r.Good()
    decreases |ops|
  {
    if ops == [] || o.Panic? then o else RunHost(Host(o.cd, ops[0]), ops[1..])
  }

  // ---- Bytes in order ----

  function Parameters(bytes: seq<Byte>): (ops: seq<HostOp>)
    ensures |ops| == |bytes|
  {
    if bytes == [] then [] else [SetParameter(bytes[0])] + Parameters(bytes[1..])
  }

  lemma FirstOp(c: Cd, op: HostOp, ops: seq<HostOp>)
    requires c.Inv()
    ensures RunHost(Running(c), [op] + ops) == RunHost(Host(c, op), ops)
  {
    assert ([op] + ops)[1..] == ops;
  }

  lemma ParameterQueues(c: Cd, v: Byte, d: Cd)
    requires c.Inv() && c.command.None? && |c.hostParams| < 16 && d == c.(hostParams := c.hostParams + [v])
    ensures Host(c, SetParameter(v)) == Running(d) && d.Inv()
  {
  }

  /** Parameters written before a command queue up in order, as long as the buffer holds them. */
  lemma {:induction false} ParametersQueue(c: Cd, bytes: seq<Byte>)
    requires c.Inv() && c.command.None?
    ensures RunHost(Running(c), Parameters(bytes)) ==
      if bytes == [] || |c.hostParams| + |bytes| <= 16 then Running(c.(hostParams := c.hostParams + bytes))
      else Panic(ParameterOverflow)
    decreases |bytes|
  {
    if bytes == [] {
      assert c.hostParams + bytes == c.hostParams;
    } else {
      FirstOp(c, SetParameter(bytes[0]), Parameters(bytes[1..]));
      if |c.hostParams| < 16 {
        var d := c.(hostParams := c.hostParams + [bytes[0]]);
        ParameterQueues(c, bytes[0], d);
        ParametersQueue(d, bytes[1..]);
        assert c.hostParams + [bytes[0]] + bytes[1..] == c.hostParams + bytes;
      }
    }
  }

  function Reads(n: nat): (ops: seq<HostOp>)
    ensures |ops| == n
  {
    if n == 0 then [] else [ReadResponse] + Reads(n - 1)
  }

  /** Reads of the response take its bytes from the front, and one too many is an error. */
  lemma {:induction false} ResponseReads(c: Cd, n: nat)
    requires c.Inv()
    ensures RunHost(Running(c), Reads(n)) ==
      if n <= |c.hostResponse| then Running(c.(hostResponse := c.hostResponse[n..])) else Panic(ResponseUnderflow)
    decreases n
  {
    if n == 0 {
      assert c.hostResponse[0..] == c.hostResponse;
    } else {
      FirstOp(c, ReadResponse, Reads(n - 1));
      if c.hostResponse != [] {
        var d := Host(c, ReadResponse).cd;
        ResponseReads(d, n - 1);
        if n <= |c.hostResponse| {
          assert c.hostResponse[1..][n - 1..] == c.hostResponse[n..];
        }
      }
    }
  }

  /** The pending delay of a command comes from the generator, which starts at 1. */
  lemma PendingDelay(c: Cd, cmd: Byte)
    requires c.Inv() && c.command.None? && !c.InCommand() && c.irqFlags == 0 && c.async.None?
    ensures var r := OnCommand(c, cmd);
      && r.Running? && r.cd.random == NextRandom(c.random)
      && r.cd.timer == 9_400 + r.cd.random as nat % 6_000
  {
  }

  lemma SeedIsOne(disc: Option<Region>, location: seq<Byte>)
    requires |location| == 8
    ensures NewCd(disc, location).random == 1 && NextRandom(NewCd(disc, location).random) == 0x0003_0861
  {
    FirstRandoms();
  }
}
