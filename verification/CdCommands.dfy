/** What the sub-CPU answers to each command (src/cdrom/mod.rs). Sector reads are not part of
    this model, so the drive never reports that it is reading. */
module CdCommands {
  import opened Options
  import opened Fifos

  datatype Region = Japan | NorthAmerica | Europe

  /** A disc position in minutes, seconds and frames, in BCD. */
  datatype Msf = Msf(m: Byte, s: Byte, f: Byte) {
    predicate ValidBcd() {
      && m >> 4 <= 9 && m & 0xf <= 9
      && s >> 4 <= 5 && s & 0xf <= 9
      && f & 0xf <= 9 && f < 0x75
    }

    /** Before 00:02:00. */
    predicate InPregap() {
      m == 0 && s < 2
    }
  }

  /** The drive as commands see it. `location` stands for the eight bytes of position
      information of the last sector. */
  datatype Drive = Drive(
    disc: Option<Region>, seekTarget: Msf, seekTargetPending: bool, position: Msf, location: seq<Byte>,
    doubleSpeed: bool, xaAdpcmToSpu: bool, readWholeSector: bool, sectorSizeOverride: bool,
    filterEnabled: bool, reportInterrupts: bool, autopause: bool, cddaMode: bool,
    filterFile: Byte, filterChannel: Byte)
  {
    ghost predicate Valid() {
      |location| == 8
    }

    /** Motor on, or the shell open without a disc. */
    function Status(): Byte {
      if disc.Some? then 0x02 else 0x10
    }

    function Mode(): Byte {
      Bit(doubleSpeed, 0x80) | Bit(xaAdpcmToSpu, 0x40) | Bit(readWholeSector, 0x20) | Bit(sectorSizeOverride, 0x10)
      | Bit(filterEnabled, 0x08) | Bit(reportInterrupts, 0x04) | Bit(autopause, 0x02) | Bit(cddaMode, 0x01)
    }

    function WithMode(mode: Byte): Drive {
      this.(doubleSpeed := mode & 0x80 != 0, xaAdpcmToSpu := mode & 0x40 != 0,
            readWholeSector := mode & 0x20 != 0, sectorSizeOverride := mode & 0x10 != 0,
            filterEnabled := mode & 0x08 != 0, reportInterrupts := mode & 0x04 != 0,
            autopause := mode & 0x02 != 0, cddaMode := mode & 0x01 != 0)
    }

    function Seek(): Drive {
      this.(position := seekTarget, seekTargetPending := false)
    }

    function Initialized(): Drive {
      this.(position := ZERO, seekTarget := ZERO, doubleSpeed := false, xaAdpcmToSpu := false,
            readWholeSector := true, sectorSizeOverride := false, filterEnabled := false,
            reportInterrupts := false, autopause := false, cddaMode := false)
    }
  }

  const ZERO := Msf(0, 0, 0)

  function Bit(b: bool, v: Byte): Byte {
    if b then v else 0
  }

  function NewDrive(disc: Option<Region>, location: seq<Byte>): Drive {
    Drive(disc, ZERO, false, ZERO, location, false, false, true, false, false, false, false, false, 0, 0)
  }

  /** Interrupt codes. */
  const ASYNC_OK: Byte := 2
  const OK: Byte := 3
  const ERROR: Byte := 5

  /** Reasons to give up. The first group blames the host; the second is made of assertions
      on the sub-CPU's own state. */
  datatype Fault =
    | NestedCommand
    | ParameterDuringCommand
    | ParameterOverflow
    | ResponseUnderflow
    | CommandDuringAsync
    | UnknownCommand
    | WrongParameterCount
    | BadParameter
    | Pregap
    | IdleStep
    | IrqPending
    | AsyncPending
    | NoCommand
    | NoResponse
    | NoDisc
  {
    predicate ByHost() {
      || NestedCommand? || ParameterDuringCommand? || ParameterOverflow? || ResponseUnderflow?
      || CommandDuringAsync? || UnknownCommand? || WrongParameterCount? || BadParameter? || Pregap?
    }
  }

  // ---- Second responses ----

  datatype Handler = AsyncPause | AsyncInit | AsyncSeekL | AsyncReadToc | AsyncGetId

  /** The response bytes, the drive afterwards and the delay before the first byte. */
  datatype Late = Late(bytes: seq<Byte>, drive: Drive, delay: nat)

  predicate CanRespond(drive: Drive, h: Handler) {
    h.AsyncGetId? ==> drive.disc.Some?
  }

  function Respond(drive: Drive, h: Handler): (r: Late)
    requires CanRespond(drive, h)
    ensures 1 <= |r.bytes| <= 8 && r.delay > 0 && r.drive.disc == drive.disc && r.drive.location == drive.location
  {
    match h
    case AsyncPause => Late([drive.Status()], drive, 1_700)
    case AsyncInit => Late([drive.Status()], drive.Initialized(), 1_700)
    case AsyncSeekL => Late([drive.Status()], drive, 1_700)
    case AsyncReadToc => Late([drive.Status()], drive, 1_700)
    case AsyncGetId =>
      var region: Byte := match drive.disc.value { case Japan => 0x49 case NorthAmerica => 0x41 case Europe => 0x45 };
      Late([drive.Status(), 0, 0x20, 0, 0x53, 0x43, 0x45, region], drive, 3_100)
  }

  // ---- First responses ----

  /** The second response a command schedules. */
  datatype Schedule = Schedule(delay: nat, handler: Handler)

  datatype Reply =
    | Reply(drive: Drive, bytes: seq<Byte>, code: Byte, later: Option<Schedule>)
    | Refused(fault: Fault)

  /** There is always at least one response byte; a command with a second response has exactly
      one in the first. Only the host is to blame for a refusal. */
  ghost predicate GoodReply(r: Reply) {
    match r
    case Refused(f) => f.ByHost()
    case Reply(drive, bytes, code, later) =>
      && 1 <= |bytes| <= 8 && drive.Valid() && (code == OK || code == ERROR)
      && (later.Some? ==> |bytes| == 1 && later.value.delay > 0 && CanRespond(drive, later.value.handler))
  }

  datatype Command =
    | GetStat | SetLoc | Pause | Init | Mute | Demute | SetFilter | SetMode | GetParam | GetLocP | SeekL | Test
    | GetId | ReadToc

  function Decode(cmd: Byte): Option<Command> {
    if cmd == 0x01 then Some(GetStat)
    else if cmd == 0x02 then Some(SetLoc)
    else if cmd == 0x09 then Some(Pause)
    else if cmd == 0x0a then Some(Init)
    else if cmd == 0x0b then Some(Mute)
    else if cmd == 0x0c then Some(Demute)
    else if cmd == 0x0d then Some(SetFilter)
    else if cmd == 0x0e then Some(SetMode)
    else if cmd == 0x0f then Some(GetParam)
    else if cmd == 0x11 then Some(GetLocP)
    else if cmd == 0x15 then Some(SeekL)
    else if cmd == 0x19 then Some(Test)
    else if cmd == 0x1a then Some(GetId)
    else if cmd == 0x1e then Some(ReadToc)
    else None
  }

  /** The number of parameters a command takes. */
  function Arity(c: Command): nat {
    match c
    case SetLoc => 3
    case SetFilter => 2
    case SetMode => 1
    case Test => 1
    case _ => 0
  }

  function Simple(drive: Drive): (r: Reply)
    requires drive.Valid()
    ensures GoodReply(r)
  {
    Reply(drive, [drive.Status()], OK, None)
  }

  function Twofold(drive: Drive, delay: nat, h: Handler): (r: Reply)
    requires drive.Valid() && delay > 0 && CanRespond(drive, h)
    ensures GoodReply(r)
  {
    Reply(drive, [drive.Status()], OK, Some(Schedule(delay, h)))
  }

  function Run(drive: Drive, c: Command, params: seq<Byte>): (r: Reply)
    requires drive.Valid() && |params| == Arity(c)
    ensures GoodReply(r)
  {
    match c
    case GetStat => Simple(drive)
    case SetLoc => RunSetLoc(drive, Msf(params[0], params[1], params[2]))
    case Pause => Twofold(drive, 9_000, AsyncPause)
    case Init => Twofold(drive, 900_000, AsyncInit)
    case Mute => Simple(drive)
    case Demute => Simple(drive)
    case SetFilter => Simple(drive.(filterFile := params[0], filterChannel := params[1]))
    case SetMode => RunSetMode(drive, params[0])
    case GetParam => RunGetParam(drive)
    case GetLocP => RunGetLocP(drive)
    case SeekL => RunSeekL(drive)
    case Test => RunTest(drive, params[0])
    case GetId => RunGetId(drive)
    case ReadToc => Twofold(drive, 16_000_000, AsyncReadToc)
  }

  function RunGetParam(drive: Drive): (r: Reply)
    requires drive.Valid()
    ensures GoodReply(r)
  {
    Reply(drive, [drive.Status(), drive.Mode(), 0, drive.filterFile, drive.filterChannel], OK, None)
  }

  function RunGetLocP(drive: Drive): (r: Reply)
    requires drive.Valid()
    ensures GoodReply(r)
  {
    if drive.position.InPregap() then Refused(Pregap) else Reply(drive, drive.location, OK, None)
  }

  function RunSeekL(drive: Drive): (r: Reply)
    requires drive.Valid()
    ensures GoodReply(r)
  {
    if drive.seekTarget.InPregap() then Refused(Pregap) else Twofold(drive.Seek(), 1_000_000, AsyncSeekL)
  }

  /** The only test supported returns the version of the controller. */
  function RunTest(drive: Drive, test: Byte): (r: Reply)
    requires drive.Valid()
    ensures GoodReply(r)
  {
    if test == 0x20 then Reply(drive, [0x98, 0x06, 0x10, 0xc3], OK, None) else Refused(BadParameter)
  }

  function RunGetId(drive: Drive): (r: Reply)
    requires drive.Valid()
    ensures GoodReply(r)
  {
    if drive.disc.Some? then Twofold(drive, 15_000, AsyncGetId) else Reply(drive, [0x11, 0x80], ERROR, None)
  }

  function RunSetLoc(drive: Drive, target: Msf): (r: Reply)
    requires drive.Valid()
    ensures GoodReply(r)
  {
    if target.ValidBcd() then Simple(drive.(seekTarget := target, seekTargetPending := true))
    else Refused(BadParameter)
  }

  /** The four low mode bits other than the filter are not supported, nor is bit 4. */
  function RunSetMode(drive: Drive, mode: Byte): (r: Reply)
    requires drive.Valid()
    ensures GoodReply(r)
  {
    if mode & 0x17 == 0 then Simple(drive.WithMode(mode)) else Refused(BadParameter)
  }

  function Execute(drive: Drive, cmd: Byte, params: seq<Byte>): (r: Reply)
    requires drive.Valid()
    ensures GoodReply(r)
  {
    match Decode(cmd)
    case None => Refused(UnknownCommand)
    case Some(c) => if |params| != Arity(c) then Refused(WrongParameterCount) else Run(drive, c, params)
  }

  /** GetParam reads back what SetMode and SetFilter were given. */
  lemma ConfigurationRoundTrip(drive: Drive, mode: Byte, file: Byte, channel: Byte)
    requires drive.Valid()
    ensures mode & 0x17 == 0 <==> Execute(drive, 0x0e, [mode]).Reply?
    ensures mode & 0x17 == 0 ==>
      var d1 := Execute(drive, 0x0e, [mode]).drive;
      var d2 := Execute(d1, 0x0d, [file, channel]).drive;
      Execute(d2, 0x0f, []) == Reply(d2, [drive.Status(), mode, 0, file, channel], OK, None)
  {
    if mode & 0x17 == 0 {
      ModeRoundTrip(drive, mode);
    }
  }

  /** SeekL moves to where SetLoc pointed, unless that is in the pregap of the first track, and
      after Init the position is unknown again. */
  lemma SeekGoesToTarget(drive: Drive, m: Byte, s: Byte, f: Byte)
    requires drive.Valid()
    ensures var aim := Execute(drive, 0x02, [m, s, f]);
      && (aim.Reply? <==> Msf(m, s, f).ValidBcd())
      && (aim.Reply? ==> aim.drive == drive.(seekTarget := Msf(m, s, f), seekTargetPending := true))
      && (aim.Reply? ==>
            var seek := Execute(aim.drive, 0x15, []);
            && (seek.Reply? <==> !Msf(m, s, f).InPregap())
            && (seek.Reply? ==>
                  && seek.drive == drive.(seekTarget := Msf(m, s, f), position := Msf(m, s, f), seekTargetPending := false)
                  && seek.later == Some(Schedule(1_000_000, AsyncSeekL))
                  && Execute(seek.drive, 0x11, []) == Reply(seek.drive, drive.location, OK, None)
                  && Execute(Respond(seek.drive, AsyncInit).drive, 0x11, []) == Refused(Pregap)))
  {
    assert Execute(drive, 0x02, [m, s, f]) == RunSetLoc(drive, Msf(m, s, f));
  }

  lemma ModeRoundTrip(drive: Drive, mode: Byte)
    ensures drive.WithMode(mode).Mode() == mode
  {
  }

  // ---- The bytes on the wire ----

  /** The status: bit 1 with a disc, bit 4 for an open shell without one. */
  function StatusOf(disc: Option<Region>): Byte {
    if disc.Some? then 0x02 else 0x10
  }

  /** The commands that answer with the status alone, with code 3. */
  lemma StatusCommands(drive: Drive)
    requires drive.Valid()
    ensures forall cmd :: cmd == 0x01 || cmd == 0x0b || cmd == 0x0c ==>
      Execute(drive, cmd, []) == Reply(drive, [StatusOf(drive.disc)], 3, None)
  {
  }

  /** Those that answer a second time, with the status again after 1700 cycles. */
  lemma TwofoldCommands(drive: Drive)
    requires drive.Valid()
    ensures Execute(drive, 0x09, []) == Reply(drive, [StatusOf(drive.disc)], 3, Some(Schedule(9_000, AsyncPause)))
    ensures Execute(drive, 0x0a, []) == Reply(drive, [StatusOf(drive.disc)], 3, Some(Schedule(900_000, AsyncInit)))
    ensures Execute(drive, 0x1e, []) == Reply(drive, [StatusOf(drive.disc)], 3, Some(Schedule(16_000_000, AsyncReadToc)))
    ensures Respond(drive, AsyncPause) == Late([StatusOf(drive.disc)], drive, 1_700)
    ensures Respond(drive, AsyncReadToc) == Late([StatusOf(drive.disc)], drive, 1_700)
    ensures Respond(drive, AsyncSeekL) == Late([StatusOf(drive.disc)], drive, 1_700)
    ensures Respond(drive, AsyncInit).bytes == [StatusOf(drive.disc)] && Respond(drive, AsyncInit).delay == 1_700
  {
  }

  /** A position is valid if its digits are decimal, with seconds below 60 and frames below 75;
      the first two seconds are the pregap. */
  lemma PositionDigits(a: Byte, b: Byte, c: Byte, d: Byte, e: Byte, g: Byte)
    requires a <= 0xf && b <= 0xf && c <= 0xf && d <= 0xf && e <= 0xf && g <= 0xf
    ensures var pos := Msf((a << 4) | b, (c << 4) | d, (e << 4) | g);
      && (pos.ValidBcd() <==> a <= 9 && b <= 9 && c <= 5 && d <= 9 && (e < 7 || (e == 7 && g < 5)) && g <= 9)
      && (pos.InPregap() <==> a == 0 && b == 0 && c == 0 && d <= 1)
  {
  }

  /** A drive starts as Init leaves it. */
  lemma NewDriveMode(disc: Option<Region>, location: seq<Byte>)
    requires |location| == 8
    ensures var d := NewDrive(disc, location);
      && Execute(d, 0x0f, []) == Reply(d, [StatusOf(disc), 0x20, 0, 0, 0], 3, None)
      && Respond(d, AsyncInit).drive == d && !d.seekTargetPending
  {
  }

  /** After Init the drive is at the start of the disc and reads whole sectors at single speed. */
  lemma InitResets(drive: Drive)
    requires drive.Valid()
    ensures var d := Respond(drive, AsyncInit).drive;
      && Execute(d, 0x0f, []) == Reply(d, [StatusOf(drive.disc), 0x20, 0, drive.filterFile, drive.filterChannel], 3, None)
      && d.position == d.seekTarget == Msf(0, 0, 0)
  {
  }

  /** The version of the controller, and the identification of a disc: licensed data from the
      region the letter names, or an error without a disc. */
  lemma IdentificationBytes(drive: Drive)
    requires drive.Valid()
    ensures Execute(drive, 0x19, [0x20]) == Reply(drive, [0x98, 0x06, 0x10, 0xc3], 3, None)
    ensures Execute(drive, 0x1a, []) ==
      if drive.disc.None? then Reply(drive, [0x11, 0x80], 5, None)
      else Reply(drive, [0x02], 3, Some(Schedule(15_000, AsyncGetId)))
    ensures drive.disc == Some(Japan) ==>
      Respond(drive, AsyncGetId) == Late([0x02, 0x00, 0x20, 0x00, 0x53, 0x43, 0x45, 0x49], drive, 3_100)
    ensures drive.disc == Some(NorthAmerica) ==>
      Respond(drive, AsyncGetId) == Late([0x02, 0x00, 0x20, 0x00, 0x53, 0x43, 0x45, 0x41], drive, 3_100)
    ensures drive.disc == Some(Europe) ==>
      Respond(drive, AsyncGetId) == Late([0x02, 0x00, 0x20, 0x00, 0x53, 0x43, 0x45, 0x45], drive, 3_100)
  {
  }

  /** Which commands exist, and with how many parameters. */
  lemma KnownCommands(drive: Drive, cmd: Byte, params: seq<Byte>)
    requires drive.Valid()
    ensures Execute(drive, cmd, params) == Refused(UnknownCommand) <==>
      cmd !in {0x01, 0x02, 0x09, 0x0a, 0x0b, 0x0c, 0x0d, 0x0e, 0x0f, 0x11, 0x15, 0x19, 0x1a, 0x1e}
    ensures Execute(drive, cmd, params) == Refused(WrongParameterCount) <==>
      || (cmd in {0x01, 0x09, 0x0a, 0x0b, 0x0c, 0x0f, 0x11, 0x15, 0x1a, 0x1e} && |params| != 0)
      || (cmd in {0x0e, 0x19} && |params| != 1)
      || (cmd == 0x0d && |params| != 2)
      || (cmd == 0x02 && |params| != 3)
  {
  }
}
