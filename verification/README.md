# Rustation, verified

A Dafny model of the hard parts of rustation, an emulator of the PlayStation, and proofs about
them. `dafny verify dfyconfig.toml` checks everything.

Eight parts are modelled. They share only small records.

* **Event clock** (`TimeKeeping`, `Timers`, `TimerSchedule`, `VideoTiming`, `Batching`).
  Peripherals are brought up to date lazily, in batches of CPU cycles, and each predicts the date
  of its next event in fixed point. A batch is proved to do what stepping every cycle does, and the
  predicted date to be the first one at which the event is visible. Where the code falls short of
  that, the exact condition is proved.
* **CD-ROM** (`Fifos`, `CdCommands`, `CdProtocol`, `CdTiming`, `CdRomDevice`). A timed nine state
  machine with four ring buffers, a second response that is scheduled for later and an interrupt
  handshake. Its assertions are proved never to fail, and its interrupts to come at exact dates,
  with the complete response.
* **DMA and RAM** (`Memory`, `Dma`, `DmaToGpu`). Ordering tables are built backwards by one loop
  and consumed as linked lists by another.
* **Assembler and decoder** (`MachineCode`, `Assembler`, `CodeGeneration`, `MachineImage`,
  `PseudoInstructions`, `AssemblerDevice`). Two passes, two ways to find a label, and a CPU that
  has to read the result back.
* **Instruction cache** (`InstructionCache`). A cache that must not be observable.
* **Unaligned access** (`LoadStore`). Byte merging loads and stores around the load delay slot.
* **Geometry engine** (`Divider`, `GteArithmetic`, `Gte`, `GteResults`, `GteDevice`). Division by
  table and Newton-Raphson, 44 bit accumulators with sticky flags, perspective projection.
* **GP0 port** (`Gp0`, `Gp0Stream`, `Gp0Device`). A parser that gets one word at a time, against
  the meaning of whole streams.

Code that updates state in place is modelled by classes (`TimeKeeper`, `TimerDevice`, `VideoClock`,
`CdRom`, `Ram`, `CpuUnit`, `FetchUnit`, `GteUnit`, `Gpu`, `AssemblerUnit`) whose methods are proved
against functions on values; the theorems are about those functions. A panic of the original is an
outcome (`Panic`, `Panicked`, `Refused`, `Err`) where a host or a program can cause it, and a
precondition otherwise.

## Where the code differs from what it says or promises

* `maybe_set_next_sync` does not lower the global date, so an event can be slept through:
  `TimeKeeping.MaybeSetNextSyncCanOversleep` says exactly when, and
  `TimeKeeping.OversleepIsReachable` that it happens in a run from reset.
* A timer batch that starts above its target does not report a target it passes after coming
  around: `Timers.BatchExactness` says exactly when that shows, and `Timers.BatchCanDiffer`
  that it does. The prediction from above the
  target is one tick early (`Timers.TwoStagePrediction`). When the target is also the wrap value it
  is late exactly if the wrap brings the counter back too soon (`Timers.PredictionLateExactly`).
* A video sync that covers two blanking edges misses both: `VideoTiming.BatchExactness` says that
  this is the only way to differ from stepping.
* The video line counter wraps one line late. Blanking is predicted exactly in every state if and
  only if the display range is a good one: `VideoTiming.ExactRanges`.
* The CD-ROM shortens the delay of a second response by cycles that precede the command's
  execution (`CdTiming.ExecutionShortensDelay`), drops the cycles that are left over when a second
  response starts (`CdTiming.WaitingSync`, `CdTiming.AsyncOnTime`), and loses a command if and only
  if it is written during a second response (`CdTiming.CommandLostExactly`,
  `CdTiming.LostIsReachable`). It does not clear the response buffer before a second response, as
  the comments on its timings say (`CdTiming.AsyncLatency`).
* An ordering table longer than RAM wraps onto itself: `Dma.OrderingTableRoundTrip`.
* The assembler checks neither the range nor the alignment of branches and jumps:
  `MachineCode.BranchArrives` and `MachineCode.JumpArrives` say when they arrive.
* A pair of unaligned stores with a pending load of the register stores a word torn between the old
  and the new value: `LoadStore.UnalignedStore`. `LoadStore.UnalignedStoreIsWhole` says when that
  does not show, for both orders.
* Without the shift the geometry commands cut MAC to 32 bits and no flag says so, and the flag of
  IR3 reports on the depth instead, as its comment says: `Gte.MacIsExact`, `Gte.MvmvaMacIsExact` and
  `Gte.Ir3IsMac3` say exactly when the registers are right, `Gte.UnshiftedCanWrap` that they can be
  wrong under a clean flag register.
* At power up the instruction cache holds valid NOPs for the first 4 KB of RAM:
  `InstructionCache.PowerUpTransparent`.

## Model

| member | source | states |
|---|---|---|
| `TimeKeeping.SoundStep` | src/timekeeper.rs:51-116 | an operation keeps the global date a lower bound of every timesheet if and only if it is not a conditional reschedule to before that date |
| `TimeKeeping.MaybeSetNextSyncCanOversleep` | src/timekeeper.rs:73-93 | a reschedule to any later date leaves, after some time, its peripheral due with no sync pending if and only if it moves the peripheral's date to before the global one |
| `TimeKeeping.OversleepIsReachable` | src/timekeeper.rs:73-93 | that happens in a run from reset, with a positive delay |
| `TimeKeeping.NeverOversleeps` | src/timekeeper.rs:104-116 | over every run from reset without such a reschedule, a peripheral that needs a sync has one pending |
| `TimeKeeping.TimeIsConserved` | src/timekeeper.rs:153-159 | over every run, lossy reschedules included, the deltas handed to a peripheral add up to its last sync date, and with what it has not seen yet to the current date |
| `TimeKeeping.UpdateMakesPendingExact` | src/timekeeper.rs:112-116 | after a recomputation a sync is pending if and only if some peripheral needs one |
| `TimeKeeping.DueExactly` | src/timekeeper.rs:61-71 | whatever happens in between, a peripheral that asked for a sync is due if and only if that many cycles have gone by |
| `TimeKeeping.DueAtEarlier` | src/timekeeper.rs:73-85 | after a conditional reschedule it is due from the earlier of both dates on |
| `TimeKeeping.NeverDue` | src/timekeeper.rs:97-102 | a peripheral that needs no sync is due at the largest date and not before |
| `TimeKeeping.TimeKeeper.Tick` | src/timekeeper.rs:51-55 | advances the date and nothing else |
| `TimeKeeping.TimeKeeper.Sync` | src/timekeeper.rs:57-59 | returns the time since the last sync of that peripheral and moves its last sync to now |
| `TimeKeeping.TimeKeeper.SetNextSyncDelta` | src/timekeeper.rs:61-71 | reschedules a peripheral and lowers the global date if needed |
| `TimeKeeping.TimeKeeper.MaybeSetNextSync` | src/timekeeper.rs:73-85 | brings a date forward, the global one excepted |
| `TimeKeeping.TimeKeeper.MaybeSetNextSyncDelta` | src/timekeeper.rs:87-93 | the same for a delay from now |
| `TimeKeeping.TimeKeeper.NoSyncNeeded` | src/timekeeper.rs:97-102 | puts the peripheral's date out of reach |
| `TimeKeeping.TimeKeeper.UpdateSyncPending` | src/timekeeper.rs:112-116 | sets the global date to the earliest of all |
| `Timers.SplitSync` | src/memory/timers.rs:216-301 | from at or below the target, two syncs do what one sync of their sum does |
| `Timers.BatchRefinesStepping` | src/memory/timers.rs:216-301 | one sync of n cycles gives the counter, phase, sticky flags and interrupt status of n syncs of one cycle, with or without target wrap |
| `Timers.RunRefinesStepping` | src/memory/timers.rs:216-301 | however a stretch of cycles is grouped into syncs, the same |
| `Timers.BatchExactness` | src/memory/timers.rs:216-301 | from any counter, exactly when a batch may stand for single steps |
| `Timers.BatchCanDiffer` | src/memory/timers.rs:216-301 | there is a batch that may not |
| `Timers.SteppingTicks` | src/memory/timers.rs:216-301 | single cycles let the counter tick once for each period gone by, as a reference for one tick says: up to the wrap value and back to 0, a report when it leaves the target, another when it leaves 0xffff |
| `Timers.SteppingInClosedForm` | src/memory/timers.rs:216-301 | counter, phase, both sticky flags and the interrupt after any number of cycles: without target wrap an overflow is reported if and only if the total reaches 0x10000 |
| `Timers.PulseIsEvent` | src/memory/timers.rs:241-299 | the interrupt line is up after a sync if and only if that sync saw an event it is enabled for |
| `Timers.ClockRates` | src/memory/timers.rs:189-205 | the system clock gives a tick for each cycle, its eighth one for every eight |
| `Timers.PredictionExact` | src/memory/timers.rs:303-329 | a sync sees the target passed if and only if it is not earlier than predicted |
| `Timers.PredictionStable` | src/memory/timers.rs:303-329 | an earlier sync predicts the same date |
| `Timers.PredictionIsFirstEvent` | src/memory/timers.rs:303-329 | stepping every cycle reaches the target exactly at the predicted cycle |
| `Timers.TwoStagePrediction` | src/memory/timers.rs:303-329 | from above the target, without target wrap, two predictions one after the other find the first event |
| `Timers.WrappedEvent` | src/memory/timers.rs:216-329 | from above a target that is the wrap value, the exact cycle at which stepping passes the target |
| `Timers.PredictionLateExactly` | src/memory/timers.rs:303-329 | there the prediction comes after that cycle if and only if the last multiple of the wrap value up to where one cycle brings the counter is below 0xffff |
| `Timers.PredictionCanBeLate` | src/memory/timers.rs:303-329 | both happen |
| `Timers.TimerDevice.Sync` | src/memory/timers.rs:216-301 | the timer, the interrupt controller and the schedule after a sync |
| `Timers.TimerDevice.Elapse` | src/memory/timers.rs:228-299 | the timer after that many cycles |
| `Timers.TimerDevice.CountTicks` | src/memory/timers.rs:232-299 | counter, flags and interrupt after that many ticks |
| `Timers.TimerDevice.PredictNextSync` | src/memory/timers.rs:303-329 | schedules the predicted date, or none without a target interrupt |
| `Timers.TimerDevice.Reconfigure` | src/memory/timers.rs:189-213 | restarts with the period of the clock source and a fresh prediction |
| `TimerSchedule.SyncAllOnTime` | src/memory/mod.rs:82-96 | bringing all peripherals up to date, whatever the others do to the clock, raises the timer's interrupt if its date has come and keeps the date otherwise |
| `TimerSchedule.NextOnTime` | src/cpu/mod.rs:124-128 | so does every instruction, register access and doing of another device |
| `TimerSchedule.InterruptOnTime` | src/cpu/mod.rs:124-128 | over every run from its prediction on, a timer has reached its target and raised its interrupt at exactly those instruction boundaries that are not before the predicted date |
| `VideoTiming.VBlankPredictionExact` | src/gpu/mod.rs:302-365 | a sync at the predicted delay flips the blanking state, no shorter one does, and an early sync predicts the same date, in all three branches |
| `VideoTiming.ExactRanges` | src/gpu/mod.rs:302-365 | that holds in every state if and only if the display range is good: it starts at 1 or later, is not empty and ends by the last line, or one past it if it starts at 2 or later |
| `VideoTiming.BatchRefinesStepping` | src/gpu/mod.rs:236-300 | a sync that ends before the second event gives the line, field, phase, interrupt and frame count of a sync on every cycle |
| `VideoTiming.BatchExactness` | src/gpu/mod.rs:236-300 | until the frame counter has come around, a batch does what stepping does if and only if it ends before the second event |
| `VideoTiming.LazyRunIsExact` | src/gpu/mod.rs:236-355 | so does any run of such syncs |
| `VideoTiming.InterruptAtBlanking` | src/gpu/mod.rs:284-297 | before the second event a sync raises the VBlank interrupt if and only if the picture was being shown and the predicted delay has gone by |
| `VideoTiming.InterruptMeansEnd` | src/gpu/mod.rs:284-297 | stepping every cycle, the interrupt is up if and only if it was or the picture has ended since |
| `VideoTiming.FramesCountStarts` | src/gpu/mod.rs:284-297 | the frame counter counts the times the picture started |
| `VideoTiming.SteppingFollowsBeam` | src/gpu/mod.rs:236-300 | stepping every cycle takes the beam through a reference for one line: the last line of the picture ends with the interrupt, the first starts a frame, the last of all changes the field |
| `VideoTiming.SteppingInClosedForm` | src/gpu/mod.rs:236-300 | line, tick, phase, field, frame count and interrupt after any number of cycles, for 263 lines of 3412 ticks or 314 of 3404 |
| `VideoTiming.VideoClock.Sync` | src/gpu/mod.rs:236-300 | state, interrupt and schedule after a sync |
| `VideoTiming.VideoClock.Elapse` | src/gpu/mod.rs:236-300 | the state after that many cycles |
| `VideoTiming.VideoClock.PredictNextSync` | src/gpu/mod.rs:302-355 | schedules the predicted date |
| `Fifos.FlagsAreExact` | src/cdrom/mod.rs:1223-1251 | the empty and full flags and the length, read off the indexes, are those of the queue |
| `Fifos.PushIsEnqueue` | src/cdrom/mod.rs:1253-1259 | below its capacity, pushing appends |
| `Fifos.PopIsDequeue` | src/cdrom/mod.rs:1267-1273 | popping takes the first byte |
| `Fifos.OverflowKeepsLast` | src/cdrom/mod.rs:1241-1259 | past its capacity the length is modulo 32, and when it comes out as one, as after 33 bytes, the byte delivered is the last |
| `CdCommands.Execute` | src/cdrom/mod.rs:806-840 | a command gives 1 to 8 response bytes, exactly one if it schedules a second response, and only the host can cause a refusal |
| `CdCommands.Respond` | src/cdrom/mod.rs:922-1190 | a second response has 1 to 8 bytes and a positive delay |
| `CdCommands.ConfigurationRoundTrip` | src/cdrom/mod.rs:978-1034 | GetParam reads back what SetMode and SetFilter were given, and SetMode accepts exactly the supported modes |
| `CdCommands.SeekGoesToTarget` | src/cdrom/mod.rs:696-704 | SeekL moves to where SetLoc pointed unless that is in the first pregap, and GetLocP is refused exactly there |
| `CdCommands.StatusCommands` | src/cdrom/mod.rs:843-847 | GetStat, Mute and Demute answer with the status byte and code 3 |
| `CdCommands.TwofoldCommands` | src/cdrom/mod.rs:900-1140 | the bytes, codes and delays of Pause, Init and ReadToc and of the second responses |
| `CdCommands.InitResets` | src/cdrom/mod.rs:943-961 | what GetParam answers after Init, and where the drive is |
| `CdCommands.NewDriveMode` | src/cdrom/mod.rs:118-150 | a new drive is as Init leaves it |
| `CdCommands.IdentificationBytes` | src/cdrom/mod.rs:1107-1190 | the version bytes, the error of GetId without a disc, and its answer for each region |
| `CdCommands.KnownCommands` | src/cdrom/mod.rs:806-840 | which commands are unknown, and which are refused for the number of their parameters |
| `CdCommands.PositionDigits` | src/cdrom/mod.rs:851-866 | which positions are valid, digit by digit, and which are in the pregap |
| `CdProtocol.NextRandom` | src/cdrom/simple_rand.rs:31-38 | the generator never returns zero |
| `CdProtocol.FirstRandoms` | src/cdrom/simple_rand.rs:20-38 | its first numbers from the seed |
| `CdProtocol.PendingDelay` | src/cdrom/mod.rs:502-520 | the pending delay of a command is 9400 and the next number modulo 6000 |
| `CdProtocol.SeedIsOne` | src/cdrom/simple_rand.rs:20-25 | a fresh controller starts from that seed |
| `CdProtocol.NextStepGood` | src/cdrom/mod.rs:572-645 | a step from a state with the invariant leads to one, or stops for a fault of the host; the assertions and the unreachable arm are never hit |
| `CdProtocol.IterationGood` | src/cdrom/mod.rs:157-210 | each iteration of the sync loop does so too, and uses at least one cycle |
| `CdProtocol.SettleGood` | src/cdrom/mod.rs:487-545 | nothing is left waiting once all interrupts are acknowledged |
| `CdProtocol.Sync` | src/cdrom/mod.rs:152-213 | the loop ends, keeps the invariant and never fails an assertion |
| `CdProtocol.Host` | src/cdrom/mod.rs:306-447 | so does every operation of the host |
| `CdProtocol.RunHost` | src/cdrom/mod.rs:152-658 | so does every run of them: in a sequence no interrupt is up, responses are complete before an interrupt, no buffer overflows |
| `CdProtocol.AcknowledgeBits` | src/cdrom/mod.rs:487-498 | after an acknowledgement an interrupt flag is up if and only if it was and is not among the bits written |
| `CdProtocol.AcknowledgeKeeps` | src/cdrom/mod.rs:487-498 | it leaves the mask, the command, the response and, unless told to clear them, the parameters |
| `CdProtocol.MaskBits` | src/cdrom/mod.rs:439-447 | a write of the mask sets its five bits and nothing else |
| `CdProtocol.ParametersQueue` | src/cdrom/mod.rs:425-437 | any number of parameters queue up in order, up to 16, and one more is refused |
| `CdProtocol.ResponseReads` | src/cdrom/mod.rs:277-291 | any number of reads take the response from the front, and one too many is refused |
| `CdTiming.SyncIsExact` | src/cdrom/mod.rs:152-213 | the interrupt of any running sequence comes up after exactly the cycles due, with the complete response, and no sooner |
| `CdTiming.InterruptIsExact` | src/cdrom/mod.rs:152-213 | however the cycles are cut into syncs |
| `CdTiming.CommandLatency` | src/cdrom/mod.rs:572-645 | the latency of a command in closed form, for any number of parameters and response bytes and any cuts |
| `CdTiming.LatencyInCycles` | src/cdrom/mod.rs:1451-1500 | the same in numbers, from the write of the command to an idle controller: 9300 cycles, 1800 a parameter and 1500 a response byte after a delay of 9400 to 15399 |
| `CdTiming.CommandStarts` | src/cdrom/mod.rs:502-520 | a command written to an idle controller starts at once, with a pending delay in the stated range |
| `CdTiming.CommandWaits` | src/cdrom/mod.rs:414-423 | a command written while an interrupt waits to be acknowledged is kept across any sync |
| `CdTiming.CommandStartsAtAck` | src/cdrom/mod.rs:487-520 | it starts at the acknowledgement that leaves no flag up and not before, or the controller gives up there because a second response is still to come |
| `CdTiming.CommandLostExactly` | src/cdrom/mod.rs:414-423 | a command written with none pending is lost, without a trace after some time, if and only if a sequence is running |
| `CdTiming.LostIsReachable` | src/cdrom/mod.rs:414-423 | from a fresh controller, with or without a disc, a run of host operations leads to where any command is lost |
| `CdTiming.WaitingSync` | src/cdrom/mod.rs:157-189 | a sync past the date of a second response starts it and drops the rest of its cycles |
| `CdTiming.AsyncLatency` | src/cdrom/mod.rs:524-545 | the latency of a second response in closed form, counted from the sync that reaches its date; the bytes follow what the host left unread |
| `CdTiming.AsyncOnTime` | src/cdrom/mod.rs:229-247 | a second response is on time, whatever syncs follow, if and only if the sync that reaches its date falls on it; a sync not later than predicted does |
| `CdTiming.ExecutionShortensDelay` | src/cdrom/mod.rs:179-189 | the delay of a second response loses the cycles that elapse in the same step as the execution |
| `CdTiming.AsyncDelayDependsOnCut` | src/cdrom/mod.rs:179-189 | so it depends on where the wait before the execution is cut |
| `CdTiming.CommandIsLost` | src/cdrom/mod.rs:620-628 | from the interrupt of a second response on, a command written during it might as well not have been |
| `CdRomDevice.CdRom.SyncCycles` | src/cdrom/mod.rs:152-213 | the loop over ring buffers does what the protocol says, or gives up for the same reason |
| `CdRomDevice.CdRom.SyncWith` | src/cdrom/mod.rs:152-213 | the cycles since the last sync, cut to 32 bits, go by, and the next step is scheduled |
| `CdRomDevice.CdRom.PredictNextSync` | src/cdrom/mod.rs:229-247 | schedules the end of the step, or the date of the second response, or nothing |
| `CdRomDevice.CdRom.NextSubCpuStep` | src/cdrom/mod.rs:572-645 | one step of the sequence |
| `CdRomDevice.CdRom.RunCommand` | src/cdrom/mod.rs:806-840 | parameters out of one buffer, response bytes into another |
| `CdRomDevice.CdRom.MaybeStart` | src/cdrom/mod.rs:502-520 | starts a pending command |
| `CdRomDevice.CdRom.MaybeRespond` | src/cdrom/mod.rs:524-545 | starts a second response that is ready |
| `CdRomDevice.CdRom.RaiseIrq` | src/cdrom/mod.rs:649-658 | raises the interrupt if the mask lets it through |
| `CdRomDevice.CdRom.WriteCommand` | src/cdrom/mod.rs:414-423 | the command register |
| `CdRomDevice.CdRom.WriteParameter` | src/cdrom/mod.rs:425-436 | the parameter register |
| `CdRomDevice.CdRom.WriteMask` | src/cdrom/mod.rs:439-446 | the interrupt mask |
| `CdRomDevice.CdRom.ReadResponse` | src/cdrom/mod.rs:276-291 | the response register: the bytes come out in the order of the response |
| `CdRomDevice.CdRom.IrqAck` | src/cdrom/mod.rs:352-363 | acknowledges interrupts and starts what was waiting |
| `Memory.BytesRoundTrip` | src/memory/ram.rs:22-45 | a value is the little endian reading of its bytes |
| `Memory.RegionMasks` | src/memory/mod.rs:717-735 | the bits of an address that count, region by region |
| `Memory.Mirrored` | src/memory/ram.rs:22-45 | loads and stores do not depend on the copy of RAM that is addressed |
| `Memory.LoadAfterStore` | src/memory/ram.rs:22-45 | a load returns what was stored |
| `Memory.LoadBesideStore` | src/memory/ram.rs:37-45 | a store changes no word it does not overlap |
| `Memory.WordsAfterStore` | src/memory/ram.rs:37-45 | an aligned store replaces one word |
| `Memory.Ram.Read` | src/memory/ram.rs:22-34 | the little endian value, whichever copy of RAM is addressed |
| `Memory.Ram.Write` | src/memory/ram.rs:37-45 | writes exactly those bytes |
| `Dma.ChainDistinct` | src/memory/mod.rs:530-574 | a list that ends meets no header twice |
| `Dma.TerminationDecidable` | src/memory/mod.rs:530-574 | the transfer ends if and only if it does within as many headers as RAM has words |
| `Dma.HeaderFields` | src/memory/mod.rs:540-572 | the size, the end marker and the next address of a header |
| `Dma.LaidOutIsSent` | src/memory/mod.rs:530-574 | packets laid out anywhere in memory and linked by their headers are sent as the concatenation of their words, in the order of the links |
| `Dma.DoDmaLinkedList` | src/memory/mod.rs:530-574 | sends exactly the concatenation of the packet payloads of any list that ends |
| `Dma.DoDmaOtc` | src/memory/mod.rs:579-650 | builds a table of any number of entries backwards from any base and changes nothing else |
| `Dma.OrderingTableRoundTrip` | src/memory/mod.rs:530-650 | the linked list transfer of a table ends, visits its entries in order and sends nothing; it visits all of them if and only if the table fits in RAM |
| `DmaToGpu.SendListTo` | src/memory/mod.rs:530-574 | word by word, a list of packets does to the GPU, in any state, what its words do |
| `DmaToGpu.DrawList` | src/memory/mod.rs:530-574 | the renderer's log grows by the meaning of the packets in the order of the list, and the GPU stops if and only if their words stop it |
| `DmaToGpu.ClearedTableDrawsNothing` | src/memory/mod.rs:530-650 | a cleared ordering table sends no word and leaves the GPU as it is |
| `DmaToGpu.ClearAndDraw` | src/memory/mod.rs:530-650 | clearing a table of any size at any base and drawing it leaves the GPU and its renderer as they were |
| `MachineCode.DecodeEncode` | src/assembler.rs:340-796 | the CPU decodes each instruction word to the operation and operands it was built from, for every instruction and all operands in range |
| `MachineCode.ShiftWords` | src/assembler.rs:340-680 | the words of the shifts, for all operands, in the numbers of the MIPS manual |
| `MachineCode.RegisterWords` | src/assembler.rs:340-680 | those of jumps to registers, moves, SYSCALL and BREAK |
| `MachineCode.ArithmeticWords` | src/assembler.rs:340-680 | those of multiplication, division and arithmetic |
| `MachineCode.ImmediateWords` | src/assembler.rs:340-680 | those with an immediate |
| `MachineCode.MemoryWords` | src/assembler.rs:340-680 | those of loads and stores |
| `MachineCode.BranchWords` | src/assembler.rs:340-680 | those of branches and jumps |
| `MachineCode.BranchArrives` | src/assembler.rs:321-331 | a taken branch arrives at its label if and only if the distance is a whole number of words that fits in 16 bits |
| `MachineCode.JumpArrives` | src/assembler.rs:333-338 | a jump arrives if and only if its label is a word address in the same 256 MB |
| `Assembler.PaddingIsLeast` | src/assembler.rs:798-804 | the padding reaches the alignment and no smaller one does |
| `Assembler.Scan` | src/assembler.rs:260-279 | if the first pass succeeds all addresses fit in 32 bits |
| `Assembler.ScanSucceeds` | src/assembler.rs:260-279 | it succeeds if and only if no global is defined twice, alignments are below 32 bits and the code ends below 4 GB |
| `Assembler.LastBefore` | src/assembler.rs:295-301 | the nearest definition before an instruction |
| `Assembler.FirstAfter` | src/assembler.rs:302-306 | the nearest definition after it |
| `Assembler.GlobalSearch` | src/assembler.rs:265-276 | a global label has the address of its one definition, or the one it had before |
| `Assembler.SearchesAgree` | src/assembler.rs:283-319 | searching a label by address finds the definition meant by the text, however many labels share an address |
| `CodeGeneration.PassesAgree` | src/assembler.rs:231-279 | when the second pass reaches an instruction it is where the first pass said |
| `CodeGeneration.AssembleIsReference` | src/assembler.rs:231-247 | assembling gives the bytes, or the error, of a reference that works from the text alone |
| `CodeGeneration.AssembleSucceeds` | src/assembler.rs:231-319 | a program assembles if and only if the first pass succeeds and each of its labels is defined where the text looks for it |
| `CodeGeneration.AssembledLayout` | src/assembler.rs:231-247 | the bytes of each instruction lie at its address, and the size is the number of bytes |
| `MachineImage.EmitIsSized` | src/assembler.rs:107-129 | every instruction is emitted in as many bytes as the first pass counts, Li, La and Align included |
| `MachineImage.ProgramReadsBack` | src/assembler.rs:340-734 | wherever an instruction of a program ends up, the CPU decodes there exactly the instructions it expands to |
| `MachineImage.PlainReadsBack` | src/assembler.rs:340-680 | where a real instruction ends up the CPU decodes that instruction |
| `MachineImage.AlignmentIsZeros` | src/assembler.rs:676-679 | an alignment is zeros up to an aligned address |
| `MachineImage.PlainBytes` | src/assembler.rs:727-734 | an instruction word is four bytes, lowest first |
| `PseudoInstructions.LiLoads` | src/assembler.rs:686-699 | running the expansion of Li leaves the value in the register whatever load is pending, and otherwise only does that load |
| `PseudoInstructions.LaLoads` | src/assembler.rs:700-708 | the same for La and any 32 bit address |
| `PseudoInstructions.LaLoadsLabel` | src/assembler.rs:700-708 | in an assembled program the CPU finds at a La two instructions that load the address of its label |
| `PseudoInstructions.MoveCopies` | src/assembler.rs:684-685 | Move copies the register as it was before the pending load |
| `PseudoInstructions.NopWaits` | src/assembler.rs:682-683 | Nop does nothing but the pending load |
| `PseudoInstructions.BranchPseudos` | src/assembler.rs:709-714 | B is always taken, Beqz on zero and Bnez on anything else |
| `PseudoInstructions.BranchReachesLabel` | src/assembler.rs:321-331 | in an assembled program a taken branch, B, Beqz and Bnez included, goes to its label if and only if that is in range |
| `PseudoInstructions.JumpReachesLabel` | src/assembler.rs:333-338 | the same for jumps |
| `AssemblerDevice.AssemblerUnit.ParseLabels` | src/assembler.rs:260-279 | the loop of the first pass collects those labels, or fails in the same way |
| `AssemblerDevice.AssemblerUnit.SearchBack` | src/assembler.rs:295-301 | the loop backwards |
| `AssemblerDevice.AssemblerUnit.SearchForward` | src/assembler.rs:302-306 | the loop forwards |
| `AssemblerDevice.AssemblerUnit.Resolve` | src/assembler.rs:283-319 | the address of a label |
| `AssemblerDevice.AssemblerUnit.AssembleInstruction` | src/assembler.rs:340-721 | appends the bytes of an instruction |
| `AssemblerDevice.AssemblerUnit.AssembleProgram` | src/assembler.rs:231-247 | appends the image of the program and returns its size, or fails in the same way |
| `InstructionCache.FetchIsTransparent` | src/cpu/mod.rs:201-269 | through a transparent cache a fetch returns the word in memory and keeps it transparent, partial fills and both cached regions included |
| `InstructionCache.FetchCost` | src/cpu/mod.rs:201-269 | a fetch is free if and only if it is cached and hits; a miss costs three cycles and one for each word to the end of the line, an uncached fetch four |
| `InstructionCache.FetchBrings` | src/cpu/mod.rs:227-251 | what the cache holds after a miss: the word and the rest of its line, nothing else of that line, all other lines |
| `InstructionCache.MaintainDrops` | src/cpu/mod.rs:316-350 | an isolated store drops one line, or sets one word to zero |
| `InstructionCache.SameStorage` | src/memory/mod.rs:737-744 | two addresses are one word only for mirrors of RAM |
| `InstructionCache.TransparencyIsExact` | src/cpu/mod.rs:201-269 | every run of fetches returns the words in memory if and only if the cache is transparent |
| `InstructionCache.PowerUpTransparent` | src/cpu/mod.rs:1868-1879 | the initial cache is transparent if and only if the first 4 KB are zero |
| `InstructionCache.StepKeepsTransparent` | src/cpu/mod.rs:201-350 | exactly which fetches, stores and isolated stores keep a cache transparent |
| `InstructionCache.ClearRestoresTransparency` | src/cpu/mod.rs:316-350 | a program that runs uncached and writes every line in tag test mode makes any cache transparent, for any memory |
| `InstructionCache.FetchUnit.FetchInstruction` | src/cpu/mod.rs:201-269 | the word, the cycles and the cache after a fetch |
| `InstructionCache.FetchUnit.CacheMaintenance` | src/cpu/mod.rs:316-350 | an isolated store |
| `InstructionCache.FetchUnit.ClearCache` | src/parallel_io/exe_loader.rs:235-270 | both loops of the clearing program leave an empty cache of zeros, transparent for every memory |
| `LoadStore.MergeLoadValue` | src/cpu/mod.rs:1383-1530 | the byte moves of LWL and LWR are the masks and shifts of the code |
| `LoadStore.MergeStoreValue` | src/cpu/mod.rs:1576-1663 | the same for SWL and SWR |
| `LoadStore.WrappingSum` | src/cpu/mod.rs:1818-1824 | the address is the register plus the immediate read with its sign, modulo 2^32 |
| `LoadStore.RamAddresses` | src/memory/mod.rs:717-739 | which addresses are RAM, and which byte of it |
| `LoadStore.ChainReplaces` | src/cpu/mod.rs:406-420 | what each register holds during and after the delay of a new load |
| `LoadStore.UnalignedLoad` | src/cpu/mod.rs:1383-1530 | LWR and LWL, in either order, back to back or with a NOP between them, deliver the word at any address through the load delay and finish the load pending before |
| `LoadStore.UnalignedStore` | src/cpu/mod.rs:1576-1663 | SWR and SWL, in either order, write those four bytes and no others, from the register before or after the pending load |
| `LoadStore.TornIsWhole` | src/cpu/mod.rs:1576-1663 | when a word torn between two is one of them, for both orders |
| `LoadStore.UnalignedStoreIsWhole` | src/cpu/mod.rs:1576-1663 | the word stored is the register after the load if and only if the load does not change the bytes stored first: the low ones for SWR then SWL, the high ones for SWL then SWR |
| `LoadStore.UnalignedRoundTrip` | src/cpu/mod.rs:1383-1663 | storing and loading back is the identity |
| `LoadStore.CpuUnit.DelayedLoad` | src/cpu/mod.rs:395-404 | the pending load reaches its register |
| `LoadStore.CpuUnit.DelayedLoadChain` | src/cpu/mod.rs:406-420 | a new load replaces one to the same register and lets another finish |
| `LoadStore.CpuUnit.OpLoad` | src/cpu/mod.rs:1383-1530 | LWL and LWR on registers and RAM, at the register plus the sign extended immediate |
| `LoadStore.CpuUnit.OpStore` | src/cpu/mod.rs:1576-1663 | SWL and SWR on registers and RAM, at that address |
| `Divider.TableMatchesFormula` | src/cpu/gte/divider.rs:38-86 | the first 256 entries of the table are the formula it was built from, and the last repeats its predecessor |
| `Divider.ReciprocalBound` | src/cpu/gte/divider.rs:24-34 | the reciprocal is within -2.625 and +1.5 units of the exact one, and nothing overflows on the way |
| `Divider.DivisionErrorBound` | src/cpu/gte/divider.rs:7-20 | for quotients below two the result is less than 6 units too small and less than 4 too large, saturated or not |
| `Divider.GuardAdmitsDivision` | src/cpu/gte/mod.rs:1284-1287 | the guard of the command implies the hypotheses of that bound |
| `Divider.DivideScales` | src/cpu/gte/divider.rs:7-20 | doubling both terms does not change a quotient |
| `Divider.DivideZero` | src/cpu/gte/divider.rs:7-20 | zero over anything is zero |
| `Divider.KnownQuotients` | src/cpu/gte/divider.rs:88-109 | quotients known from the hardware |
| `GteArithmetic.AccumulateWrapsOnce` | src/cpu/gte/mod.rs:1107-1126 | wrapping to 44 bits after each product is wrapping the exact sum once |
| `GteArithmetic.FlagsReportOverflow` | src/cpu/gte/mod.rs:1361-1372 | no flag is raised if and only if no partial sum leaves the range |
| `GteArithmetic.CleanIsExact` | src/cpu/gte/mod.rs:1361-1372 | without a flag the sum is exact |
| `Gte.MvmvaExact` | src/cpu/gte/mod.rs:827-837 | a MVMVA without accumulator flags computed exact rows, and with the shift MAC is their floor division by 4096 |
| `Gte.MvmvaReportsOverflow` | src/cpu/gte/mod.rs:1082-1129 | it ends without those flags if and only if no partial sum of any row leaves the range |
| `Gte.RtpsExact` | src/cpu/gte/mod.rs:1187-1210 | a RTPS without accumulator flags computed exact rows, and with the shift MAC is their floor division by 4096 |
| `Gte.RtpsReportsOverflow` | src/cpu/gte/mod.rs:1187-1210 | it ends without those flags if and only if no partial sum of any row leaves the range |
| `Gte.RtpsProjects` | src/cpu/gte/mod.rs:1176-1325 | when RTPS ends without the summary bit, IR1 and IR2 are what MAC holds, the depth is the exact one, and the screen position is within four pixels of the exact perspective projection of IR1 and IR2; with the shift these are the exact camera coordinates, and IR3 is if and only if its flag is down |
| `Gte.MacIsExact` | src/cpu/gte/mod.rs:1187-1210 | without the shift and without accumulator flags MAC is the exact row if and only if the row fits in 32 bits |
| `Gte.MvmvaMacIsExact` | src/cpu/gte/mod.rs:1107-1126 | the same for MVMVA |
| `Gte.Ir3IsMac3` | src/cpu/gte/mod.rs:1212-1262 | IR3 is MAC3 if and only if that fits its range, and the flag is up if and only if the shifted depth does not fit 16 bits |
| `Gte.UnshiftedCanWrap` | src/cpu/gte/mod.rs:1176-1325 | without the shift a command can end with clean flags, a wrapped MAC and a saturated IR3 |
| `GteResults.RowFormula` | src/cpu/gte/mod.rs:1107-1126 | a row is the control vector and the product of a matrix row and the vector |
| `GteResults.CameraFormula` | src/cpu/gte/mod.rs:1187-1210 | for RTPS, the translation, the rotation and vector 0 |
| `GteResults.AccumulatorFlagBits` | src/cpu/gte/mod.rs:1361-1372 | each accumulator flag is up if and only if a partial sum leaves the range on its side, by rows or by columns |
| `GteResults.MvmvaResult` | src/cpu/gte/mod.rs:827-1141 | every register after MVMVA, for every input: MAC is the row cut to 44 bits, shifted and cut to 32, IR is MAC saturated, with a flag if and only if it had to be, and a summary bit if and only if an error flag is up |
| `GteResults.MvmvaOverflowBits` | src/cpu/gte/mod.rs:1107-1126 | the flags of accumulator i are up if and only if row i leaves the range |
| `GteResults.RtpsResult` | src/cpu/gte/mod.rs:1176-1359 | every register after RTPS, for every input: MAC and IR as for MVMVA, both queues move on by one, and the new position, MAC0 and IR0 come from the projection factor, DQA and DQB |
| `GteResults.RtpsFlagBits` | src/cpu/gte/mod.rs:1176-1359 | each later flag and the summary bit are up if and only if the number they stand for is out of range |
| `GteResults.RtpsOverflowBits` | src/cpu/gte/mod.rs:1187-1210 | the flags of accumulator i are up if and only if column i of some row leaves the range |
| `GteDevice.GteUnit.AccumulateRow` | src/cpu/gte/mod.rs:1107-1126 | the inner loop |
| `GteDevice.GteUnit.AccumulateRows` | src/cpu/gte/mod.rs:1187-1210 | the outer loop |
| `GteDevice.GteUnit.MultiplyMatrixByVector` | src/cpu/gte/mod.rs:1082-1129 | MAC, IR and flags of a product |
| `GteDevice.GteUnit.DoRtp` | src/cpu/gte/mod.rs:1176-1325 | registers, queues and flags of a projection |
| `GteDevice.GteUnit.CommandMvmva` | src/cpu/gte/mod.rs:99-135 | the command with its flag summary |
| `GteDevice.GteUnit.CommandRtps` | src/cpu/gte/mod.rs:647-652 | the command with its flag summary |
| `Gp0.Lookup` | src/gpu/mod.rs:596-662 | no command is longer than the buffer or shorter than what its callback reads |
| `Gp0.PolygonTable` | src/gpu/mod.rs:606-625 | length, callback and dithering of all polygons from the bits of the opcode, and which are unknown |
| `Gp0.LineTable` | src/gpu/mod.rs:626-633 | the same for lines |
| `Gp0.RectangleTable` | src/gpu/mod.rs:634-651 | the same for rectangles |
| `Gp0.OtherTable` | src/gpu/mod.rs:603-661 | the same for all others |
| `Gp0.CallbacksReadAll` | src/gpu/mod.rs:596-662 | callbacks read all the words of their command |
| `Gp0.WordFields` | src/gpu/mod.rs:1091-1105 | a word is its halves, or its opcode and color |
| `Gp0.EndMarkers` | src/gpu/mod.rs:1779-1784 | the end markers are the words with a 5 at the top of both halves |
| `Gp0.AttributeBits` | src/gpu/mod.rs:664-690 | transparency, texture and dithering from the bits of the opcode and the draw mode |
| `Gp0.StepKeepsValid` | src/gpu/mod.rs:491-592 | buffered and remaining words add up to the length of the command or image after every word |
| `Gp0.Feed` | src/gpu/mod.rs:421-423 | after every stream |
| `Gp0Stream.MonochromeLength` | src/gpu/mod.rs:568-592 | the end of a polyline is its first end marker |
| `Gp0Stream.ShadedLength` | src/gpu/mod.rs:524-565 | for shaded ones, the first in the place of a color |
| `Gp0Stream.WholeImage` | src/gpu/mod.rs:1092-1146 | an upload delivers exactly width times height pixels in order |
| `Gp0Stream.ImageOverflows` | src/gpu/mod.rs:1837-1846 | an image larger than video memory stops the GPU at the first word that does not fit |
| `Gp0Stream.StreamAgrees` | src/gpu/mod.rs:491-686 | for every stream of words the parser tells the renderer what the stream means, and stops the GPU if and only if the stream does |
| `Gp0Device.CommandBuffer.PushWord` | src/gpu/mod.rs:1614-1618 | appends a word |
| `Gp0Device.ImageBuffer.PushGp0Word` | src/gpu/mod.rs:1837-1846 | appends two pixels |
| `Gp0Device.Gpu.HandleWord` | src/gpu/mod.rs:491-592 | one word through the current handler |
| `Gp0Device.Gpu.HandleWords` | src/gpu/mod.rs:421-423 | any words, from any state |
| `Gp0Device.Gpu.HandleStream` | src/gpu/mod.rs:421-423 | a whole stream: the log grows by its meaning |

## Left out

- The GPU as a clock source of timers (dotclock, hsync): the phase it gives a timer can exceed the period, which the timer theorems exclude.
- Timers.TimerDevice.Reconfigure: models the system clock and its eighth only, for the same reason.
- The f32 clock ratio of the GPU: it is any constant above 0 and below 2^17 here.
- 64 bit overflow of dates: dates are unbounded, and operations that would pass the largest date are excluded by `Fits`.
- CD-ROM sector reads (ReadN, ReadS), the RX buffer and the mixer: their panics and timing depend on the host keeping up. Disc positions in GetLocP are opaque bytes. Replacing the disc during a run is excluded.
- CdCommands.Execute: treats ReadN and ReadS as unknown commands, because sector reads are left out.
- CdProtocol.Sync: does not model sector reads. It takes any number of cycles; `CdRomDevice.CdRom.SyncWith` cuts them to 32 bits.
- CdRomDevice.CdRom.SyncCycles: is the loop of the sync alone; the clock is read and the prediction scheduled by `CdRomDevice.CdRom.SyncWith`. The predictions after register writes are not scheduled.
- CdRomDevice.CdRom.SyncWith: does not model sector reads.
- CdRomDevice.CdRom.PredictNextSync: leaves out the date of the next sector read.
- CdRomDevice.CdRom.MaybeStart: does not schedule the prediction that follows a start; the next sync does.
- CdRomDevice.CdRom.MaybeRespond: does not schedule the prediction that follows a start; the sync it is part of does.
- CdRomDevice.CdRom.IrqAck: leaves out the notification of a sector read.
- TimerSchedule.InterruptOnTime: models one timer with its target ahead; changes of its mode, target or counter are not part of a run.
- The Msf type of disc positions: it comes from another library. Its reading of BCD digits is the usual one here.
- CD-ROM register indexes and unhandled register bits: the host's operations are named instead of being decoded from an index, an offset and a byte.
- Dma.DoDmaOtc: models the Decrement step only; ordering tables built upwards are not linked lists that work. Block transfers of the other ports are plain copies.
- MachineCode.DecodeEncode: models operands that fit their fields; the code of SYSCALL and BREAK is cut to 20 bits before it gets here. Opcodes the assembler has no syntax for are not decoded.
- MachineCode.BranchArrives: models wrapping subtraction of addresses; a debug build panics where the difference of two addresses read as signed numbers overflows.
- AssemblerDevice.AssemblerUnit.AssembleProgram: models an address that does not fit in 32 bits, or an alignment of 32 bits or more, as an error; the original panics or wraps depending on the build. The labels left behind by a failed call are not specified.
- AssemblerDevice.AssemblerUnit.AssembleInstruction: takes the bytes of an instruction as one sequence and pushes them in order; the recursion through pseudo instructions is the function `Expand`.
- LoadStore.UnalignedLoad: the instruction between the two loads is a NOP.
- LoadStore.CpuUnit.OpLoad: models addresses in RAM; the scratchpad, the BIOS and device registers are not part of this model.
- LoadStore.CpuUnit.OpStore: models addresses in RAM, as the loads do.
- Most ALU opcodes, exceptions and coprocessor 0: only the instructions that the theorems need are executed.
- The renderer and vertex attributes: the renderer is a log, and a drawing command appears in it with its words and attributes.
- GP1 commands, the GPU status register and the drawing settings other than the draw mode.
- Geometry commands other than MVMVA and RTPS, and writes to the flag register.
- Serialization, disc images, BIOS hashing, the SPU, MDEC, controllers, the debugger and the tracer.
