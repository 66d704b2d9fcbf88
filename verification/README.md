# Verified cores of Bochs

This project models five self-contained cores of Bochs 2.6 in Dafny and proves what they are for.

- **Timer scheduler** (`TimerModel`, `NaiveClock`, `TimerRefinement`, `TimerRuns`, `ArmedTimers`, `TickOrder`,
  `PcSystem`, `SmpLoop`).
  One 32-bit countdown stands for the earliest of many 64-bit deadlines. `NaiveClock` is the reference: it looks at
  every timer on every tick. Every run of the scheduler agrees with it, answer by answer and firing by firing;
  `tickn(n)` reaches the very state of n calls of `tick1`; in every run that leaves an armed timer alone, whatever it
  does with the others, the timer fires at exactly its deadline and once every period. `TickOrder` says in which order
  the handlers of one tick run and what becomes of their calls. `PcSystem.System` is the class
  with the fields of `bx_pc_system_c`, and each of its methods ends in the state the model function gives. `SmpLoop`
  conserves instructions.
- **BIOS disk path** (`Machine`, `DiskGeometry`, `AtaRegisters`, `HardDisk`, `AtaPacket`, `CdEmulation`). Geometry
  translation, sector numbering, the task file and what a drive decodes from it, whole INT 13h transfers between
  memory and disk, the packet engine over any even block sizes, and the emulated floppy that runs on it.
- **Keyboard ring and mouse packets** (`KeyRing`, `MousePackets`). Two smaller state machines of the same BIOS.
- **CRC-32** (`CrcModel`, `Crc`). The lazily built table against the bit-serial register, the register against
  polynomial division as IEEE 802.3 defines it, and the detection of every burst of up to 32 bits.
- **Module table and search paths** (`ModuleTable`, `LibLtdl`, `SearchPaths`, `Argz`). Reference counts are conserved
  by every open and close, through the recursion between closing a module and releasing its dependencies; the
  canonical form of a path list, splitting it into a vector, walking the vector and joining it again.
- **BIOS checksum fixer** (`BiosSums`, `BiosTables`, `BiosLayout`). Five table checksums and the image checksum written
  into one buffer: exactly which tables sum to zero at the end, when a run succeeds, and when a second run changes
  nothing. `BiosLayout` holds the tables as their standards lay them out.

Code that works in place is modelled by classes and loops over arrays, each method proved against a function of the old
state; the theorems are about these functions. `Words` holds the fixed-width integers, `Arith` facts about products and
quotients.

## Conventions

- `int` and `nat` are unbounded; `U16`, `U32`, `U64` write out the truncation of the C types.
- The scheduler assumes that time plus the ticks delivered stays within `HORIZON` (2^63), and that periods are below it.
- A timer handler is a function of the device state, the function and timer numbers and the time; it returns a new device
  state and the scheduler calls it makes. These calls arm and disarm registered timers (`WellBehaved`). A handler that
  registers, unregisters or ticks is excluded: `countdownEvent` goes on reading flags up to the current `numTimers`.
  `TickBy` carries the handlers in force, so they may differ from step to step of a run.
- `BX_TIMER_DEBUG` is 0, its default: the debug panics are not part of the model. Registering asks for a free slot.
- Memory is an array of at least 1 MB addressed by segment * 16 + offset; transfers end below 1 MB.
- What a device answers (busy, error, no data request, not ready, how it cuts its data into blocks, how many sectors it
  transfers well) is a parameter, so the theorems are for all of these answers. A block of the packet protocol is even
  and at most 0xfff0 bytes, the limit the driver programs; a drive may break off after any block.
- Words of the CRC are sequences of 32 bits, most significant first.
- A world of modules is a list of names, each with the files a search tries and the names it depends on, and the set of
  files some loader can open; dependencies do not run in circles, since loading a circle does not end in the code.

## Where the code does not do what one expects

- In `lba` translation the head estimate and the cylinder count are cut to 16 bits. `DiskGeometry.LbaExact` says for which
  sector counts this shows; `DiskGeometry.LbaTruncates` is a drive of 1052835840 sectors that ends up with 0 cylinders.
- INT 13h on the emulated floppy does not reject sector 0 and then reads 0x10000 sectors too far
  (`CdEmulation.VlbaIsChsIndex`, `CdEmulation.AcceptedExactly`).
- `ata_cmd_packet` moves whole words: with an odd length one byte more than asked for reaches memory, exactly when the
  stream goes on behind the length (`AtaPacket.WindowExact`; `AtaPacket.OneByteTooMany` asks for one byte and gets two).
- INT 13h on the emulated floppy does not look at how much arrived: a drive that completes early is reported as success.
  All bytes asked for are there exactly if enough of the sectors arrived (`CdEmulation.CdFloppy.ArrivedSlice`); of a
  drive that sends nothing nothing is (`CdEmulation.CdFloppy.NothingArrives`).
- `canonicalize_path` loses the root directory: a component made of slashes only, and no other, leaves nothing
  (`SearchPaths.SqueezedToNothing`, `SearchPaths.RootsLost`). Of `/` the empty text is left (`SearchPaths.RootAlone`),
  which trips the assertion at bochs-2.6/ltdl.c:3530.
- `canonicalize_path` changes its own result again exactly when a component made of slashes only follows one that is not
  (`SearchPaths.CanonicalAgain`; `SearchPaths.RootInTheMiddle` is `a:/:b`).
- `argz_create_sep` leaves an empty last entry when the string is empty or ends in the delimiter (`Argz.CreatedEntries`).
  Joining undoes splitting exactly for strings that are not empty and have no leading and no doubled delimiter
  (`Argz.JoinUndoesCreate`). The vector of the empty string is one character long (`Argz.EmptyVector`); on it the
  unsigned counter of `argz_stringify` wraps around and its first access is outside the vector (`Argz.ArgzStringify`).
- `biossums` finds a header exactly where a signature is, but never looks at the first paragraph
  (`BiosTables.HeadersExactly`), leaves all headers of a kind alone when there are several, and writes the checksum of a
  table too short to hold it behind the table. A table that no other checksum is written into sums to zero exactly if it
  escapes all three or did so before (`BiosTables.TableSums`). `BiosTables.FirstParagraph`, `BiosTables.TwoHeaders` and
  `BiosTables.TooShort` are images on which the run succeeds and a table is wrong.

## Model

| member | source | states |
|---|---|---|
| PcSystem.System.constructor | bochs-2.6/pc_system.cc:48-65 | slot 0 holds the running, continuous null timer of period 0xffffffff and nothing else is registered |
| PcSystem.System.Initialize | bochs-2.6/pc_system.cc:67-83 | the clock starts at zero and the scheduler invariant holds |
| PcSystem.System.TimeTicks | bochs-2.6/pc_system.h:123-126 | between operations neither the subtraction nor the sum wraps around, and no active timer is due before this time plus the countdown |
| TimerRuns.RunTime | bochs-2.6/pc_system.h:105-126 | over every run the time advances by exactly the ticks delivered, whatever is registered, armed, disarmed or fires |
| PcSystem.System.RegisterTimerTicks | bochs-2.6/pc_system.cc:258-315 | ends in the model state of registration: the first free slot holds the period asked for, 1 at least, and a deadline that far from now; keeps the invariant |
| PcSystem.System.ActivateTimerTicks | bochs-2.6/pc_system.cc:455-487 | ends in the model state of activation, whose countdown is skewed when the timer is due first: the slot is due the ticks asked for from now, one at least; a client's call keeps the invariant |
| PcSystem.System.DeactivateTimerSlot | bochs-2.6/pc_system.cc:523-533 | ends in the model state of deactivation; a client's call keeps the invariant |
| PcSystem.System.Unregister | bochs-2.6/pc_system.cc:535-563 | an active timer is refused and nothing changes; otherwise the slot is freed and the table shrinks at its end |
| PcSystem.System.SettleSlot | bochs-2.6/pc_system.cc:335-364 | one timer at the end of a countdown: flag, one-shot or next deadline, and the running minimum |
| PcSystem.System.RunCountdownEvent | bochs-2.6/pc_system.cc:317-381 | the two loops end in the model state of the event, callbacks included |
| PcSystem.System.TickOnce | bochs-2.6/pc_system.h:100-104 | one decrement, and the event when the countdown ends, is one tick of the model |
| PcSystem.System.Tickn | bochs-2.6/pc_system.h:105-115 | terminates for every n, leaves the state of the batched tick, and time has advanced by exactly n |
| PcSystem.System.TimeUsecSequential | bochs-2.6/pc_system.cc:432-446 | returns max(previous result, current microseconds) + 1 |
| PcSystem.System.TimeUsecRun | bochs-2.6/pc_system.cc:432-446 | a run of calls with a clock that does not go back returns the values of the recurrence |
| PcSystem.UsecRunIncreases | bochs-2.6/pc_system.cc:432-446 | these values strictly increase and stay ahead of the clock |
| TimerRefinement.SkewKeeps | bochs-2.6/pc_system.cc:299-307 | shortening countdown and period by the same amount keeps the invariant and the time |
| TimerRefinement.RegisterRefines | bochs-2.6/pc_system.cc:258-315 | registration keeps the invariant and is registration with an absolute deadline in the naive clock |
| TimerRefinement.ActivateRefines | bochs-2.6/pc_system.cc:455-487 | so is activation |
| TimerRefinement.DeactivateRefines | bochs-2.6/pc_system.cc:523-533 | so is deactivation |
| TimerRefinement.UnregisterRefines | bochs-2.6/pc_system.cc:535-563 | so is unregistering, which succeeds exactly for inactive timers |
| TimerRefinement.PerformAllRefines | bochs-2.6/pc_system.cc:372-380 | the calls a handler makes keep the invariant and take no time |
| TimerRefinement.MinDeadlineIsLeast | bochs-2.6/pc_system.cc:333-364 | the minimum computed in the loop is a deadline of an active timer and no active timer is due earlier |
| TimerRefinement.AdvanceRestarts | bochs-2.6/pc_system.cc:330-370 | the next countdown is between 1 and 0xffffffff, so the cast to 32 bits is exact, and no deadline is passed |
| TimerRefinement.EventRefines | bochs-2.6/pc_system.cc:317-381 | the event fires exactly the timers due now, in index order, as the naive clock does, and keeps the invariant |
| TimerRefinement.QuietSweep | bochs-2.6/pc_system.h:100-104 | where no timer is due the naive clock fires nothing, so the countdown need not look |
| TimerRefinement.Tick1Refines | bochs-2.6/pc_system.h:100-104 | one tick agrees with one tick of the naive clock |
| TimerRefinement.TickNIsTick1s | bochs-2.6/pc_system.h:105-115 | the batched tick equals n single ticks: same state, same firing trace, for every timer table and re-arming handler |
| TimerRefinement.TickNRefines | bochs-2.6/pc_system.h:105-115 | the batched tick agrees with n ticks of the naive clock |
| TimerModel.SingleTicksCompose | bochs-2.6/pc_system.h:100-104 | m ticks and then n ticks are m + n ticks |
| TimerRuns.StepRefines | bochs-2.6/pc_system.cc:258-563 | every operation keeps the invariant and answers as the naive clock |
| TimerRuns.RunRefines | bochs-2.6/pc_system.cc:258-563 | every run of register, activate, deactivate, unregister and tick fires exactly what the naive clock fires |
| TimerRuns.TickElsewhere | bochs-2.6/pc_system.cc:317-381 | a tick touches a timer that handlers leave alone only through its own deadline |
| TimerRuns.ContinuousFires | bochs-2.6/pc_system.cc:343-357 | over n ticks a continuous timer left alone fires at its deadline and once every period after it, and at no other time |
| TimerRuns.OneShotFires | bochs-2.6/pc_system.cc:343-350 | over n ticks a one-shot fires once, at its deadline, and is then off |
| ArmedTimers.SparedStep | bochs-2.6/pc_system.cc:258-563 | registering, arming, disarming and unregistering other timers leaves a timer, the time and the firings alone |
| ArmedTimers.ContinuousInRun | bochs-2.6/pc_system.cc:258-563 | in every run that spares a continuous timer it fires at its deadline and once every period after it, up to the time reached, and never else |
| ArmedTimers.OneShotInRun | bochs-2.6/pc_system.cc:258-563 | in every run that spares a one-shot it fires once, at its deadline, if the time gets there |
| ArmedTimers.ArmedContinuous | bochs-2.6/pc_system.cc:455-487 | a run that arms a timer at t for p ticks (one if p is 0) and then spares it: it fires at t+p, t+2p, ..., once for every p ticks delivered |
| ArmedTimers.ArmedOneShot | bochs-2.6/pc_system.cc:455-487 | armed as a one-shot in such a run it fires at t+p if that many ticks are delivered, and never otherwise |
| ArmedTimers.RegisteredContinuous | bochs-2.6/pc_system.cc:258-315 | the same for a continuous timer that is armed when it is registered |
| ArmedTimers.RegisteredOneShot | bochs-2.6/pc_system.cc:258-315 | and for a one-shot |
| ArmedTimers.Disarmed | bochs-2.6/pc_system.cc:523-533 | a timer that has been disarmed does not fire in any run that leaves it alone |
| ArmedTimers.RegisteredIdle | bochs-2.6/pc_system.cc:258-315 | nor does one that was registered without arming it |
| ArmedTimers.UnregisterFrees | bochs-2.6/pc_system.cc:535-563 | the slot given up is the one the next registration takes, unless an earlier one is free |
| TickOrder.DueExactly | bochs-2.6/pc_system.cc:335-364 | the timers due at a time, in increasing order, each once and none left out |
| TickOrder.LastCallWins | bochs-2.6/pc_system.cc:455-533 | of the calls handlers make for a timer the last decides: armed for the ticks given from now, or off |
| TickOrder.TickOnClock | bochs-2.6/pc_system.cc:372-380 | in one tick of the naive clock exactly the timers due fire, in index order; each handler gets its own function, its number and what the one before left, and their calls are applied in order to the settled table |
| TickOrder.TickFires | bochs-2.6/pc_system.cc:317-381 | so they do in one tick of the countdown scheduler |
| SmpLoop.Accumulate | bochs-2.6/main.cc:1048-1050 | the 32-bit accumulator of a round does not wrap around |
| SmpLoop.CreditedNext | bochs-2.6/main.cc:1048-1050 | every turn credits what its processor retired, or the quantum if that is nothing |
| SmpLoop.EndOfRound | bochs-2.6/main.cc:1052-1056 | division and remainder split the accumulator without loss |
| SmpLoop.RunTurn | bochs-2.6/main.cc:1044-1056 | one turn: processors * ticks delivered + what is kept = what was kept + what was credited |
| SmpLoop.RunProcessors | bochs-2.6/main.cc:1039-1060 | over any number of turns instructions credited = processors * ticks + executed, with executed < processors at a round boundary |
| DiskGeometry.DetectGeometry | bochs-2.6/bios/rombios.c:2683-2717 | the four translation branches compute the logical geometry of the specification; the shift loop ends |
| DiskGeometry.ShiftBounds | bochs-2.6/bios/rombios.c:2705-2713 | halving cylinders and doubling heads stays below 256 heads and never adds capacity |
| DiskGeometry.ShiftStops | bochs-2.6/bios/rombios.c:2705-2713 | the loop ends with cylinders divided and heads multiplied by 2^j for the least j at which the cylinders are 1024 at most or the heads exceed 127 |
| DiskGeometry.LargeHalves | bochs-2.6/bios/rombios.c:2705-2716 | mode large: that geometry, clipped to 1024 cylinders; unless the heads run out fewer than 2^j cylinders are lost |
| DiskGeometry.RechsHalves | bochs-2.6/bios/rombios.c:2697-2716 | mode r-echs: the same after 16 heads became 15 and min(c, 61439) cylinders became 16/15 of them |
| DiskGeometry.LbaHeads | bochs-2.6/bios/rombios.c:2686-2696 | mode lba: 63 sectors, the least of 16, 32, 64 and 128 heads that is no less than the 16-bit estimate and 255 above; mode none only clips the cylinders |
| DiskGeometry.RechsFits | bochs-2.6/bios/rombios.c:2698-2704 | cylinders*16/15 fits in 16 bits behind the clip at 61439 and 15 heads of it hold no more than 16 heads did |
| DiskGeometry.TranslateFits | bochs-2.6/bios/rombios.c:2683-2717 | at most 1024 cylinders, 255 heads and 63 sectors, and never more sectors than the drive has |
| DiskGeometry.LbaExact | bochs-2.6/bios/rombios.c:2686-2696 | the 16-bit results equal the untruncated ones if and only if a stated condition on the sector count holds |
| DiskGeometry.LbaTruncates | bochs-2.6/bios/rombios.c:2686-2696 | a drive of 1052835840 sectors gets 0 cylinders |
| DiskGeometry.IndexInCapacity | bochs-2.6/bios/rombios.c:5624-5641 | the sector number of an accepted address lies in the capacity |
| DiskGeometry.AddressOfIndex | bochs-2.6/bios/rombios.c:5624-5641 | the sector number gives the address back |
| DiskGeometry.IndexOfAddress | bochs-2.6/bios/rombios.c:5624-5641 | every number below the capacity is the number of an accepted address: with the two above, a bijection |
| DiskGeometry.ParametersDecode | bochs-2.6/bios/rombios.c:5666-5684 | the registers of function 08, decoded as function 02 decodes them, are the last sector, accepted iff there is one |
| AtaRegisters.Decodes28 | bochs-2.6/bios/rombios.c:2958-2970 | from the 28-bit registers a drive reads the requested sector and count |
| AtaRegisters.Decodes48 | bochs-2.6/bios/rombios.c:2949-2970 | from the two-deep 48-bit registers it reads all 48 bits of the sector number and the count |
| AtaRegisters.DecodesChs | bochs-2.6/bios/rombios.c:2963-2970 | raw cylinder, head and sector name sector (c*heads+h)*spt+s-1 of the physical geometry |
| AtaRegisters.TaskFile.IssueLba | bochs-2.6/bios/rombios.c:2947-2970 | the registers decode to the request, in the 48-bit form exactly when LBA + count >= 2^28, and hold its bytes where the command set puts them |
| AtaRegisters.TaskFile.IssueChs | bochs-2.6/bios/rombios.c:2963-2970 | so do the registers of a raw request |
| HardDisk.AdjustBuffer | bochs-2.6/bios/rombios.c:3000-3009 | the adjusted offset is at most 0xf800 and names the same address |
| HardDisk.Codes | bochs-2.6/bios/rombios.c:2906-2914 | which answers of the drive give the return codes 0 to 7, and how many sectors have been moved then |
| HardDisk.Drive.TransferIn | bochs-2.6/bios/rombios.c:2989-3123 | after a read memory holds exactly the sectors transferred, contiguous from the buffer, and nothing else changed |
| HardDisk.Drive.TransferOut | bochs-2.6/bios/rombios.c:2989-3123 | after a write the disk holds exactly the bytes of the buffer, and nothing else changed |
| HardDisk.Drive.AtaCmdDataIo | bochs-2.6/bios/rombios.c:2915-3123 | the sectors moved are those decoded from the registers; busy, error, missing data request and bad status during the transfer give the return codes 1 to 7 and say how far it got |
| HardDisk.Drive.SectorNumber | bochs-2.6/bios/rombios.c:5633-5641 | the 32-bit sector number does not wrap, and a head sent raw fits its four bits |
| HardDisk.Drive.AcceptedExactly | bochs-2.6/bios/rombios.c:5602-5641 | cylinder, head and sector in CH, CL and DH: accepted iff they lie in the logical geometry and 1 to 128 sectors are asked for, and then the first is (c*heads+h)*spt+s-1 |
| HardDisk.Drive.Int13 | bochs-2.6/bios/rombios.c:5602-5657 | accepted iff count is 1..128 and the address is in the geometry; moves the same sectors whether sent as LBA or raw; every failure of the drive is reported and the sectors moved are counted |
| HardDisk.Drive.WriteAndRead | bochs-2.6/bios/rombios.c:5602-5657 | two INT 13h calls, a write and a read of the same sectors: if both succeed the one buffer has been copied to the other, the sectors hold it, and nothing else changed |
| HardDisk.Attach | bochs-2.6/bios/rombios.c:2683-2717 | the detected geometry, for every translation, makes a drive no accepted request leaves |
| AtaPacket.ClipGrows | bochs-2.6/bios/rombios.c:3266-3286 | the window of a longer stream is the window so far and the piece the reduced header and length cut from the next block |
| AtaPacket.CountersAdvance | bochs-2.6/bios/rombios.c:3259-3392 | one round keeps the relation of header, length, address and bytes counted to the stream read so far |
| AtaPacket.AtaDriver.CutBlock | bochs-2.6/bios/rombios.c:3266-3306 | before, count and after add up to the block and name the part of it inside the window |
| AtaPacket.AtaDriver.ReadBlock | bochs-2.6/bios/rombios.c:3294-3385 | exactly the announced bytes are taken from the port, and those inside the window land at the buffer, in words or double words |
| AtaPacket.AtaDriver.Normalise | bochs-2.6/bios/rombios.c:3259-3261 | normalising keeps the address and leaves an offset below 16 |
| AtaPacket.AtaDriver.AtaCmdPacket | bochs-2.6/bios/rombios.c:3134-3406 | for all even blocks: every byte offered is read, memory gets stream bytes [header, header + length) as far as they arrived, trsfbytes counts them, and each return code 0 to 4 says what happened |
| AtaPacket.WindowSlices | bochs-2.6/bios/rombios.c:3266-3306 | what is delivered and what is counted, for a stream that ends before, inside or behind the part asked for |
| AtaPacket.WindowExact | bochs-2.6/bios/rombios.c:3300-3306 | exactly the bytes asked for are delivered if and only if the length is even or the stream ends with it |
| AtaPacket.OneByteTooMany | bochs-2.6/bios/rombios.c:3300-3306 | one byte asked for, two delivered |
| CdEmulation.VlbaIsChsIndex | bochs-2.6/bios/rombios.c:6228-6251 | the 16- and 32-bit arithmetic gives the sector asked for if and only if the sector number is at least 1 |
| CdEmulation.AcceptedExactly | bochs-2.6/bios/rombios.c:6228-6251 | cylinder, head and sector in CH, CL and DH: accepted iff all three lie in the geometry, sector 0 included, and then the virtual sector is (c*heads+h)*spt+s-1 from sector 1 on |
| CdEmulation.CommandDecodes | bochs-2.6/bios/rombios.c:6263-6270 | the command is READ(10) with the sector number in bytes 2 to 5 and the count in bytes 7 and 8, high byte first |
| CdEmulation.SectorsCompose | bochs-2.6/bios/rombios.c:6256-6271 | the window before*512, n*512 of the CD sectors slba..elba is bytes [vlba*512, (vlba+n)*512) of the image |
| CdEmulation.CdFloppy.ReadableExactly | bochs-2.6/bios/rombios.c:6256-6262 | the sectors read lie on the disc iff the CD sector of every image sector asked for does |
| CdEmulation.CdFloppy.ArrivedSlice | bochs-2.6/bios/rombios.c:6256-6271 | of whatever part of the sectors arrives, the first bytes of the image part asked for are delivered, all of them iff enough arrived |
| CdEmulation.CdFloppy.NothingArrives | bochs-2.6/bios/rombios.c:6271-6279 | an answer of the drive, completed without data, of which nothing is delivered |
| CdEmulation.CdFloppy.ReadSectors | bochs-2.6/bios/rombios.c:6219-6279 | for every request, all even block sizes and a drive that may break off anywhere: the first trsfbytes of those image bytes end up at ES:BX, all of them if all sectors arrive, nothing else changes, errors are reported |
| KeyRing.PushQueues | bochs-2.6/bios/rombios.c:5273-5292 | with room, the rewritten bytes hold the old keys and the new one behind them |
| KeyRing.PopQueues | bochs-2.6/bios/rombios.c:4929-4947 | moving the head leaves the same keys without the first |
| KeyRing.RoomLeft | bochs-2.6/bios/rombios.c:5279-5287 | the pointers meet exactly when the ring holds one key less than it has slots |
| KeyRing.FifteenKeys | bochs-2.6/bios/rombios.c:10860-10873 | with the buffer at 0x1e..0x3e the capacity is 15 |
| KeyRing.RingBytes | bochs-2.6/bios/rombios.c:4929-4933 | the four pointers are stored low byte first at 40:1a, 40:1c, 40:80 and 40:82 |
| KeyRing.KeysConserved | bochs-2.6/bios/rombios.c:4918-5294 | over every run, keys there + keys entered = keys read or flushed + keys left, in order, and the capacity is kept |
| KeyRing.Keyboard.EnqueueKey | bochs-2.6/bios/rombios.c:5264-5294 | appends the key, or refuses it exactly when the ring is full |
| KeyRing.Keyboard.DequeueKey | bochs-2.6/bios/rombios.c:4918-4952 | returns the oldest key if there is one, and removes it only when asked to |
| KeyRing.Keyboard.CtrlBreakPressed | bochs-2.6/bios/rombios.c:5159-5171 | flushes the ring and leaves the zero key alone |
| KeyRing.Keyboard.Run | bochs-2.6/bios/rombios.c:4918-5294 | every run of enqueue, dequeue, peek and Ctrl-Break gives the results of a bounded queue |
| MousePackets.Mouse.Int74 | bochs-2.6/bios/rombios.c:5297-5344 | a byte joins the packet begun; a complete packet is handed over and the next begins; other bytes change nothing |
| MousePackets.StatusBits | bochs-2.6/bios/rombios.c:5311-5313 | a byte is the mouse's exactly when bits 0 and 5 of the status are set |
| MousePackets.Mouse.Run | bochs-2.6/bios/rombios.c:5297-5344 | over every run of interrupts the handler sees exactly the packets of the mouse's stream |
| MousePackets.OneByteMore | bochs-2.6/bios/rombios.c:5325-5343 | a byte more completes a packet exactly when enough bytes are pending |
| MousePackets.PacketAt | bochs-2.6/bios/rombios.c:5327-5335 | packets are consecutive: the k-th starts at byte k*size |
| MousePackets.PacketCount | bochs-2.6/bios/rombios.c:5327-5343 | every byte is in a packet or in the one begun |
| CrcModel.PolyValue | bochs-2.6/crc.cc:39 | the generator terms of IEEE 802.3, section 3.2.9, are the bits of 0x04c11db7 |
| CrcModel.PolyOdd | bochs-2.6/crc.cc:39 | the generator has a constant term |
| CrcModel.ByteStepIsFeed | bochs-2.6/crc.cc:62-63 | one table step is eight steps of the bit-serial register |
| CrcModel.RegisterIsFeed | bochs-2.6/crc.cc:61-63 | the table loop is the bit-serial register over the bits of the buffer |
| CrcModel.FeedDivides | bochs-2.6/crc.cc:41-51 | the bit-serial register holds the remainder of the division |
| CrcModel.ChecksumIsRemainder | bochs-2.6/crc.cc:53-65 | the result is the complement of the remainder of the message with its first 32 bits complemented and 32 zeros appended |
| CrcModel.StepInjective | bochs-2.6/crc.cc:47-48 | a step is a bijection on registers because the generator is odd |
| CrcModel.FeedInjective | bochs-2.6/crc.cc:61-63 | equal input takes different registers to different registers |
| CrcModel.BurstChangesRegister | bochs-2.6/crc.cc:53-65 | inputs that differ within 32 bits take one register to different registers |
| CrcModel.BurstDetected | bochs-2.6/crc.cc:53-65 | buffers that differ only inside 32 consecutive bits, at any bit position, have different CRCs |
| CrcModel.FourByteWindow | bochs-2.6/crc.cc:53-65 | buffers that differ only inside four consecutive bytes have different CRCs |
| Crc.EntryOneNonZero | bochs-2.6/crc.cc:58-59 | a complete table has a non-zero entry 1, so the guard tells a complete table from an empty one |
| Crc.Crc32.BuildEntry | bochs-2.6/crc.cc:47-49 | the inner loop computes the entry of an index |
| Crc.Crc32.InitCrc32 | bochs-2.6/crc.cc:41-51 | all 256 entries are in place |
| Crc.Crc32.EnsureTable | bochs-2.6/crc.cc:58-59 | the table is complete afterwards and has been built exactly once |
| Crc.Crc32.Compute | bochs-2.6/crc.cc:53-65 | the byte loop computes the checksum with preload and final complement |
| ModuleTable.NoLeak | bochs-2.6/ltdl.c:3334-3397 | every listed module is reachable from an open that has not been closed |
| ModuleTable.AllClosed | bochs-2.6/ltdl.c:3334-3397 | when every open has been closed the list is empty |
| ModuleTable.Survive | bochs-2.6/ltdl.c:2508-2527 | releasing dependencies unlinks nothing that an outstanding open still reaches |
| ModuleTable.Restored | bochs-2.6/ltdl.c:2866-2891 | dependencies loaded and released again leave list and counts as they were |
| ModuleTable.ReopenKeeps | bochs-2.6/ltdl.c:1923-1928 | counting one more open keeps every count equal to opens plus dependency slots |
| ModuleTable.ReleaseKeeps | bochs-2.6/ltdl.c:3358 | so does giving one of several references back |
| ModuleTable.InsertKeeps | bochs-2.6/ltdl.c:2935-2947 | so does registering a module, whose slots take over the references held by its loader |
| ModuleTable.CloseLast | bochs-2.6/ltdl.c:3364-3385 | so does unlinking a module without references, whose slots become opens to be closed |
| LibLtdl.Ltdl.LtDlclose | bochs-2.6/ltdl.c:3334-3397 | an unknown handle is an error and changes nothing; otherwise one open is gone, order is kept; the recursion ends |
| LibLtdl.Ltdl.UnloadDeplibs | bochs-2.6/ltdl.c:2508-2527 | one reference of each dependency is given back; terminates since the list shrinks |
| LibLtdl.Ltdl.FindModule | bochs-2.6/ltdl.c:1903-1982 | the first file that is open already or loadable, and none before it is either |
| LibLtdl.Ltdl.LoadDeplibs | bochs-2.6/ltdl.c:2469-2492 | the slots are the handles of the dependencies in reverse order, without exactly those that no loader can open |
| LibLtdl.LoadsGrown | bochs-2.6/ltdl.c:2469-2492 | what was loaded stays loaded while more modules are opened |
| LibLtdl.Ltdl.Reopen | bochs-2.6/ltdl.c:2888-2891 | reopening takes one reference of the module and no net reference on its dependencies |
| LibLtdl.Ltdl.TryDlopen | bochs-2.6/ltdl.c:2865-2947 | success adds one open of the module with the first file of that name some loader can open, listed under that file, with slots for its dependencies; failure, only when nothing is loadable, leaves the table as it was |
| LibLtdl.Ltdl.RunClient | bochs-2.6/ltdl.c:3334-3397 | after every run of opens and closes, counts = outstanding opens + slots, every module holds the slots of its dependencies, file names are unique, every listed file is one a loader can open, and every loadable module was opened |
| LibLtdl.BackedInsert | bochs-2.6/ltdl.c:2935-2947 | registering keeps every open module loaded from a file some loader can open, with its dependencies, the new one included |
| LibLtdl.BackedStays | bochs-2.6/ltdl.c:3358-3385 | so do counting and unlinking |
| LibLtdl.DependenciesOpen | bochs-2.6/ltdl.c:2469-2492 | while a module is open, so is every dependency of it that some loader can open |
| LibLtdl.Ltdl.CloseAll | bochs-2.6/ltdl.c:3334-3397 | closing all outstanding opens, in any order, empties the list |
| SearchPaths.CanonicalizePath | bochs-2.6/ltdl.c:2090-2150 | the loop computes the canonical form |
| SearchPaths.CanonicalSlashes | bochs-2.6/ltdl.c:2128-2139 | in it a slash is never followed by a slash, a separator or the end |
| SearchPaths.CanonicalByComponents | bochs-2.6/ltdl.c:2106-2143 | it is the squeezed components joined by separators, up to empty ones |
| SearchPaths.SplitListed | bochs-2.6/ltdl.c:2106-2127 | splitting only removes the separators: the components joined are the path, and none contains one |
| SearchPaths.SqueezeDoubled | bochs-2.6/ltdl.c:2128-2139 | a doubled slash counts as one and a slash at the end as none |
| SearchPaths.SqueezeFixed | bochs-2.6/ltdl.c:2128-2139 | a component stays as it is iff no slash in it is doubled or at the end |
| SearchPaths.SqueezedToNothing | bochs-2.6/ltdl.c:2128-2139 | a component leaves nothing if and only if all its characters are slashes |
| SearchPaths.CanonicalDirectories | bochs-2.6/ltdl.c:2106-2143 | it names the directories of the path other than the root, in the same order |
| SearchPaths.RootsLost | bochs-2.6/ltdl.c:2128-2139 | it names as many directories as the path if and only if no component consists of slashes only |
| SearchPaths.RootAlone | bochs-2.6/ltdl.c:2128-2139 | nothing is left of the path / |
| SearchPaths.CanonicalEmpty | bochs-2.6/ltdl.c:3524-3530 | the form is empty, which the caller excludes, if and only if no component has anything but slashes |
| SearchPaths.CanonicalAgain | bochs-2.6/ltdl.c:2090-2150 | canonicalising again changes nothing if and only if no slash-only component follows a real one |
| SearchPaths.RootInTheMiddle | bochs-2.6/ltdl.c:2108-2139 | the path a:/:b becomes a::b and then a:b |
| Argz.ArgzCreateSep | bochs-2.6/ltdl.c:471-523 | the copying loop and its shrinking length produce the vector |
| Argz.CreatedEntries | bochs-2.6/ltdl.c:471-523 | its entries are the non-empty components in order, and nothing else if and only if the string is not empty and does not end in the delimiter |
| Argz.ArgzNext | bochs-2.6/ltdl.c:596-629 | the position behind the terminator, or the end |
| Argz.Walk | bochs-2.6/ltdl.c:596-629 | stepping from the start enumerates the entries in order |
| Argz.ArgzStringify | bochs-2.6/ltdl.c:641-657 | every terminator but the last becomes the separator, in place; the accesses stay inside the vector iff it has two characters or more |
| Argz.JoinUndoesCreate | bochs-2.6/ltdl.c:471-657 | the vector can be joined iff there is text between the delimiters, and joining gives the string back iff it is not empty and has no leading and no doubled delimiter |
| Argz.EmptyVector | bochs-2.6/ltdl.c:489-513 | the empty string becomes a lone terminator |
| Argz.PathRoundTrip | bochs-2.6/ltdl.c:2090-2179 | for a canonical path without stray slashes the vector holds its directories and joins back to it |
| BiosSums.GetOffset | bochs-2.6/bios/biossums.c:334-352 | the next header behind an offset, never one in the first paragraph |
| BiosSums.CalcValue | bochs-2.6/bios/biossums.c:314-331 | the bounds checks, and the value that makes the table sum to zero |
| BiosSums.FixKind | bochs-2.6/bios/biossums.c:130-151 | one pass: fails on a bad header, corrects a single one, leaves several alone |
| BiosSums.FixBios | bochs-2.6/bios/biossums.c:130-255 | the five passes and the image checksum leave the image of the specification in the shared buffer |
| BiosSums.HeadersStable | bochs-2.6/bios/biossums.c:334-352 | a write outside the first four bytes of a paragraph neither creates nor destroys a signature |
| BiosSums.FixKeepsHeaders | bochs-2.6/bios/biossums.c:130-242 | no pass changes where the headers of any kind are |
| BiosSums.FixSums | bochs-2.6/bios/biossums.c:314-331 | the pass of a kind makes its table sum to zero |
| BiosSums.FixElsewhere | bochs-2.6/bios/biossums.c:130-242 | a pass of another kind does not spoil a table it does not write into |
| BiosSums.RunSums | bochs-2.6/bios/biossums.c:130-255 | at the end the image sums to zero and so does every table that is single, holds its checksum and is not overlapped |
| BiosTables.HeadersExactly | bochs-2.6/bios/biossums.c:334-352 | the headers found are exactly the paragraphs with the signature, from the second on |
| BiosTables.TableSums | bochs-2.6/bios/biossums.c:130-255 | a table that no other checksum is written into sums to zero in the end iff its header is found, is the only one of its kind and the table holds its checksum, or it summed to zero before |
| BiosLayout.LayoutRead | bochs-2.6/bios/biossums.c:41-89 | signature, length field, checksum index and header size of the five tables |
| BiosLayout.ExpectedSums | bochs-2.6/bios/biossums.c:314-331 | the checksum of a table makes its bytes sum to zero; of a table that ends before it, it is the negated sum |
| BiosLayout.TableCorrected | bochs-2.6/bios/biossums.c:130-255 | a table that is the only one of its kind, holds its checksum and gets no other sums to zero over the length its header gives, and only the checksum byte in it has changed |
| BiosLayout.OnlyLaterSpoil | bochs-2.6/bios/biossums.c:130-242 | a table can be spoilt only by the checksums of later passes: earlier ones may fall into it |
| BiosLayout.RunSucceeds | bochs-2.6/bios/biossums.c:130-255 | where no checksum falls into another header, the run succeeds iff every header lies in the image with its table and no MP table is extended |
| BiosTables.TwoHeaders | bochs-2.6/bios/biossums.c:222-240 | an image with two headers of a kind, whose sum stays wrong |
| BiosTables.FirstParagraph | bochs-2.6/bios/biossums.c:557-572 | an image with a header in paragraph 0, whose sum stays wrong |
| BiosTables.TooShort | bochs-2.6/bios/biossums.c:537-553 | an image with a table that ends before its checksum, whose sum stays wrong |
| BiosTables.RunKeepsHeaders | bochs-2.6/bios/biossums.c:130-255 | a run leaves the headers of every kind where they are |
| BiosTables.RunAgain | bochs-2.6/bios/biossums.c:130-255 | a second run changes nothing, if no checksum is written into another header and single tables hold their checksum and are not overlapped |
| BiosSums.RunWrites | bochs-2.6/bios/biossums.c:130-255 | no byte but a checksum of a single table and the last byte of the image changes |
| BiosSums.RunIdempotent | bochs-2.6/bios/biossums.c:244-254 | where all tables are in order the run leaves the image alone if and only if it sums to zero |

## Left out

- Conversion of microseconds to ticks by a floating-point rate (`register_timer`, `activate_timer`, `time_usec`): `usec` is a parameter of `TimeUsecSequential`.
- A20, TLB, reset, save and restore, the debugger's time breakpoint, `HRQ` and the interrupt lines.
- Times and periods of 2^63 ticks and more, and handlers that register, unregister or tick.
- Timer names and `this_ptr`: a handler is a number, a timer its slot.
- PcSystem.System.Unregister: the panic for an active timer is taken to return to the caller, as it does when the user continues.
- Port handshakes, `await_ide`, interrupts, controller initialisation, PIC, PIT and PCI code: the data port is a stream of bytes.
- HardDisk.Drive.AtaCmdDataIo: transfer counts of 256 and more are not modelled, because the count is masked before the loop reuses it; INT 13h asks for 128 at most.
- AtaPacket.AtaDriver.AtaCmdPacket: data-out requests and the length of the command are not modelled; transfers reach up to 1 MB, no further.
- Packet commands other than the READ of the emulated floppy, and the INT 13h functions not named above; function 04 of the emulated floppy only makes the checks of function 02.
- The boot catalogue parsing of El Torito: the start of the image and its geometry are parameters.
- The BIOS disk functions built without the ATA driver.
- INT 16h itself and the translation of scan codes: the ring is modelled from `enqueue_key` and `dequeue_key` on, and the INT 1Bh handler of Ctrl-Break is taken not to touch it.
- MousePackets.Mouse.Run: the packet size is fixed during a run and the handler is installed.
- `dlopen` and the other loader back ends, `.la` files, the mutex callbacks, error strings, resident modules and `lt_dlexit`; closing a loaded file is taken to succeed.
- LibLtdl.Ltdl.TryDlopen: the linked list is a sequence and the handle structures a map, since the code only searches, prepends and unlinks; the program's own handle (no file name) is not modelled.
- `argz_insert` and the ordered insertion into a path.
- Argz.ArgzStringify: the access outside a vector of fewer than two characters is where the model stops; what the code overwrites there is not modelled.
- A second directory separator besides the slash, as on Windows.
- Reading and writing the image file, padding, and the printed messages of `biossums`; a failed check ends the run as `Aborted`.
- Option parsing, logging, plugins and the rest of `main.cc`: string handling and user interface.
