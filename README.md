# Drive CPU control layer (VICE `drivecpu.c`) in Dafny

This project models the layer of VICE's emulated disk drives that sits
around the drive's 6502 interpreter, and proves properties of that model.
The layer covers:

- **Catching up with the main CPU** (`drivecpu_execute`). The wake-up
  heuristic may move `last_clk` forward. The owed main-CPU cycles are then
  turned into a drive `stop_clk` in chunks of at most 10000 cycles, through
  a 16.16 fixed-point accumulator `cycle_accum`. The drive then runs until
  its clock reaches `stop_clk`.
- **The bank cache** (`JUMP`, `drivecpu_set_bank_base`). This is a direct
  memory pointer plus the address window `[start, limit)` in which it may be
  used, refreshed from the 256-entry page tables.
- **The 6502 interrupt dispatch timing** (`interrupt_check_nmi_delay`,
  `interrupt_check_irq_delay`), which takes into account BRK, taken
  branches and opcodes that clear the I flag.
- **The ROM trap handler** and **jam resolution**: the name reported for a
  drive model, and what each operator choice does.
- **The resets**: `cpu_reset`, `drivecpu_reset`, `drivecpu_reset_clk` and
  `drivecpu_trigger_reset`. A pending monitor break survives them.
- **Saving and restoring the drive CPU in a snapshot module.** The fields
  go in a fixed order, followed by one RAM image per rule that the drive
  model meets.

Modules, in the order in which they build on each other:

- `DriveTypes` (drive_types.dfy): register widths, the drive models, and
  the jam name of each model.
- `ClockSync` (clock_sync.dfy): the wake-up test and the chunked
  fixed-point catch-up. The catch-up is a pure specification
  (`Accumulate` over `Chunks`), with its conservation, closed form and
  chunking-independence lemmas.
- `BankCache` (bank_cache.dfy): JUMP as a function on a cache value, and
  the coherence of the cache with the page tables.
- `Interrupts` (interrupts.dfy): the interrupt status reduced to the
  pending mask and the two line clocks; the reset helpers; the two delay
  checks.
- `Snapshot` (snapshot.dfy): the module as a stream of typed fields; the
  layout of the module; the encoding of the header; the RAM images per
  model; a writer class and a reader class that fail when the snapshot is
  full or the next field is missing or has another width.
- `DriveCpu` (drive_cpu.dfy): the class `DriveUnit`. Its fields are the
  drive clock, the registers, the CPU clocks, the bank cache, the
  interrupt status, the drive RAM (an `array`) and a log of the requests
  made of other components.
  - Each method is specified against `State()`, a value of type
    `UnitState`, or against a pure function of the old state.
  - The snapshot read is specified by `Undump`, and its partner lemmas
    prove the write/read round trip.

Five behaviours of drivecpu.c are easy to misread; the model follows the
code:

- **The bank cache after a snapshot read.** The read ends with
  `JUMP(reg_pc)`, and JUMP keeps a cached window that already covers the PC.
  So after a read the bank cache is `JumpCache(old cache, tables, pc)` and
  not a fresh look-up. `SnapshotRoundTrip` states exactly that.
- **A snapshot read that fails.** It does not leave the unit untouched.
  The unit has been reset, and every header field read before the failure is
  already stored in it. The registers are set only after the whole header
  was read. `UndumpShortHeader` and `HeaderRead` state this.
- **Two interrupt resets on a read.** A read resets the interrupt status
  twice: first as part of `drivecpu_reset`, which keeps the monitor break
  and latches a reset, then again before the interrupt records are read.
  The second reset discards both. `AfterHeader` states this.
- **RAM images.** The three model tests that choose the RAM images are
  independent of each other. A model may get the image of an old drive in
  addition to its 2 KiB or 8 KiB image. Every image is a prefix of the same
  RAM, so a round trip restores the RAM up to the largest image
  (`ReadImagesRoundTrip`).
- **A stale call of drivecpu_execute rewinds `last_clk`.** When
  `clk_value` is not past `last_clk`, no cycles are scheduled, but `last_clk`
  is still set to `clk_value` on exit (vice/src/drive/drivecpu.c:382-386 and
  448). So `last_clk` can move back, and the next call schedules that
  main-CPU interval a second time. `DriveUnit.Execute` states both halves:
  no cycles for a stale call, and `lastClk == clkValue` on exit.

## Model

| member | source | states |
|---|---|---|
| DriveTypes.SetOverflow | vice/src/drive/drivecpu.c:224-228 | V is set, every other status flag is kept, and setting it twice changes nothing |
| DriveTypes.DriveName | vice/src/drive/drivecpu.c:470-524 | the name of each model; the generic "  Drive" exactly for the models without a case (unknown models, 2000, 4000) |
| ClockSync.ClockSub | vice/src/drive/drivecpu.c:264 | the unsigned 64-bit difference of two CLOCK values: a - b modulo 2^64 |
| ClockSync.WakeUpLastClk | vice/src/drive/drivecpu.c:260-269 | last_clk becomes maincpu_clk only when the unsigned 64-bit gap exceeds 0xffffff and the drive clock exceeds 934639; otherwise it is unchanged; a main clock below last_clk counts as a huge gap unless it is within 2^24 of a wrap |
| ClockSync.WakeUpSettles | vice/src/drive/drivecpu.c:264-268 | a second wake-up test at the same clocks changes nothing |
| ClockSync.Step | vice/src/drive/drivecpu.c:392-394 | one chunk adds exactly sync_factor * tcycles to the accumulated time and leaves a fraction below 0x10000 |
| ClockSync.Chunks | vice/src/drive/drivecpu.c:388-391 | the chunks the loop cuts the owed cycles into: chunks of 10000 followed by the remainder, none when nothing is owed |
| ClockSync.Accumulate | vice/src/drive/drivecpu.c:388-395 | the accumulator after applying `Step` to each chunk in turn, from the first chunk to the last |
| ClockSync.ChunksCover | vice/src/drive/drivecpu.c:388-391 | the chunks sum to the owed cycles; each is non-empty and at most 10000; there are none exactly when nothing is owed |
| ClockSync.AccumulateConserves | vice/src/drive/drivecpu.c:388-395 | conservation: stop_clk*65536 + cycle_accum grows by exactly sync_factor per cycle and stop_clk never decreases; after at least one chunk the fraction is below 0x10000; with no chunks the accumulator is unchanged |
| ClockSync.Normalised | vice/src/drive/drivecpu.c:393-394 | a normalised accumulator is the quotient and remainder of its total |
| ClockSync.AccumulateClosedForm | vice/src/drive/drivecpu.c:388-395 | after at least one chunk, stop_clk and cycle_accum are the quotient and remainder by 65536 of the accumulated time |
| ClockSync.ChunkingIrrelevant | vice/src/drive/drivecpu.c:388-395 | any two non-empty chunkings of the same number of cycles give the same stop_clk and cycle_accum |
| ClockSync.AccumulateAppend | vice/src/drive/drivecpu.c:388-395 | converting chunks one after another equals converting their concatenation |
| ClockSync.CatchUpAdditive | vice/src/drive/drivecpu.c:382-395 | catching up n1 and then n2 cycles equals catching up n1 + n2 cycles, a stale second call included: no drift across calls |
| ClockSync.ScheduledCycles | vice/src/drive/drivecpu.c:388-395 | from an accumulator whose fraction is below 0x10000, N owed cycles at ratio sync schedule floor(sync*N/65536) drive cycles, or one more (a cycle_accum restored from a snapshot, vice/src/drive/drivecpu.c:654, need not meet this) |
| BankCache.Lookup | vice/src/drive/drivecpu.c:154-164 | the looked-up base is the page's entry; with a pointer, limit = limits & 0xffff and start = limits >> 16; without one, the window is empty |
| BankCache.JumpCache | vice/src/drive/drivecpu.c:150-166 | a target inside the cached window keeps the cache; any other target looks up the target's page |
| BankCache.NoPointerEmptiesWindow | vice/src/drive/drivecpu.c:157-164 | a page without a direct pointer empties the window, so the next JUMP, whatever its target, looks the tables up again |
| BankCache.JumpIdempotent | vice/src/drive/drivecpu.c:150-166 | a second JUMP to the same address changes nothing |
| BankCache.JumpSound | vice/src/drive/drivecpu.c:150-166 | with consistent tables, JUMP keeps the cache coherent; a window covering the target holds the target page's pointer; a page without a pointer is never inside the window |
| Interrupts.MonitorTrapOn | vice/src/drive/drivecpu.c:186-188 | a monitor break is latched; every other pending bit and both line clocks are kept |
| Interrupts.TriggerReset | vice/src/drive/drivecpu.c:214-215 | a reset is latched; every other pending bit and both line clocks are kept |
| Interrupts.TriggerResetIdempotent | vice/src/drive/drivecpu.c:219-222 | latching a reset that is already latched changes nothing |
| Interrupts.ResetKeepingMonitor | vice/src/drive/drivecpu.c:174-188 | the status is cleared, but a pending monitor break is kept |
| Interrupts.ResetStatus | vice/src/drive/drivecpu.c:206-215 | the status is cleared, the monitor break is kept and a reset is latched; nothing else is pending |
| Interrupts.BranchDelay | vice/src/drive/drivecpu.c:319-323 | one extra cycle of latency after an opcode that delays interrupts (a taken branch on its page), none otherwise; the IRQ check adds it in the same way at vice/src/drive/drivecpu.c:340-344 |
| Interrupts.NmiDispatchNow | vice/src/drive/drivecpu.c:308-330 | dispatch iff the last opcode is not BRK and cpu_clk >= nmi_clk + INTERRUPT_DELAY + (1 after a delaying branch) |
| Interrupts.NmiAfterBrk | vice/src/drive/drivecpu.c:313-317 | after BRK no NMI is dispatched, however late |
| Interrupts.NmiMonotone | vice/src/drive/drivecpu.c:325-329 | once due, an NMI stays due at every later cycle |
| Interrupts.NmiBranchShift | vice/src/drive/drivecpu.c:319-323 | a delaying branch shifts the NMI by exactly one cycle |
| Interrupts.IrqDelayCheck | vice/src/drive/drivecpu.c:335-356 | dispatch iff cpu_clk >= irq_clk + INTERRUPT_DELAY + (1 after a delaying branch) and the opcode does not enable IRQ; IK_IRQPEND is set iff the threshold is met and the opcode enables IRQ |
| Interrupts.IrqDispatchOrDefer | vice/src/drive/drivecpu.c:346-355 | the check changes no pending bit other than IK_IRQPEND and neither line clock, and it changes nothing when it dispatches |
| Interrupts.IrqCheckIdempotent | vice/src/drive/drivecpu.c:335-356 | repeating the check on the status it left gives the same answer and the same status |
| Snapshot.Readable | vice/src/drive/drivecpu.c:644-658 | a chain of reads gets no more fields than the module holds or the layout asks for |
| Snapshot.ReadablePrefix | vice/src/drive/drivecpu.c:644-658 | the fields a reader gets have the widths of the layout, and the first field it does not get has another width |
| Snapshot.ReadableConforming | vice/src/drive/drivecpu.c:644-658 | a reader gets every field of a stream that has the widths of its layout |
| Snapshot.ReadableAppend | vice/src/drive/drivecpu.c:644-711 | a layout read in two parts: the second part is read only when all of the first was |
| Snapshot.EncodeHeader | vice/src/drive/drivecpu.c:564-577 | the header written is thirteen fields |
| Snapshot.EncodeHeaderConforms | vice/src/drive/drivecpu.c:564-577 | each header field written has the width that the read at vice/src/drive/drivecpu.c:644-657 expects at its position |
| Snapshot.DecodeHeader | vice/src/drive/drivecpu.c:662-667 | the header values as read: the clock, then A, X, Y, SP, PC and status set into the registers, then last_opcode_info, the four CPU clocks and the data byte |
| Snapshot.DecodeEncodeHeader | vice/src/drive/drivecpu.c:645-667 | the header that is read back from a written header holds the same clocks, registers, last_opcode_info and data byte |
| Snapshot.ReadableHeader | vice/src/drive/drivecpu.c:644-658 | whatever part of a header a reader gets has the widths the read stores, and all of them once it got the whole header |
| Snapshot.HasRam2K | vice/src/drive/drivecpu.c:586-593 | the models whose 0x800-byte RAM image is saved: 1540, 1541, 1541-II, 1551, 1570, 1571, 1571CR and 2031 |
| Snapshot.HasRam8K | vice/src/drive/drivecpu.c:599-601 | the models whose 0x2000-byte RAM image is saved: 1581, 2000 and 4000 |
| Snapshot.RamSizes | vice/src/drive/drivecpu.c:586-610 | the RAM images written: each has size 0x800, 0x2000 or 0x1100 and fits the drive RAM; there are at most two |
| Snapshot.RamSizesChoice | vice/src/drive/drivecpu.c:586-610 | 0x800 exactly for 1540/1541/1541-II/1551/1570/1571/1571CR/2031, 0x2000 exactly for 1581/2000/4000, 0x1100 exactly for old drives, none otherwise |
| Snapshot.RamSizesOrder | vice/src/drive/drivecpu.c:586-610 | the 2 KiB image comes first, then the 8 KiB one, then the image of an old drive |
| Snapshot.RamImages | vice/src/drive/drivecpu.c:594-609 | each RAM image is the prefix of drive_ram of its size |
| Snapshot.Layout | vice/src/drive/drivecpu.c:644-711 | the order the read expects: the thirteen header fields, the interrupt record, the model's RAM images, the new interrupt record |
| Snapshot.Encode | vice/src/drive/drivecpu.c:564-614 | what the write produces: the encoded header followed by the encoded body |
| Snapshot.EncodeBody | vice/src/drive/drivecpu.c:582-614 | the fields after the header: the interrupt record, each of the model's RAM images, the new interrupt record |
| Snapshot.EncodeBodyConforms | vice/src/drive/drivecpu.c:582-614 | the fields written after the header have the widths that the reads at vice/src/drive/drivecpu.c:675-711 expect |
| Snapshot.EncodeConforms | vice/src/drive/drivecpu.c:564-614 | a written module has exactly the fields of the layout read at vice/src/drive/drivecpu.c:644-711, in order |
| Snapshot.EncodeShape | vice/src/drive/drivecpu.c:564-614 | the header, then the interrupt record, the RAM images and the new interrupt record, each at its position |
| Snapshot.Written | vice/src/drive/drivecpu.c:564-580 | the fields that get into `room` free places: a prefix of what is written, of length min(room, fields), all of it exactly when it fits |
| Snapshot.WrittenAppend | vice/src/drive/drivecpu.c:564-614 | writing a and then b is writing a + b; nothing of b is written once a did not fit |
| Snapshot.ModuleWriter.Write | vice/src/drive/drivecpu.c:565 | one SMW call: the field is appended exactly when there is room |
| Snapshot.ModuleWriter.WriteAll | vice/src/drive/drivecpu.c:564-580 | the `||` chain of writes puts the fields in, in order, until one fails; it succeeds exactly when all fit |
| Snapshot.ModuleWriter.Close | vice/src/drive/drivecpu.c:616 | closing reports the close result and keeps the fields |
| Snapshot.ModuleReader.ReadAll | vice/src/drive/drivecpu.c:644-658 | the `||` chain of reads gets the fields of the layout, in order, until one is missing or has another width |
| Snapshot.ModuleReader.Close | vice/src/drive/drivecpu.c:713 | closing reports the close result |
| DriveCpu.ResetState | vice/src/drive/drivecpu.c:199-216 | after drivecpu_reset, the clock, stop_clk and last_exc_cycles are 0, last_clk is the main clock, the monitor bit is kept and a reset is latched; registers, RAM and bank cache are unchanged |
| DriveCpu.LoadImage | vice/src/drive/drivecpu.c:687 | reading an image keeps the size of the RAM |
| DriveCpu.LoadImageAt | vice/src/drive/drivecpu.c:687 | an image replaces the start of the RAM and nothing else |
| DriveCpu.ReadImages | vice/src/drive/drivecpu.c:679-704 | the RAM reads keep the RAM size and read no more images than are asked for or present |
| DriveCpu.ReadImagesCount | vice/src/drive/drivecpu.c:679-704 | the RAM reads get exactly as far as a reader of the RAM layout |
| DriveCpu.ReadImagesRoundTrip | vice/src/drive/drivecpu.c:594-609 | reading the images of a RAM restores that RAM up to the largest image, and the rest of the reading unit's RAM is left alone (reads at vice/src/drive/drivecpu.c:687-703) |
| DriveCpu.ReadImagesAppend | vice/src/drive/drivecpu.c:679-704 | RAM reads in two parts: the second part runs only when all of the first succeeded |
| DriveCpu.UndumpHeader | vice/src/drive/drivecpu.c:645-657 | storing the header fields that were read directly into the unit changes no register, RAM, bank cache, interrupt status or request |
| DriveCpu.UndumpBody | vice/src/drive/drivecpu.c:675-711 | the reads after the header keep the registers, the RAM size and the requests |
| DriveCpu.UndumpRam | vice/src/drive/drivecpu.c:679-711 | the RAM reads, JUMP and the second interrupt record keep the registers, the RAM size and the requests |
| DriveCpu.UndumpTail | vice/src/drive/drivecpu.c:709-711 | reading the new interrupt record changes only the interrupt status; it succeeds exactly when the next field is that record, and the status becomes the record's; a failure changes nothing |
| DriveCpu.HeaderRead | vice/src/drive/drivecpu.c:641-660 | the reset and the header reads keep the registers, the RAM, the bank cache and the requests |
| DriveCpu.AfterHeader | vice/src/drive/drivecpu.c:662-673 | after a whole header the registers are the ones read, the interrupt status is cleared again (monitor break and latched reset discarded), the RAM and bank cache are unchanged and one drive reset is requested |
| DriveCpu.Undump | vice/src/drive/drivecpu.c:625-720 | a read of a module keeps the RAM size |
| DriveCpu.LayoutParts | vice/src/drive/drivecpu.c:644-711 | the whole layout is read exactly when the header, the interrupt record, every RAM image and the new interrupt record are, in order |
| DriveCpu.UndumpBodySucceeds | vice/src/drive/drivecpu.c:675-711 | the reads after the header succeed exactly when the interrupt record, every RAM image and the new interrupt record are found |
| DriveCpu.UndumpRamSucceeds | vice/src/drive/drivecpu.c:679-711 | the RAM stage succeeds exactly when every RAM image and then the new interrupt record are found |
| DriveCpu.UndumpRamCount | vice/src/drive/drivecpu.c:679-711 | the RAM stage succeeds exactly when all images were read and the new interrupt record follows |
| DriveCpu.UndumpSucceeds | vice/src/drive/drivecpu.c:644-719 | a read succeeds exactly when the module holds every field of the layout in order; every other case is a failure |
| DriveCpu.HeaderRoundTrip | vice/src/drive/drivecpu.c:564-577 | reading a written header restores every header field (reads at vice/src/drive/drivecpu.c:644-667) |
| DriveCpu.RamRoundTrip | vice/src/drive/drivecpu.c:594-614 | reading written RAM images and the new interrupt record restores them and refreshes the bank cache by JUMP to the PC (reads at vice/src/drive/drivecpu.c:679-711) |
| DriveCpu.BodyRoundTrip | vice/src/drive/drivecpu.c:582-614 | reading the written body restores the interrupt status and the RAM and refreshes the bank cache by JUMP, with no header field changed (reads at vice/src/drive/drivecpu.c:675-711) |
| DriveCpu.SnapshotRoundTrip | vice/src/drive/drivecpu.c:551-720 | reading what a unit wrote succeeds and restores its clock, registers, CPU clocks, interrupt status and RAM images; the bank cache is JUMP's refresh from the restored PC; one drive reset is requested |
| DriveCpu.UndumpShortHeader | vice/src/drive/drivecpu.c:641-660 | a read that fails inside the header fails, keeps registers, RAM and bank cache, and leaves the reset unit with exactly the header fields already read stored in it (the drive clock among them) |
| DriveCpu.DriveUnit.FastPathSound | vice/src/drive/drivecpu.c:150-166 | whenever the cached window covers an address, the cached pointer is that address's page pointer |
| DriveCpu.DriveUnit.Jump | vice/src/drive/drivecpu.c:150-166 | JUMP sets the PC and the cache to JumpCache of the old cache; coherence is kept |
| DriveCpu.DriveUnit.SetBankBase | vice/src/drive/drivecpu.c:455-464 | JUMP to the current PC: only the bank cache changes |
| DriveCpu.DriveUnit.SetOverflowFlag | vice/src/drive/drivecpu.c:224-228 | only the status byte changes, to SetOverflow of the old one |
| DriveCpu.DriveUnit.WakeUp | vice/src/drive/drivecpu.c:260-269 | only last_clk changes, to WakeUpLastClk |
| DriveCpu.DriveUnit.ScheduleCycles | vice/src/drive/drivecpu.c:388-395 | the chunk loop leaves (stop_clk, cycle_accum) = Accumulate over Chunks(cycles); with no cycles nothing changes; otherwise the total grows by sync_factor * cycles and the fraction is below 0x10000 |
| DriveCpu.DriveUnit.RunToStop | vice/src/drive/drivecpu.c:397-446 | the run loop ends with the clock at or past stop_clk and does nothing when the clock is already there; over an interpreter that only moves the clock forward, the clock never moves back (the `cpu_reset` hook is not part of the loop model) |
| DriveCpu.DriveUnit.Execute | vice/src/drive/drivecpu.c:361-450 | wake-up, then cycles = clk_value - last_clk or 0 for a stale call, conservation of the accumulator, the clock at or past stop_clk, and last_clk = clk_value on exit |
| DriveCpu.DriveUnit.TrapHandler | vice/src/drive/drivecpu.c:277-295 | at the trap address (as 16 bits): returns 0, the PC moves to the continuation and, when idling by trap, the clock becomes min(next alarm, stop_clk); elsewhere returns 0xffffffff and changes nothing |
| DriveCpu.DriveUnit.Jam | vice/src/drive/drivecpu.c:467-544 | the prompt holds the model's name, the unit number + 8 and the PC; reset or power cycle: PC = 0xeaa0, bank cache refreshed, one matching reset requested; monitor: only the monitor start requested; any other answer: only the clock advances, by 1 |
| DriveCpu.DriveUnit.CpuReset | vice/src/drive/drivecpu.c:170-189 | the status is cleared except the monitor break, the clock is 6, both rotations and the drive are reset; nothing else changes |
| DriveCpu.DriveUnit.ResetClk | vice/src/drive/drivecpu.c:191-196 | last_clk = main clock, last_exc_cycles = stop_clk = 0, nothing else changes |
| DriveCpu.DriveUnit.Reset | vice/src/drive/drivecpu.c:199-216 | the new state is ResetState of the old one |
| DriveCpu.DriveUnit.TriggerResetRequest | vice/src/drive/drivecpu.c:219-222 | a reset is latched and nothing else changes |
| DriveCpu.DriveUnit.SnapshotWriteModule | vice/src/drive/drivecpu.c:551-623 | a failed create returns -1; otherwise the module gets the encoded fields up to the first that does not fit and is closed; the result is the close result if all fitted, -1 otherwise |
| DriveCpu.DriveUnit.WriteFields | vice/src/drive/drivecpu.c:564-614 | the writes put in the encoding of the unit up to the first that fails, and succeed exactly when all fit |
| DriveCpu.DriveUnit.WriteBody | vice/src/drive/drivecpu.c:582-614 | the interrupt record, the RAM images and the new interrupt record go in until one fails |
| DriveCpu.DriveUnit.WriteRam | vice/src/drive/drivecpu.c:586-610 | each RAM image of the model is written in turn, stopping at the first that does not fit |
| DriveCpu.DriveUnit.RestoreHeader | vice/src/drive/drivecpu.c:645-657 | the fields read directly into the unit are stored; the state becomes UndumpHeader of the old state |
| DriveCpu.DriveUnit.ReadRamImage | vice/src/drive/drivecpu.c:687 | SMR_BA reads an image of the asked size into the start of the drive RAM, or fails and changes nothing |
| DriveCpu.DriveUnit.ReadRamPart | vice/src/drive/drivecpu.c:679-704 | one RAM image is read when the model calls for it |
| DriveCpu.DriveUnit.ReadRam | vice/src/drive/drivecpu.c:679-704 | the RAM images are read in order until one fails; the RAM becomes ReadImages of the old RAM |
| DriveCpu.DriveUnit.SnapshotReadModule | vice/src/drive/drivecpu.c:625-720 | a failed open returns -1 and changes nothing; otherwise the state becomes Undump of the old state, the module is closed and the result is the close result exactly when every read succeeded, -1 otherwise |
| DriveCpu.DriveUnit.ReadHeader | vice/src/drive/drivecpu.c:640-673 | reset, then the header reads; succeeds exactly when the whole header is read, and the state is HeaderRead or AfterHeader |
| DriveCpu.DriveUnit.ReadBody | vice/src/drive/drivecpu.c:675-711 | the reads after the header; the state becomes UndumpBody |
| DriveCpu.DriveUnit.ReadRamAndTail | vice/src/drive/drivecpu.c:679-711 | the RAM reads, JUMP and the new interrupt record; the state becomes UndumpRam |
| DriveCpu.DriveUnit.ReadTail | vice/src/drive/drivecpu.c:709-711 | the new interrupt record; the state becomes UndumpTail |

## Left out

- The instruction interpreter (6510core.c, included at vice/src/drive/drivecpu.c:445) is not part of this model. In the run loop, each instruction is a caller-supplied positive cycle count.
- DriveUnit.RunToStop: only the loop condition is modelled, over an interpreter that only moves the clock forward. What the interpreter does to registers, memory and interrupts inside the loop is not modelled. Nor are the hooks it calls from inside the loop: the jams, the ROM traps and the `cpu_reset` hook (vice/src/drive/drivecpu.c:440). `Jam`, `TrapHandler` and `CpuReset` are modelled as operations of their own. `cpu_reset` sets the drive clock to 6 when a latched reset is taken, so in the program the drive clock can move back within one call of drivecpu_execute. The monotone clock in the contracts of `RunToStop` and `Execute` holds only for the abstraction.
- DriveUnit.Execute: `sync_factor * tcycles`, `cycle_accum`, `stop_clk` and the clocks are unbounded. A 64-bit wrap-around of these additions cannot happen at realistic clock values and is not modelled. The wake-up difference is modelled modulo 2^64.
- Three facts from `last_opcode_info` are OPINFO_NUMBER, OPINFO_DELAYS_INTERRUPT and OPINFO_ENABLES_IRQ. The model takes them as an `OpInfo` value, because the bit layout of the field is defined outside this file.
- INTERRUPT_DELAY, drive_check_old, sync_factor and the page tables read_base_tab_ptr and read_limit_tab_ptr are parameters or constants of the unit, because their definitions are outside this file.
- DriveUnit.constructor: the page tables are assumed consistent (`Consistent`): every address inside a page's window lies in a page with the same direct pointer. drivemem.c builds the tables and is not part of this model. The coherence guarantees of `Jump`, `FastPathSound` and `JumpSound` rest on this assumption.
- The interrupt status record of interrupt.c is reduced to the pending mask and the NMI and IRQ clocks.
  - Each interrupt snapshot sub-record is one field carrying that value.
  - The IK_* bit values are taken as distinct single bits.
- DriveUnit.TriggerResetRequest: the clock argument (`diskunit_clk + 1`) passed to interrupt_trigger_reset is not kept, because the record that would store it is not modelled. The same holds for the clock passed at vice/src/drive/drivecpu.c:215.
- The byte encoding of the snapshot library (SMW_*, SMR_*) is not part of this model. A module is a sequence of typed fields. A read fails when the next field is missing or of another width, as a read past the end of the module does.
- snapshot_module_create and snapshot_module_open are given as a module or null. The result of snapshot_module_close is an opaque value of the module. The module name and the version numbers SNAP_MAJOR and SNAP_MINOR (1.3) belong to the module header, which is not modelled. The read fetches the version but never checks it, so no version policy is modelled.
- Logging (log_message) and the UI reset display (ui_display_reset, vice/src/drive/drivecpu.c:176-177) are dropped. rotation_reset, machine_drive_reset, machine_trigger_reset and monitor_startup are external collaborators. They appear only as `Request` entries that the unit appends in order. The operator's answer to drive_jam is a parameter, and so is the next pending alarm clock.
- drivecpu_setup_context, drivecpu_init, drivecpu_shutdown, drivecpu_sleep and the monitor interface are not modelled, because they are allocation and wiring. The constructor of `DriveUnit` stands for the zero-filled context.
- The main-CPU lock and any concurrency are not modelled.
- The register file is the six values a snapshot holds, with the status as one packed byte. The interpreter's separate N and Z flags are not modelled.
