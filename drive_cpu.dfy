/** The control layer around the drive CPU's interpreter: catching up with the
    main CPU, the bank cache refresh, the ROM trap, jam resolution, resets,
    and saving and restoring the CPU in a snapshot.

    The instruction interpreter is not part of this model. Where the run loop
    calls it, the model only advances the drive clock by a positive number of
    cycles per instruction. */
module DriveCpu {
  import opened DriveTypes
  import opened ClockSync
  import opened BankCache
  import opened Interrupts
  import opened Snapshot

  /** The reset modes of machine_trigger_reset this core asks for. */
  datatype ResetMode = ResetModeCpu | ResetModePowerCycle

  /** Requests this core makes of its collaborators, recorded in order. */
  datatype Request =
    | RotationReset(drive: nat)                // rotation_reset(drv->drives[drive])
    | MachineDriveReset                        // machine_drive_reset(drv)
    | MachineTriggerReset(mode: ResetMode)     // machine_trigger_reset(mode)
    | MonitorStartup                           // monitor_startup(monspace)

  /** The operator's answer to a jam, as drive_jam returns it; every value
      other than the three named ones is JamOther. */
  datatype JamChoice = JamResetCpu | JamPowerCycle | JamMonitor | JamOther(code: nat)

  /** What the jam message reports: the drive name, the unit number and the PC. */
  datatype JamPrompt = JamPrompt(name: string, unit: nat, pc: Word)

  /** The ROM entry a jammed drive restarts at. */
  const JAM_RESET_PC: Word := 0xeaa0

  /** The drive clock cpu_reset restarts from. */
  const CPU_RESET_CLK: nat := 6

  /** The two results of drive_trap_handler. */
  const TRAP_HANDLED: nat := 0
  const TRAP_NOT_HANDLED: nat := 0xffff_ffff

  /** The state of one drive unit that this core reads and writes. */
  datatype UnitState = UnitState(
    clk: nat, regs: Regs, opInfo: bv32, lastClk: nat, stopClk: nat,
    cycleAccum: nat, lastExcCycles: nat, lastData: byte, bank: Cache,
    ints: IntStatus, ram: seq<byte>, requests: seq<Request>)

  /** The header fields a snapshot of `s` starts with. */
  function HeaderOf(s: UnitState): Header
  {
    Header(s.clk, s.regs, s.opInfo, s.lastClk, s.cycleAccum, s.lastExcCycles, s.stopClk, s.lastData)
  }

  /** drivecpu_reset: the drive clock and the stop clock go to zero, last_clk
      to the main clock, and the interrupt status is reset with the monitor
      break kept and a reset latched. Registers, RAM and the bank cache stay. */
  function ResetState(s: UnitState, mainClk: nat): (r: UnitState)
    ensures r.ints.pending & IK_MONITOR == s.ints.pending & IK_MONITOR
    ensures r.ints.pending & IK_RESET == IK_RESET
    ensures r.clk == 0 && r.stopClk == 0 && r.lastExcCycles == 0 && r.lastClk == mainClk
    ensures r.regs == s.regs && r.ram == s.ram && r.bank == s.bank && r.requests == s.requests
    ensures r.opInfo == s.opInfo && r.cycleAccum == s.cycleAccum && r.lastData == s.lastData
  {
    s.(clk := 0, lastClk := mainClk, lastExcCycles := 0, stopClk := 0, ints := ResetStatus(s.ints))
  }

  /** RAM after SMR_BA has read one image into its start. */
  function LoadImage(ram: seq<byte>, image: seq<byte>): (r: seq<byte>)
    requires |image| <= |ram|
    ensures |r| == |ram|
  {
    image + ram[|image|..]
  }

  /** The image replaces the start of the RAM and nothing else. */
  lemma LoadImageAt(ram: seq<byte>, image: seq<byte>)
    requires |image| <= |ram|
    ensures forall i :: 0 <= i < |ram| ==>
      LoadImage(ram, image)[i] == if i < |image| then image[i] else ram[i]
  {
  }

  /** The RAM stage of a read: the images of `sizes` are read in turn from
      `fs` until one is missing or has another size. The result is the RAM and
      the number of images read. */
  function ReadImages(ram: seq<byte>, fs: seq<Field>, sizes: seq<nat>): (r: (seq<byte>, nat))
    requires forall i :: 0 <= i < |sizes| ==> sizes[i] <= |ram|
    ensures |r.0| == |ram| && r.1 <= |sizes| && r.1 <= |fs|
    decreases |fs|
  {
    if sizes == [] || fs == [] || KindOf(fs[0]) != KBytes(sizes[0]) then (ram, 0)
    else
      var rest := ReadImages(LoadImage(ram, fs[0].bytes), fs[1..], sizes[1..]);
      (rest.0, rest.1 + 1)
  }

  /** The RAM stage gets exactly as far as a reader of the RAM layout. */
  lemma {:induction false} ReadImagesCount(ram: seq<byte>, fs: seq<Field>, sizes: seq<nat>)
    requires forall i :: 0 <= i < |sizes| ==> sizes[i] <= |ram|
    ensures ReadImages(ram, fs, sizes).1 == Readable(fs, RamKinds(sizes))
    decreases |sizes|
  {
    if sizes != [] && fs != [] && KindOf(fs[0]) == KBytes(sizes[0]) {
      assert RamKinds(sizes)[1..] == RamKinds(sizes[1..]);
      ReadImagesCount(LoadImage(ram, fs[0].bytes), fs[1..], sizes[1..]);
    }
  }

  function MaxSize(sizes: seq<nat>): nat
  {
    if sizes == [] then 0
    else var m := MaxSize(sizes[1..]); if sizes[0] > m then sizes[0] else m
  }

  /** Reading the images a unit wrote of its own RAM restores that RAM up to
      the largest image and leaves the rest of the reading unit's RAM alone. */
  lemma {:induction false} ReadImagesRoundTrip(into: seq<byte>, ram: seq<byte>, sizes: seq<nat>, rest: seq<Field>)
    requires |into| == |ram| && forall i :: 0 <= i < |sizes| ==> sizes[i] <= |ram|
    ensures MaxSize(sizes) <= |ram|
    ensures var r := ReadImages(into, RamImages(ram, sizes) + rest, sizes);
            r.1 == |sizes| &&
            forall i :: 0 <= i < |ram| ==> r.0[i] == if i < MaxSize(sizes) then ram[i] else into[i]
    decreases |sizes|
  {
    if sizes != [] {
      var fs := RamImages(ram, sizes) + rest;
      assert fs[0] == FBytes(ram[..sizes[0]]);
      assert fs[1..] == RamImages(ram, sizes[1..]) + rest;
      LoadImageAt(into, ram[..sizes[0]]);
      ReadImagesRoundTrip(LoadImage(into, ram[..sizes[0]]), ram, sizes[1..], rest);
    }
  }

  /** The header fields that the reads of `hs` restored directly, applied to
      `r`: the drive clock, last_opcode_info and the CPU clocks are read
      straight into the unit, one by one. The registers go through locals
      and are not part of this. */
  function UndumpHeader(r: UnitState, hs: seq<Field>): (u: UnitState)
    requires PrefixShaped(hs)
    ensures u.regs == r.regs && u.ram == r.ram && u.bank == r.bank && u.ints == r.ints
    ensures u.requests == r.requests
  {
    var k := |hs|;
    r.(clk := if k > 0 then hs[0].clock else r.clk,
       opInfo := if k > 7 then hs[7].d else r.opInfo,
       lastClk := if k > 8 then hs[8].clock else r.lastClk,
       cycleAccum := if k > 9 then hs[9].clock else r.cycleAccum,
       lastExcCycles := if k > 10 then hs[10].clock else r.lastExcCycles,
       stopClk := if k > 11 then hs[11].clock else r.stopClk,
       lastData := if k > 12 then hs[12].b else r.lastData)
  }

  /** ReadImages on a list of sizes in two parts: the second part is read
      only when every image of the first part was. */
  lemma {:induction false} ReadImagesAppend(ram: seq<byte>, fs: seq<Field>, a: seq<nat>, b: seq<nat>)
    requires forall i :: 0 <= i < |a| ==> a[i] <= |ram|
    requires forall i :: 0 <= i < |b| ==> b[i] <= |ram|
    ensures forall i :: 0 <= i < |a + b| ==> (a + b)[i] <= |ram|
    ensures var r := ReadImages(ram, fs, a);
            ReadImages(ram, fs, a + b) ==
              if r.1 < |a| then r
              else (ReadImages(r.0, fs[|a|..], b).0, |a| + ReadImages(r.0, fs[|a|..], b).1)
    decreases |a|
  {
    assert forall i :: 0 <= i < |a + b| ==> (a + b)[i] == if i < |a| then a[i] else b[i - |a|];
    if a == [] {
      assert a + b == b;
    } else if fs != [] && KindOf(fs[0]) == KBytes(a[0]) {
      assert (a + b)[1..] == a[1..] + b;
      ReadImagesAppend(LoadImage(ram, fs[0].bytes), fs[1..], a[1..], b);
      var r := ReadImages(LoadImage(ram, fs[0].bytes), fs[1..], a[1..]);
      if r.1 == |a| - 1 {
        assert fs[1..][|a| - 1..] == fs[|a|..];
      }
    }
  }

  /** The stage of a read that follows a complete header: the interrupt
      record from `f1[0]`, then the RAM images, the bank cache refresh from
      the PC of `u` and the second interrupt record. */
  function UndumpBody(u: UnitState, t: DriveType, isOld: bool, tabs: Tables, f1: seq<Field>): (res: (UnitState, bool))
    requires TablesValid(tabs) && |u.ram| >= DRIVE_RAM_SIZE
    ensures |res.0.ram| == |u.ram| && res.0.regs == u.regs && res.0.requests == u.requests
  {
    if f1 == [] || KindOf(f1[0]) != KInterrupts then (u, false)
    else UndumpRam(u.(ints := f1[0].st), t, isOld, tabs, f1[1..])
  }

  /** The RAM images of the model read from `f2`; once all were read, the
      bank cache is refreshed from the PC and the new interrupt record read. */
  function UndumpRam(v: UnitState, t: DriveType, isOld: bool, tabs: Tables, f2: seq<Field>): (res: (UnitState, bool))
    requires TablesValid(tabs) && |v.ram| >= DRIVE_RAM_SIZE
    ensures |res.0.ram| == |v.ram| && res.0.regs == v.regs && res.0.requests == v.requests
  {
    var images := ReadImages(v.ram, f2, RamSizes(t, isOld));
    if images.1 < |RamSizes(t, isOld)| then (v.(ram := images.0), false)
    else UndumpTail(v.(ram := images.0, bank := JumpCache(v.bank, tabs, v.regs.pc)), f2[images.1..])
  }

  /** The interrupt record added after the original format, read from `f3`. */
  function UndumpTail(x: UnitState, f3: seq<Field>): (res: (UnitState, bool))
    ensures res.0 == x.(ints := res.0.ints)
    ensures res.1 <==> f3 != [] && KindOf(f3[0]) == KInterruptsNew
    ensures res.1 ==> res.0.ints == f3[0].st
    ensures !res.1 ==> res.0 == x
  {
    if f3 == [] || KindOf(f3[0]) != KInterruptsNew then (x, false)
    else (x.(ints := f3[0].st), true)
  }

  /** The unit after the reset and the header reads of
      drivecpu_snapshot_read_module: every header field read so far is
      restored into the reset unit `s`. */
  function HeaderRead(s: UnitState, fs: seq<Field>, mainClk: nat): (h: UnitState)
    ensures h.regs == s.regs && h.ram == s.ram && h.bank == s.bank && h.requests == s.requests
  {
    var hk := Readable(fs, HEADER_LAYOUT);
    ReadableHeader(fs);
    UndumpHeader(ResetState(s, mainClk), fs[..hk])
  }

  /** The unit once the whole header was read: the registers are set, the
      interrupt status is reset again and the drive's peripherals are reset. */
  function AfterHeader(s: UnitState, fs: seq<Field>, mainClk: nat): (u: UnitState)
    requires Readable(fs, HEADER_LAYOUT) == INT_POS
    ensures u.ram == s.ram && u.bank == s.bank && u.requests == s.requests + [MachineDriveReset]
    ensures u.ints == ClearedStatus
    ensures HeaderShaped(fs[..INT_POS]) && u.regs == DecodeHeader(fs[..INT_POS]).regs
  {
    ReadableHeader(fs);
    var h := HeaderRead(s, fs, mainClk);
    h.(regs := DecodeHeader(fs[..INT_POS]).regs, ints := ClearedStatus, requests := h.requests + [MachineDriveReset])
  }

  /** drivecpu_snapshot_read_module on an opened module holding `fs`: the
      state it leaves in a unit that was in state `s`, and whether every read
      succeeded. A read that stops inside the header keeps the header fields
      it got; after a whole header the rest of the module is read. */
  function Undump(s: UnitState, t: DriveType, isOld: bool, tabs: Tables, fs: seq<Field>, mainClk: nat): (res: (UnitState, bool))
    requires TablesValid(tabs) && |s.ram| >= DRIVE_RAM_SIZE
    ensures |res.0.ram| == |s.ram|
  {
    if Readable(fs, HEADER_LAYOUT) < INT_POS then (HeaderRead(s, fs, mainClk), false)
    else UndumpBody(AfterHeader(s, fs, mainClk), t, isOld, tabs, fs[INT_POS..])
  }

  /** A read gets its interrupt record exactly when a reader of that one
      field gets it. */
  lemma ReadableOne(fs: seq<Field>, k: Kind)
    ensures Readable(fs, [k]) == if fs == [] || KindOf(fs[0]) != k then 0 else 1
  {
    if fs != [] && KindOf(fs[0]) == k {
      assert [k][1..] == [];
    }
  }

  /** A module holds the whole layout exactly when it holds, in order, a
      whole header, an interrupt record, every RAM image and a new interrupt
      record. */
  lemma LayoutParts(fs: seq<Field>, t: DriveType, isOld: bool)
    ensures var n := |RamSizes(t, isOld)|;
            Readable(fs, Layout(t, isOld)) == |Layout(t, isOld)| <==>
              Readable(fs, HEADER_LAYOUT) == INT_POS && |fs| > INT_POS &&
              KindOf(fs[INT_POS]) == KInterrupts &&
              Readable(fs[RAM_POS..], RamKinds(RamSizes(t, isOld))) == n &&
              |fs| > RAM_POS + n && KindOf(fs[RAM_POS + n]) == KInterruptsNew
  {
    var sizes := RamSizes(t, isOld);
    var n := |sizes|;
    var l1 := HEADER_LAYOUT + [KInterrupts];
    var l2 := l1 + RamKinds(sizes);
    assert Layout(t, isOld) == l2 + [KInterruptsNew];
    ReadableAppend(fs, HEADER_LAYOUT, [KInterrupts]);
    ReadableAppend(fs, l1, RamKinds(sizes));
    ReadableAppend(fs, l2, [KInterruptsNew]);
    if Readable(fs, HEADER_LAYOUT) == INT_POS {
      ReadableOne(fs[INT_POS..], KInterrupts);
    }
    if Readable(fs, l2) == |l2| {
      ReadableOne(fs[|l2|..], KInterruptsNew);
    }
  }

  /** The part after the header succeeds exactly when it finds the interrupt
      record, every RAM image and the new interrupt record. */
  lemma UndumpBodySucceeds(u: UnitState, t: DriveType, isOld: bool, tabs: Tables, f1: seq<Field>)
    requires TablesValid(tabs) && |u.ram| >= DRIVE_RAM_SIZE
    ensures var n := |RamSizes(t, isOld)|;
            UndumpBody(u, t, isOld, tabs, f1).1 <==>
              f1 != [] && KindOf(f1[0]) == KInterrupts &&
              Readable(f1[1..], RamKinds(RamSizes(t, isOld))) == n &&
              |f1| > 1 + n && KindOf(f1[1 + n]) == KInterruptsNew
  {
    if f1 != [] && KindOf(f1[0]) == KInterrupts {
      UndumpRamSucceeds(u.(ints := f1[0].st), t, isOld, tabs, f1[1..]);
    }
  }

  /** The RAM stage succeeds exactly when it finds every RAM image and then
      the new interrupt record. */
  lemma UndumpRamSucceeds(v: UnitState, t: DriveType, isOld: bool, tabs: Tables, f2: seq<Field>)
    requires TablesValid(tabs) && |v.ram| >= DRIVE_RAM_SIZE
    ensures var n := |RamSizes(t, isOld)|;
            UndumpRam(v, t, isOld, tabs, f2).1 <==>
              Readable(f2, RamKinds(RamSizes(t, isOld))) == n &&
              |f2| > n && KindOf(f2[n]) == KInterruptsNew
  {
    ReadImagesCount(v.ram, f2, RamSizes(t, isOld));
    UndumpRamCount(v, t, isOld, tabs, f2);
  }

  lemma UndumpRamCount(v: UnitState, t: DriveType, isOld: bool, tabs: Tables, f2: seq<Field>)
    requires TablesValid(tabs) && |v.ram| >= DRIVE_RAM_SIZE
    ensures var n := |RamSizes(t, isOld)|;
            UndumpRam(v, t, isOld, tabs, f2).1 <==>
              ReadImages(v.ram, f2, RamSizes(t, isOld)).1 == n &&
              |f2| > n && KindOf(f2[n]) == KInterruptsNew
  {
  }

  /** A read succeeds exactly when the module holds every field of the
      model's layout, each of the expected width. */
  lemma UndumpSucceeds(s: UnitState, t: DriveType, isOld: bool, tabs: Tables, fs: seq<Field>, mainClk: nat)
    requires TablesValid(tabs) && |s.ram| >= DRIVE_RAM_SIZE
    ensures Undump(s, t, isOld, tabs, fs, mainClk).1 <==>
            Readable(fs, Layout(t, isOld)) == |Layout(t, isOld)|
  {
    LayoutParts(fs, t, isOld);
    if Readable(fs, HEADER_LAYOUT) == INT_POS {
      var f1 := fs[INT_POS..];
      UndumpBodySucceeds(AfterHeader(s, fs, mainClk), t, isOld, tabs, f1);
      if f1 != [] {
        assert f1[1..] == fs[RAM_POS..];
      }
    }
  }

  /** Reading a header a unit in state `s` wrote restores its header fields,
      whatever follows the header. */
  lemma HeaderRoundTrip(s: UnitState, into: UnitState, f1: seq<Field>, mainClk: nat)
    ensures var fs := EncodeHeader(HeaderOf(s)) + f1;
            Readable(fs, HEADER_LAYOUT) == INT_POS &&
            HeaderOf(AfterHeader(into, fs, mainClk)) == HeaderOf(s)
  {
    var h := EncodeHeader(HeaderOf(s));
    var fs := h + f1;
    EncodeHeaderConforms(HeaderOf(s));
    ReadableConforming(h, f1, HEADER_LAYOUT);
    assert fs[..INT_POS] == h;
    DecodeEncodeHeader(HeaderOf(s));
  }

  /** Reading the RAM images and the new interrupt record that a unit in
      state `s` wrote restores them and refreshes the bank cache from the PC. */
  lemma RamRoundTrip(s: UnitState, v: UnitState, t: DriveType, isOld: bool, tabs: Tables, rest: seq<Field>)
    requires TablesValid(tabs) && |s.ram| >= DRIVE_RAM_SIZE && |v.ram| == |s.ram|
    ensures var f2 := RamImages(s.ram, RamSizes(t, isOld)) + ([FInterruptsNew(s.ints)] + rest);
            var res := UndumpRam(v, t, isOld, tabs, f2);
            var r := res.0;
            res.1 && r == v.(ram := r.ram, bank := JumpCache(v.bank, tabs, v.regs.pc), ints := s.ints) &&
            MaxSize(RamSizes(t, isOld)) <= |s.ram| &&
            (forall i :: 0 <= i < |s.ram| ==>
               r.ram[i] == if i < MaxSize(RamSizes(t, isOld)) then s.ram[i] else v.ram[i])
  {
    var sizes := RamSizes(t, isOld);
    var tail := [FInterruptsNew(s.ints)] + rest;
    ReadImagesRoundTrip(v.ram, s.ram, sizes, tail);
    assert (RamImages(s.ram, sizes) + tail)[|sizes|..] == tail;
  }

  /** Reading the part after the header that a unit in state `s` wrote
      succeeds, restores the interrupt status and the RAM images, refreshes
      the bank cache from the PC and changes no header field. */
  lemma BodyRoundTrip(s: UnitState, u: UnitState, t: DriveType, isOld: bool, tabs: Tables, rest: seq<Field>)
    requires TablesValid(tabs) && |s.ram| >= DRIVE_RAM_SIZE && |u.ram| == |s.ram|
    ensures var f1 := [FInterrupts(s.ints)] + RamImages(s.ram, RamSizes(t, isOld)) + ([FInterruptsNew(s.ints)] + rest);
            var res := UndumpBody(u, t, isOld, tabs, f1);
            var r := res.0;
            res.1 && HeaderOf(r) == HeaderOf(u) && r.ints == s.ints &&
            r.bank == JumpCache(u.bank, tabs, u.regs.pc) && r.requests == u.requests &&
            MaxSize(RamSizes(t, isOld)) <= |s.ram| &&
            (forall i :: 0 <= i < |s.ram| ==>
               r.ram[i] == if i < MaxSize(RamSizes(t, isOld)) then s.ram[i] else u.ram[i])
  {
    var images := RamImages(s.ram, RamSizes(t, isOld));
    var tail := [FInterruptsNew(s.ints)] + rest;
    var f1 := [FInterrupts(s.ints)] + images + tail;
    var v := u.(ints := s.ints);
    assert f1[0] == FInterrupts(s.ints) && f1[1..] == images + tail;
    assert UndumpBody(u, t, isOld, tabs, f1) == UndumpRam(v, t, isOld, tabs, images + tail);
    RamRoundTrip(s, v, t, isOld, tabs, rest);
    var r := UndumpRam(v, t, isOld, tabs, images + tail).0;
    assert r == v.(ram := r.ram, bank := JumpCache(v.bank, tabs, v.regs.pc), ints := s.ints);
    assert HeaderOf(r) == HeaderOf(u);
  }

  /** Snapshot round trip: reading what a unit in state `s` wrote, into any
      unit of the same model, succeeds and restores the drive clock, the
      registers, the CPU clocks, the interrupt status and the RAM images;
      the bank cache is refreshed from the restored PC. */
  lemma SnapshotRoundTrip(s: UnitState, into: UnitState, t: DriveType, isOld: bool,
                          tabs: Tables, mainClk: nat, rest: seq<Field>)
    requires TablesValid(tabs) && |s.ram| >= DRIVE_RAM_SIZE && |into.ram| == |s.ram|
    ensures var res := Undump(into, t, isOld, tabs, Encode(HeaderOf(s), s.ints, s.ram, t, isOld) + rest, mainClk);
            var r := res.0;
            res.1 &&
            HeaderOf(r) == HeaderOf(s) && r.ints == s.ints &&
            r.bank == JumpCache(into.bank, tabs, s.regs.pc) &&
            r.requests == into.requests + [MachineDriveReset] &&
            MaxSize(RamSizes(t, isOld)) <= |s.ram| &&
            (forall i :: 0 <= i < |s.ram| ==>
               r.ram[i] == if i < MaxSize(RamSizes(t, isOld)) then s.ram[i] else into.ram[i])
  {
    var h := EncodeHeader(HeaderOf(s));
    var f1 := [FInterrupts(s.ints)] + RamImages(s.ram, RamSizes(t, isOld)) + ([FInterruptsNew(s.ints)] + rest);
    var fs := Encode(HeaderOf(s), s.ints, s.ram, t, isOld) + rest;
    assert f1 == EncodeBody(s.ints, s.ram, t, isOld) + rest;
    assert fs == h + f1;
    HeaderRoundTrip(s, into, f1, mainClk);
    assert fs[INT_POS..] == f1;
    var u := AfterHeader(into, fs, mainClk);
    BodyRoundTrip(s, u, t, isOld, tabs, rest);
  }

  /** A read that fails inside the header leaves the registers, the RAM and
      the bank cache of the reading unit as they were, but keeps the header
      fields it got: a partly restored unit. */
  lemma UndumpShortHeader(s: UnitState, t: DriveType, isOld: bool, tabs: Tables,
                          fs: seq<Field>, mainClk: nat)
    requires TablesValid(tabs) && |s.ram| >= DRIVE_RAM_SIZE
    requires Readable(fs, HEADER_LAYOUT) < INT_POS
    ensures var res := Undump(s, t, isOld, tabs, fs, mainClk);
            !res.1 && res.0.regs == s.regs && res.0.ram == s.ram && res.0.bank == s.bank &&
            res.0.requests == s.requests &&
            (|fs| > 0 && fs[0].FClock? ==> res.0.clk == fs[0].clock)
    ensures PrefixShaped(fs[..Readable(fs, HEADER_LAYOUT)]) &&
            Undump(s, t, isOld, tabs, fs, mainClk).0
              == UndumpHeader(ResetState(s, mainClk), fs[..Readable(fs, HEADER_LAYOUT)])
  {
    ReadableHeader(fs);
  }

  /** One drive unit: the drive clock (diskunit_clk), the CPU context and the
      drive RAM. The page tables, the sync factor, the model and its
      drive_check_old answer are fixed for the unit's life. */
  class DriveUnit {
    const number: nat
    const kind: DriveType
    const isOld: bool
    const tables: Tables
    const syncFactor: nat
    const ram: array<byte>

    var clk: nat
    var regs: Regs
    var opInfo: bv32
    var lastClk: nat
    var stopClk: nat
    var cycleAccum: nat
    var lastExcCycles: nat
    var lastData: byte
    var bank: Cache
    var ints: IntStatus
    var requests: seq<Request>

    ghost predicate Valid()
      reads this
    {
      TablesValid(tables) && Consistent(tables) && Coherent(bank, tables) &&
      ram.Length >= DRIVE_RAM_SIZE
    }

    function State(): UnitState
      reads this, ram
    {
      UnitState(clk, regs, opInfo, lastClk, stopClk, cycleAccum, lastExcCycles,
                lastData, bank, ints, ram[..], requests)
    }

    /** The zero-filled context drivecpu_setup_context starts from. */
    constructor (number: nat, kind: DriveType, isOld: bool, tables: Tables, syncFactor: nat)
      requires TablesValid(tables) && Consistent(tables)
      ensures Valid() && fresh(ram) && ram.Length == DRIVE_RAM_SIZE
      ensures this.number == number && this.kind == kind && this.isOld == isOld
      ensures this.tables == tables && this.syncFactor == syncFactor
      ensures clk == 0 && regs == Regs(0, 0, 0, 0, 0, 0) && opInfo == 0
      ensures lastClk == 0 && stopClk == 0 && cycleAccum == 0 && lastExcCycles == 0 && lastData == 0
      ensures bank == EmptyCache && ints == ClearedStatus && requests == []
    {
      this.number := number;
      this.kind := kind;
      this.isOld := isOld;
      this.tables := tables;
      this.syncFactor := syncFactor;
      ram := new byte[DRIVE_RAM_SIZE];
      clk := 0;
      regs := Regs(0, 0, 0, 0, 0, 0);
      opInfo := 0;
      lastClk := 0;
      stopClk := 0;
      cycleAccum := 0;
      lastExcCycles := 0;
      lastData := 0;
      bank := EmptyCache;
      ints := ClearedStatus;
      requests := [];
    }

    /** Whenever the window covers an address, the cached pointer is that
      address's own page pointer. */
    lemma FastPathSound(a: int)
      requires Valid() && InWindow(bank, a)
      ensures 0 <= PageOf(a) < 256 && bank.base == tables.base[PageOf(a)]
    {
      assert bank != EmptyCache;
      var p: nat :| p < 256 && bank == Lookup(tables, p);
      assert tables.base[p] != NoBank;
    }

    /** JUMP(addr): set the PC and refresh the bank cache if it leaves the window. */
    method Jump(addr: Word)
      requires Valid()
      modifies this
      ensures Valid()
      ensures State() == old(State()).(regs := old(regs).(pc := addr),
                                       bank := JumpCache(old(bank), tables, addr))
      ensures InWindow(bank, addr) ==> bank.base == tables.base[PageOf(addr)]
      ensures tables.base[PageOf(addr)] == NoBank ==> !InWindow(bank, addr)
    {
      regs := regs.(pc := addr);
      if regs.pc >= bank.limit || regs.pc < bank.start {
        var p := tables.base[regs.pc / 256];
        if p != NoBank {
          var limits := tables.limits[regs.pc / 256];
          bank := Cache(p, limits / 0x1_0000, limits % 0x1_0000);
        } else {
          bank := Cache(p, 0, 0);
        }
      }
      JumpSound(old(bank), tables, addr);
    }

    /** drivecpu_set_bank_base: JUMP to the current PC. */
    method SetBankBase()
      requires Valid()
      modifies this
      ensures Valid()
      ensures State() == old(State()).(bank := JumpCache(old(bank), tables, old(regs).pc))
    {
      Jump(regs.pc);
    }

    /** drivecpu_set_overflow: set the V flag. */
    method SetOverflowFlag()
      modifies this
      ensures State() == old(State()).(regs := old(regs).(status := SetOverflow(old(regs).status)))
    {
      regs := regs.(status := regs.status | P_OVERFLOW);
    }

    /** drivecpu_wake_up. */
    method WakeUp(mainClk: nat)
      modifies this
      ensures State() == old(State()).(lastClk := WakeUpLastClk(mainClk, old(lastClk), old(clk)))
    {
      if ClockSub(mainClk, lastClk) > WAKE_UP_GAP && clk > WAKE_UP_WARMUP {
        lastClk := mainClk;
      }
    }

    /** The chunk loop of drivecpu_execute: convert `cycles` main-CPU cycles
      into drive cycles, 10000 at a time. */
    method ScheduleCycles(cycles: nat)
      modifies this
      ensures Accum(stopClk, cycleAccum)
           == Accumulate(Accum(old(stopClk), old(cycleAccum)), syncFactor, Chunks(cycles))
      ensures cycles == 0 ==> stopClk == old(stopClk) && cycleAccum == old(cycleAccum)
      ensures cycles > 0 ==>
        stopClk * FRACTION + cycleAccum == old(stopClk) * FRACTION + old(cycleAccum) + syncFactor * cycles &&
        cycleAccum < FRACTION
      ensures State() == old(State()).(stopClk := stopClk, cycleAccum := cycleAccum)
    {
      ghost var start := Accum(stopClk, cycleAccum);
      var left: nat := cycles;
      while left != 0
        invariant Accumulate(Accum(stopClk, cycleAccum), syncFactor, Chunks(left))
               == Accumulate(start, syncFactor, Chunks(cycles))
        invariant State() == old(State()).(stopClk := stopClk, cycleAccum := cycleAccum)
      {
        var t := if left > CHUNK then CHUNK else left;
        left := left - t;
        ghost var before := Accum(stopClk, cycleAccum);
        cycleAccum := cycleAccum + syncFactor * t;
        stopClk := stopClk + cycleAccum / FRACTION;
        cycleAccum := cycleAccum % FRACTION;
        assert Accum(stopClk, cycleAccum) == Step(before, syncFactor, t);
        assert Chunks(left + t) == [t] + Chunks(left);
      }
      ChunksCover(cycles);
      AccumulateConserves(start, syncFactor, Chunks(cycles));
    }

    /** The run loop `while (clk < stop_clk)`: each turn the interpreter
      executes one instruction of `instructionCycles(clk)` cycles. */
    method RunToStop(instructionCycles: nat -> nat)
      requires forall c: nat :: instructionCycles(c) > 0
      modifies this
      ensures clk >= stopClk && clk >= old(clk)
      ensures old(clk) >= stopClk ==> clk == old(clk)
      ensures State() == old(State()).(clk := clk)
    {
      while clk < stopClk
        invariant clk >= old(clk)
        invariant old(clk) >= stopClk ==> clk == old(clk)
        invariant State() == old(State()).(clk := clk)
        decreases stopClk - clk
      {
        clk := clk + instructionCycles(clk);
      }
    }

    /** drivecpu_execute: catch the drive up with main-CPU clock `clkValue`.
      `mainClk` is maincpu_clk, which the wake-up test reads. */
    method Execute(mainClk: nat, clkValue: nat, instructionCycles: nat -> nat)
      requires forall c: nat :: instructionCycles(c) > 0
      modifies this
      ensures var woken := WakeUpLastClk(mainClk, old(lastClk), old(clk));
              var cycles := if clkValue > woken then clkValue - woken else 0;
              Accum(stopClk, cycleAccum)
                == Accumulate(Accum(old(stopClk), old(cycleAccum)), syncFactor, Chunks(cycles)) &&
              (cycles == 0 ==> stopClk == old(stopClk) && cycleAccum == old(cycleAccum)) &&
              (cycles > 0 ==>
                 stopClk * FRACTION + cycleAccum
                   == old(stopClk) * FRACTION + old(cycleAccum) + syncFactor * cycles &&
                 cycleAccum < FRACTION)
      ensures lastClk == clkValue
      ensures clk >= stopClk && clk >= old(clk)
      ensures State() == old(State()).(clk := clk, lastClk := lastClk, stopClk := stopClk,
                                       cycleAccum := cycleAccum)
    {
      WakeUp(mainClk);
      var cycles: nat;
      if clkValue > lastClk {
        cycles := clkValue - lastClk;
      } else {
        cycles := 0;
      }
      ScheduleCycles(cycles);
      RunToStop(instructionCycles);
      lastClk := clkValue;
    }

    /** drive_trap_handler: at the trap address the PC moves to the trap
      continuation and, when idling by trap, the clock jumps ahead to the
      next alarm but never beyond stop_clk. `trap` is drv->trap, compared as
      a 16-bit value; `nextAlarmClk` is what the alarm context reports. */
    method TrapHandler(trap: int, trapCont: Word, idleTrap: bool, nextAlarmClk: nat) returns (r: nat)
      modifies this
      ensures var hit := old(regs).pc == trap % 0x1_0000;
              r == (if hit then TRAP_HANDLED else TRAP_NOT_HANDLED) &&
              (hit ==> State() == old(State()).(
                         regs := old(regs).(pc := trapCont),
                         clk := if !idleTrap then old(clk)
                                else if nextAlarmClk > stopClk then stopClk else nextAlarmClk)) &&
              (!hit ==> State() == old(State()))
      ensures old(regs).pc == trap % 0x1_0000 && idleTrap ==> clk <= stopClk && clk <= nextAlarmClk
    {
      if regs.pc == trap % 0x1_0000 {
        regs := regs.(pc := trapCont);
        if idleTrap {
          var nextClk := nextAlarmClk;
          if nextClk > stopClk {
            nextClk := stopClk;
          }
          clk := nextClk;
        }
        return TRAP_HANDLED;
      }
      return TRAP_NOT_HANDLED;
    }

    /** drivecpu_jam: report the jam and carry out the operator's choice. */
    method Jam(choice: JamChoice) returns (prompt: JamPrompt)
      requires Valid()
      modifies this
      ensures Valid()
      ensures prompt == JamPrompt(DriveName(kind), number + 8, old(regs).pc)
      ensures choice == JamResetCpu || choice == JamPowerCycle ==>
        var mode := if choice == JamResetCpu then ResetModeCpu else ResetModePowerCycle;
        State() == old(State()).(regs := old(regs).(pc := JAM_RESET_PC),
                                 bank := JumpCache(old(bank), tables, JAM_RESET_PC),
                                 requests := old(requests) + [MachineTriggerReset(mode)])
      ensures choice == JamMonitor ==>
        State() == old(State()).(requests := old(requests) + [MonitorStartup])
      ensures choice.JamOther? ==> State() == old(State()).(clk := old(clk) + 1)
    {
      prompt := JamPrompt(DriveName(kind), number + 8, regs.pc);
      match choice
      case JamResetCpu =>
        regs := regs.(pc := JAM_RESET_PC);
        SetBankBase();
        requests := requests + [MachineTriggerReset(ResetModeCpu)];
      case JamPowerCycle =>
        regs := regs.(pc := JAM_RESET_PC);
        SetBankBase();
        requests := requests + [MachineTriggerReset(ResetModePowerCycle)];
      case JamMonitor =>
        requests := requests + [MonitorStartup];
      case JamOther(_) =>
        clk := clk + 1;
    }

    /** cpu_reset, the interpreter's reset hook: the interrupt status is
      cleared except for a pending monitor break, the clock restarts at 6,
      and both disk rotations and the drive's peripherals are reset. */
    method CpuReset()
      modifies this
      ensures State() == old(State()).(
                ints := ResetKeepingMonitor(old(ints)), clk := CPU_RESET_CLK,
                requests := old(requests) + [RotationReset(0), RotationReset(1), MachineDriveReset])
    {
      var preserveMonitor := ints.pending & IK_MONITOR;
      ints := ClearedStatus;
      clk := CPU_RESET_CLK;
      requests := requests + [RotationReset(0), RotationReset(1), MachineDriveReset];
      if preserveMonitor != 0 {
        ints := MonitorTrapOn(ints);
      }
    }

    /** drivecpu_reset_clk. */
    method ResetClk(mainClk: nat)
      modifies this
      ensures State() == old(State()).(lastClk := mainClk, lastExcCycles := 0, stopClk := 0)
    {
      lastClk := mainClk;
      lastExcCycles := 0;
      stopClk := 0;
    }

    /** drivecpu_reset. */
    method Reset(mainClk: nat)
      modifies this
      ensures State() == ResetState(old(State()), mainClk)
    {
      clk := 0;
      ResetClk(mainClk);
      var preserveMonitor := ints.pending & IK_MONITOR;
      ints := ClearedStatus;
      if preserveMonitor != 0 {
        ints := MonitorTrapOn(ints);
      }
      ints := TriggerReset(ints);
    }

    /** drivecpu_trigger_reset: latch a reset for the next instruction. */
    method TriggerResetRequest()
      modifies this
      ensures State() == old(State()).(ints := TriggerReset(old(ints)))
    {
      ints := TriggerReset(ints);
    }

    /** The RAM images this unit writes and reads, in order. */
    ghost function Images(): seq<Field>
      requires ram.Length >= DRIVE_RAM_SIZE
      reads this, ram
    {
      RamImages(ram[..], RamSizes(kind, isOld))
    }

    /** drivecpu_snapshot_write_module into the module `m` that
      snapshot_module_create returned (null when it failed). The fields go
      in until one does not fit; then the module is closed and -1 returned. */
    method SnapshotWriteModule(m: ModuleWriter?) returns (rc: int)
      requires Valid() && (m != null ==> m.open)
      modifies m
      ensures m == null ==> rc == -1
      ensures m != null ==>
        var e := Encode(HeaderOf(State()), ints, ram[..], kind, isOld);
        !m.open && m.fields == old(m.fields) + Written(e, old(m.room)) &&
        rc == (if old(m.room) >= |e| then m.closeResult else -1)
    {
      if m == null {
        return -1;
      }
      var ok := WriteFields(m);
      if !ok {
        rc := m.Close();
        return -1;
      }
      rc := m.Close();
    }

    /** The writes of drivecpu_snapshot_write_module, up to the first that
      fails. */
    method WriteFields(m: ModuleWriter) returns (ok: bool)
      requires ram.Length >= DRIVE_RAM_SIZE && m.open
      modifies m
      ensures m.open
      ensures var e := old(Encode(HeaderOf(State()), ints, ram[..], kind, isOld));
              (ok <==> old(m.room) >= |e|) && m.fields == old(m.fields) + Written(e, old(m.room))
    {
      ghost var base := m.fields;
      ghost var room := m.room;
      var header := EncodeHeader(Header(clk, regs, opInfo, lastClk, cycleAccum, lastExcCycles, stopClk, lastData));
      ghost var body := EncodeBody(ints, ram[..], kind, isOld);
      WrittenAppend(header, body, room);
      ok := m.WriteAll(header);
      if !ok {
        return;
      }
      ok := WriteBody(m);
      AppendAssoc(base, header, Written(body, room - |header|));
    }

    /** The interrupt record, the RAM images and the new interrupt record. */
    method WriteBody(m: ModuleWriter) returns (ok: bool)
      requires ram.Length >= DRIVE_RAM_SIZE && m.open
      modifies m
      ensures m.open
      ensures var body := old(EncodeBody(ints, ram[..], kind, isOld));
              (ok <==> old(m.room) >= |body|) && m.fields == old(m.fields) + Written(body, old(m.room)) &&
              m.room == old(m.room) - |Written(body, old(m.room))|
    {
      ghost var base := m.fields;
      ghost var room := m.room;
      ghost var images := Images();
      ghost var body := EncodeBody(ints, ram[..], kind, isOld);
      ok := m.Write(FInterrupts(ints));
      if !ok {
        return;
      }
      assert body[..1] == [FInterrupts(ints)];
      ok := WriteRam(m, base, room, body, 1);
      if !ok {
        return;
      }
      ok := m.Write(FInterruptsNew(ints));
      FieldWritten(base, room, body, 1 + |images|, ok);
    }

    /** The RAM images of drivecpu_snapshot_write_module: a prefix of drive_ram
      for each size the model calls for. They go at position `pos` of
      `target`, of which the module holds the first `pos` fields. */
    method WriteRam(m: ModuleWriter, ghost base: seq<Field>, ghost room: nat,
                    ghost target: seq<Field>, ghost pos: nat) returns (ok: bool)
      requires ram.Length >= DRIVE_RAM_SIZE && m.open
      requires pos + |Images()| <= |target| && target[pos..pos + |Images()|] == Images()
      requires pos <= room && m.fields == base + target[..pos] && m.room == room - pos
      modifies m
      ensures m.open
      ensures ok ==> pos + |Images()| <= room &&
                     m.fields == base + target[..pos + |Images()|] && m.room == room - (pos + |Images()|)
      ensures !ok ==> room < pos + |Images()| && m.fields == base + Written(target, room) && m.room == 0
    {
      RamSizesOrder(kind, isOld);
      ghost var images := Images();
      ghost var p := pos;
      assert forall i :: 0 <= i < |images| ==> target[pos + i] == images[i];
      ok := true;
      if HasRam2K(kind) {
        ok := m.Write(FBytes(ram[..0x800]));
        FieldWritten(base, room, target, p, ok);
        if !ok {
          return;
        }
        p := p + 1;
      }
      if HasRam8K(kind) {
        ok := m.Write(FBytes(ram[..0x2000]));
        FieldWritten(base, room, target, p, ok);
        if !ok {
          return;
        }
        p := p + 1;
      }
      if isOld {
        ok := m.Write(FBytes(ram[..0x1100]));
        FieldWritten(base, room, target, p, ok);
        if !ok {
          return;
        }
        p := p + 1;
      }
    }

    /** The header reads that go straight into the unit; each keeps its old
      value when the chain of reads stopped before it. */
    method RestoreHeader(hs: seq<Field>)
      requires PrefixShaped(hs)
      modifies this
      ensures State() == UndumpHeader(old(State()), hs)
    {
      var k := |hs|;
      if k > 0 {
        clk := hs[0].clock;
      }
      if k > 7 {
        opInfo := hs[7].d;
      }
      if k > 8 {
        lastClk := hs[8].clock;
      }
      if k > 9 {
        cycleAccum := hs[9].clock;
      }
      if k > 10 {
        lastExcCycles := hs[10].clock;
      }
      if k > 11 {
        stopClk := hs[11].clock;
      }
      if k > 12 {
        lastData := hs[12].b;
      }
    }

    /** SMR_BA(m, drive_ram, n): read an image of `n` bytes into the start of
      the drive RAM. */
    method ReadRamImage(m: ModuleReader, n: nat) returns (ok: bool)
      requires m.open && m.cursor <= |m.fields| && n <= ram.Length
      modifies m, ram
      ensures m.open && m.cursor <= |m.fields|
      ensures var r := ReadImages(old(ram[..]), old(m.fields[m.cursor..]), [n]);
              ram[..] == r.0 && m.cursor == old(m.cursor) + r.1 && (ok <==> r.1 == 1)
    {
      ghost var f := m.fields[m.cursor..];
      var img;
      img, ok := m.ReadAll([KBytes(n)]);
      ReadableOne(f, KBytes(n));
      if ok {
        var bytes := img[0].bytes;
        forall i | 0 <= i < n {
          ram[i] := bytes[i];
        }
        assert ram[..] == LoadImage(old(ram[..]), bytes);
      }
    }

    /** One of the three RAM images: read when the model calls for it. */
    method ReadRamPart(m: ModuleReader, wanted: bool, n: nat) returns (ok: bool)
      requires m.open && m.cursor <= |m.fields| && n <= ram.Length
      modifies m, ram
      ensures m.open && m.cursor <= |m.fields|
      ensures var sizes := if wanted then [n] else [];
              var r := ReadImages(old(ram[..]), old(m.fields[m.cursor..]), sizes);
              ram[..] == r.0 && m.cursor == old(m.cursor) + r.1 && (ok <==> r.1 == |sizes|)
    {
      ok := true;
      if wanted {
        ok := ReadRamImage(m, n);
      }
    }

    /** The RAM images of drivecpu_snapshot_read_module. */
    method ReadRam(m: ModuleReader) returns (ok: bool)
      requires ram.Length >= DRIVE_RAM_SIZE && m.open && m.cursor <= |m.fields|
      modifies m, ram
      ensures m.open && m.cursor <= |m.fields|
      ensures var r := ReadImages(old(ram[..]), old(m.fields[m.cursor..]), RamSizes(kind, isOld));
              ram[..] == r.0 && m.cursor == old(m.cursor) + r.1 && (ok <==> r.1 == |RamSizes(kind, isOld)|)
    {
      ghost var ram0 := ram[..];
      ghost var c0 := m.cursor;
      ghost var f := m.fields[m.cursor..];
      ghost var s2: seq<nat> := if HasRam2K(kind) then [0x800] else [];
      ghost var s8: seq<nat> := if HasRam8K(kind) then [0x2000] else [];
      ghost var so: seq<nat> := if isOld then [0x1100] else [];
      assert RamSizes(kind, isOld) == s2 + s8 + so;
      ReadImagesAppend(ram0, f, s2 + s8, so);
      ReadImagesAppend(ram0, f, s2, s8);
      ok := ReadRamPart(m, HasRam2K(kind), 0x800);
      if !ok {
        return;
      }
      assert m.fields[m.cursor..] == f[|s2|..];
      ok := ReadRamPart(m, HasRam8K(kind), 0x2000);
      if !ok {
        return;
      }
      assert m.fields[m.cursor..] == f[|s2 + s8|..];
      ok := ReadRamPart(m, isOld, 0x1100);
    }

    /** drivecpu_snapshot_read_module from the module `m` that
      snapshot_module_open returned (null when it failed). */
    method SnapshotReadModule(m: ModuleReader?, mainClk: nat) returns (rc: int)
      requires Valid() && (m != null ==> m.open && m.cursor == 0)
      modifies this, ram, m
      ensures Valid()
      ensures m == null ==> rc == -1 && State() == old(State())
      ensures m != null ==>
        var res := Undump(old(State()), kind, isOld, tables, m.fields, mainClk);
        !m.open && State() == res.0 && rc == (if res.1 then m.closeResult else -1)
    {
      if m == null {
        return -1;
      }
      var ok := ReadHeader(m, mainClk);
      if !ok {
        rc := m.Close();
        return -1;
      }
      ok := ReadBody(m);
      rc := m.Close();
      if !ok {
        rc := -1;
      }
    }

    /** The reset and the header reads of drivecpu_snapshot_read_module; the
      registers are set only once the whole header was read. */
    method ReadHeader(m: ModuleReader, mainClk: nat) returns (ok: bool)
      requires Valid() && m.open && m.cursor == 0
      modifies this, m
      ensures Valid() && m.open && m.cursor == Readable(m.fields, HEADER_LAYOUT)
      ensures ok <==> Readable(m.fields, HEADER_LAYOUT) == INT_POS
      ensures !ok ==> State() == HeaderRead(old(State()), m.fields, mainClk)
      ensures ok ==> State() == AfterHeader(old(State()), m.fields, mainClk)
    {
      ghost var s0 := State();
      Reset(mainClk);
      ghost var k := Readable(m.fields, HEADER_LAYOUT);
      ReadableHeader(m.fields);
      var hs;
      hs, ok := m.ReadAll(HEADER_LAYOUT);
      assert hs == m.fields[..k];
      RestoreHeader(hs);
      ghost var s2 := State();
      assert s2 == HeaderRead(s0, m.fields, mainClk);
      if !ok {
        return;
      }
      regs := DecodeHeader(hs).regs;
      ints := ClearedStatus;
      requests := requests + [MachineDriveReset];
    }

    /** The reads after a complete header. */
    method ReadBody(m: ModuleReader) returns (ok: bool)
      requires Valid() && m.open && m.cursor <= |m.fields|
      modifies this, ram, m
      ensures Valid()
      ensures var res := UndumpBody(old(State()), kind, isOld, tables, old(m.fields[m.cursor..]));
              State() == res.0 && ok == res.1
    {
      ghost var f1 := m.fields[m.cursor..];
      var ir;
      ReadableOne(f1, KInterrupts);
      ir, ok := m.ReadAll([KInterrupts]);
      if !ok {
        return;
      }
      ints := ir[0].st;
      assert m.fields[m.cursor..] == f1[1..];
      ok := ReadRamAndTail(m);
    }

    /** The RAM images, the JUMP to the restored PC and the new interrupt
      record. */
    method ReadRamAndTail(m: ModuleReader) returns (ok: bool)
      requires Valid() && m.open && m.cursor <= |m.fields|
      modifies this, ram, m
      ensures Valid()
      ensures var res := UndumpRam(old(State()), kind, isOld, tables, old(m.fields[m.cursor..]));
              State() == res.0 && ok == res.1
    {
      ghost var f2 := m.fields[m.cursor..];
      ok := ReadRam(m);
      if !ok {
        return;
      }
      Jump(regs.pc);
      assert m.fields[m.cursor..] == f2[|RamSizes(kind, isOld)|..];
      ok := ReadTail(m);
    }

    /** The interrupt record added after the original format. */
    method ReadTail(m: ModuleReader) returns (ok: bool)
      requires m.open && m.cursor <= |m.fields|
      modifies this, m
      ensures var res := UndumpTail(old(State()), old(m.fields[m.cursor..]));
              State() == res.0 && ok == res.1
    {
      ghost var f3 := m.fields[m.cursor..];
      var nr;
      ReadableOne(f3, KInterruptsNew);
      nr, ok := m.ReadAll([KInterruptsNew]);
      if !ok {
        return;
      }
      ints := nr[0].st;
    }
  }

  lemma AppendAssoc(a: seq<Field>, b: seq<Field>, c: seq<Field>)
    ensures a + b + c == a + (b + c)
  {
  }

  /** After one more write of the field at position `p` of `target` into a
    module that held `base` and the first `p` fields of `target`. */
  lemma FieldWritten(base: seq<Field>, room: nat, target: seq<Field>, p: nat, ok: bool)
    requires p < |target| && p <= room
    ensures ok && p < room ==> base + target[..p] + [target[p]] == base + target[..p + 1]
    ensures !ok && room == p ==> base + target[..p] == base + Written(target, room)
  {
    if ok && p < room {
      assert target[..p] + [target[p]] == target[..p + 1];
    }
  }
}
