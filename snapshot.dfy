/** The DRIVECPU snapshot module, version 1.3: the fixed order of its fields,
    the RAM image chosen by drive model, and the module stream itself.

    The byte encoding of the snapshot library (SMW_* and SMR_*) is not part
    of this model; a module is a sequence of typed fields, one per SMW_* call
    or interrupt sub-record. */
module Snapshot {
  import opened DriveTypes
  import opened Interrupts

  datatype Field =
    | FClock(clock: nat)              // SMW_CLOCK / SMR_CLOCK
    | FByte(b: byte)                  // SMW_B / SMR_B
    | FWord(w: Word)                  // SMW_W / SMR_W
    | FDword(d: bv32)                 // SMW_DW / SMR_DW_UINT
    | FBytes(bytes: seq<byte>)        // SMW_BA / SMR_BA
    | FInterrupts(st: IntStatus)      // interrupt_write_snapshot / interrupt_read_snapshot
    | FInterruptsNew(st: IntStatus)   // interrupt_write_new_snapshot / interrupt_read_new_snapshot

  /** What a reader asks for: the width of the next field. */
  datatype Kind = KClock | KByte | KWord | KDword | KBytes(n: nat) | KInterrupts | KInterruptsNew

  function KindOf(f: Field): Kind
  {
    match f
    case FClock(_) => KClock
    case FByte(_) => KByte
    case FWord(_) => KWord
    case FDword(_) => KDword
    case FBytes(bytes) => KBytes(|bytes|)
    case FInterrupts(_) => KInterrupts
    case FInterruptsNew(_) => KInterruptsNew
  }

  predicate Conforms(fs: seq<Field>, layout: seq<Kind>)
  {
    |fs| == |layout| && forall i :: 0 <= i < |fs| ==> KindOf(fs[i]) == layout[i]
  }

  lemma ConformsAppend(a: seq<Field>, la: seq<Kind>, b: seq<Field>, lb: seq<Kind>)
    requires Conforms(a, la) && Conforms(b, lb)
    ensures Conforms(a + b, la + lb)
  {
    forall i | 0 <= i < |a + b|
      ensures KindOf((a + b)[i]) == (la + lb)[i]
    {
      if i < |a| {
        assert (a + b)[i] == a[i];
      } else {
        assert (a + b)[i] == b[i - |a|];
      }
    }
  }

  /** The number of leading fields of `fs` that a reader expecting `layout`
      gets before a read fails. */
  function Readable(fs: seq<Field>, layout: seq<Kind>): (k: nat)
    ensures k <= |fs| && k <= |layout|
    decreases |fs|
  {
    if fs == [] || layout == [] || KindOf(fs[0]) != layout[0] then 0
    else 1 + Readable(fs[1..], layout[1..])
  }

  /** The fields a reader gets are those of the layout, and the next field,
      if there is one, is not. */
  lemma {:induction false} ReadablePrefix(fs: seq<Field>, layout: seq<Kind>)
    ensures var k := Readable(fs, layout);
            (forall i :: 0 <= i < k ==> KindOf(fs[i]) == layout[i]) &&
            (k < |fs| && k < |layout| ==> KindOf(fs[k]) != layout[k])
    decreases |layout|
  {
    if fs != [] && layout != [] && KindOf(fs[0]) == layout[0] {
      ReadablePrefix(fs[1..], layout[1..]);
      var k := Readable(fs, layout);
      forall i | 0 <= i < k
        ensures KindOf(fs[i]) == layout[i]
      {
        if i > 0 {
          assert fs[i] == fs[1..][i - 1] && layout[i] == layout[1..][i - 1];
        }
      }
      if k < |fs| && k < |layout| {
        assert fs[k] == fs[1..][k - 1] && layout[k] == layout[1..][k - 1];
      }
    }
  }

  /** A reader gets every field of a stream that conforms to its layout. */
  lemma {:induction false} ReadableConforming(fs: seq<Field>, rest: seq<Field>, layout: seq<Kind>)
    requires Conforms(fs, layout)
    ensures Readable(fs + rest, layout) == |layout|
    decreases |layout|
  {
    if layout != [] {
      assert (fs + rest)[0] == fs[0];
      assert (fs + rest)[1..] == fs[1..] + rest;
      ReadableConforming(fs[1..], rest, layout[1..]);
    }
  }

  /** Reading a layout in two parts: the second part is read only when the
      whole first part was. */
  lemma {:induction false} ReadableAppend(fs: seq<Field>, a: seq<Kind>, b: seq<Kind>)
    ensures Readable(fs, a) <= |fs|
    ensures Readable(fs, a + b) ==
      if Readable(fs, a) < |a| then Readable(fs, a) else |a| + Readable(fs[|a|..], b)
    decreases |a|
  {
    if a == [] {
      assert a + b == b;
    } else if fs != [] && KindOf(fs[0]) == a[0] {
      assert (a + b)[0] == a[0];
      assert (a + b)[1..] == a[1..] + b;
      ReadableAppend(fs[1..], a[1..], b);
      if Readable(fs[1..], a[1..]) == |a| - 1 {
        assert fs[1..][|a| - 1..] == fs[|a|..];
      }
    } else {
      assert (a + b)[0] == a[0];
    }
  }

  /** The header fields of the module: the drive clock, A, X, Y, SP, PC,
      the status byte, last_opcode_info, last_clk, cycle_accum,
      last_exc_cycles, stop_clk and the last data byte on the bus. */
  datatype Header = Header(
    clk: nat, regs: Regs, opInfo: bv32, lastClk: nat, cycleAccum: nat,
    lastExcCycles: nat, stopClk: nat, lastData: byte)

  const HEADER_LAYOUT: seq<Kind> :=
    [KClock, KByte, KByte, KByte, KByte, KWord, KByte, KDword, KClock, KClock, KClock, KClock, KByte]

  function EncodeHeader(h: Header): (r: seq<Field>)
    ensures |r| == |HEADER_LAYOUT|
  {
    [FClock(h.clk), FByte(h.regs.a), FByte(h.regs.x), FByte(h.regs.y), FByte(h.regs.sp),
     FWord(h.regs.pc), FByte(h.regs.status), FDword(h.opInfo), FClock(h.lastClk),
     FClock(h.cycleAccum), FClock(h.lastExcCycles), FClock(h.stopClk), FByte(h.lastData)]
  }

  /** Each header field has the width the reader expects at its position. */
  lemma EncodeHeaderConforms(h: Header)
    ensures Conforms(EncodeHeader(h), HEADER_LAYOUT)
  {
    var r := EncodeHeader(h);
    assert r[0] == FClock(h.clk) && r[1] == FByte(h.regs.a) && r[2] == FByte(h.regs.x);
    assert r[3] == FByte(h.regs.y) && r[4] == FByte(h.regs.sp) && r[5] == FWord(h.regs.pc);
    assert r[6] == FByte(h.regs.status) && r[7] == FDword(h.opInfo) && r[8] == FClock(h.lastClk);
    assert r[9] == FClock(h.cycleAccum) && r[10] == FClock(h.lastExcCycles);
    assert r[11] == FClock(h.stopClk) && r[12] == FByte(h.lastData);
  }

  /** The widths of the header fields that a read restores straight into
      the unit, for a header cut short after `|hs|` fields: the drive clock,
      last_opcode_info, the four CPU clocks and the last data byte. */
  predicate PrefixShaped(hs: seq<Field>)
  {
    |hs| <= |HEADER_LAYOUT| &&
    (|hs| > 0 ==> hs[0].FClock?) && (|hs| > 7 ==> hs[7].FDword?) &&
    (|hs| > 8 ==> hs[8].FClock?) && (|hs| > 9 ==> hs[9].FClock?) &&
    (|hs| > 10 ==> hs[10].FClock?) && (|hs| > 11 ==> hs[11].FClock?) &&
    (|hs| > 12 ==> hs[12].FByte?)
  }

  /** Every field of a whole header has its width. */
  predicate HeaderShaped(hs: seq<Field>)
  {
    |hs| == |HEADER_LAYOUT| && hs[0].FClock? &&
    hs[1].FByte? && hs[2].FByte? && hs[3].FByte? && hs[4].FByte? && hs[5].FWord? && hs[6].FByte? &&
    hs[7].FDword? && hs[8].FClock? && hs[9].FClock? && hs[10].FClock? && hs[11].FClock? &&
    hs[12].FByte?
  }

  /** The header values held by a whole header. */
  function DecodeHeader(hs: seq<Field>): Header
    requires HeaderShaped(hs)
  {
    Header(hs[0].clock, Regs(hs[1].b, hs[2].b, hs[3].b, hs[4].b, hs[5].w, hs[6].b), hs[7].d,
           hs[8].clock, hs[9].clock, hs[10].clock, hs[11].clock, hs[12].b)
  }

  /** Decoding a written header gives back the header values. */
  lemma DecodeEncodeHeader(h: Header)
    ensures HeaderShaped(EncodeHeader(h)) && DecodeHeader(EncodeHeader(h)) == h
  {
  }

  /** What a reader gets of a header has the widths the model restores, and
      all of them when it got the whole header. */
  lemma ReadableHeader(fs: seq<Field>)
    ensures var k := Readable(fs, HEADER_LAYOUT);
            PrefixShaped(fs[..k]) && (k == |HEADER_LAYOUT| ==> HeaderShaped(fs[..k]))
  {
    var k := Readable(fs, HEADER_LAYOUT);
    ReadablePrefix(fs, HEADER_LAYOUT);
    var hs := fs[..k];
    assert forall i :: 0 <= i < k ==> KindOf(hs[i]) == HEADER_LAYOUT[i];
    assert k > 0 ==> KindOf(hs[0]) == KClock;
    assert k > 7 ==> KindOf(hs[7]) == KDword;
    assert k > 8 ==> KindOf(hs[8]) == KClock;
    assert k > 9 ==> KindOf(hs[9]) == KClock;
    assert k > 10 ==> KindOf(hs[10]) == KClock;
    assert k > 11 ==> KindOf(hs[11]) == KClock;
    assert k > 12 ==> KindOf(hs[12]) == KByte;
    if k == |HEADER_LAYOUT| {
      assert KindOf(hs[1]) == KByte && KindOf(hs[2]) == KByte && KindOf(hs[3]) == KByte;
      assert KindOf(hs[4]) == KByte && KindOf(hs[5]) == KWord && KindOf(hs[6]) == KByte;
    }
  }

  /** The models whose 2 KiB of RAM go into the snapshot. */
  predicate HasRam2K(t: DriveType)
  {
    t == Drive1540 || t == Drive1541 || t == Drive1541II || t == Drive1551 ||
    t == Drive1570 || t == Drive1571 || t == Drive1571CR || t == Drive2031
  }

  /** The models whose 8 KiB of RAM go into the snapshot. */
  predicate HasRam8K(t: DriveType)
  {
    t == Drive1581 || t == Drive2000 || t == Drive4000
  }

  /** The size of drive_ram: it must hold the largest image. */
  const DRIVE_RAM_SIZE: nat := 0x2000

  /** The RAM images written and read, in order, for a drive model; `isOld`
      is drive_check_old(type). The three tests are independent, so a model
      may in principle get more than one image, each a prefix of drive_ram. */
  function RamSizes(t: DriveType, isOld: bool): (r: seq<nat>)
    ensures forall i :: 0 <= i < |r| ==> r[i] == 0x800 || r[i] == 0x2000 || r[i] == 0x1100
    ensures forall i :: 0 <= i < |r| ==> r[i] <= DRIVE_RAM_SIZE
    ensures |r| <= 2
  {
    (if HasRam2K(t) then [0x800] else []) +
    (if HasRam8K(t) then [0x2000] else []) +
    (if isOld then [0x1100] else [])
  }

  /** Which images a model gets: the 2 KiB image exactly for the models with
      2 KiB of RAM, the 8 KiB image exactly for those with 8 KiB, the image
      of an old drive exactly for old drives, and no image for the rest. */
  lemma RamSizesChoice(t: DriveType, isOld: bool)
    ensures var r := RamSizes(t, isOld);
            (0x800 in r <==> HasRam2K(t)) && (0x2000 in r <==> HasRam8K(t)) &&
            (0x1100 in r <==> isOld) &&
            (!HasRam2K(t) && !HasRam8K(t) && !isOld ==> r == [])
  {
  }

  function RamKinds(sizes: seq<nat>): (r: seq<Kind>)
    ensures |r| == |sizes| && forall i :: 0 <= i < |r| ==> r[i] == KBytes(sizes[i])
  {
    seq(|sizes|, i requires 0 <= i < |sizes| => KBytes(sizes[i]))
  }

  /** The RAM images of `ram` for the given sizes. */
  function RamImages(ram: seq<byte>, sizes: seq<nat>): (r: seq<Field>)
    requires forall i :: 0 <= i < |sizes| ==> sizes[i] <= |ram|
    ensures |r| == |sizes| && forall i :: 0 <= i < |r| ==> r[i] == FBytes(ram[..sizes[i]])
  {
    seq(|sizes|, i requires 0 <= i < |sizes| => FBytes(ram[..sizes[i]]))
  }

  /** The layout of the whole module: header, interrupt record, RAM images,
      and the interrupt record added after the original format. */
  function Layout(t: DriveType, isOld: bool): seq<Kind>
  {
    HEADER_LAYOUT + [KInterrupts] + RamKinds(RamSizes(t, isOld)) + [KInterruptsNew]
  }

  /** Position of the first interrupt record and of the first RAM image. */
  const INT_POS: nat := 13
  const RAM_POS: nat := 14

  /** What drivecpu_snapshot_write_module writes for a unit in state
      (h, st, ram). */
  function Encode(h: Header, st: IntStatus, ram: seq<byte>, t: DriveType, isOld: bool): seq<Field>
    requires |ram| >= DRIVE_RAM_SIZE
  {
    EncodeHeader(h) + EncodeBody(st, ram, t, isOld)
  }

  /** The fields after the header: the interrupt record, the RAM images and
      the new interrupt record. */
  function EncodeBody(st: IntStatus, ram: seq<byte>, t: DriveType, isOld: bool): seq<Field>
    requires |ram| >= DRIVE_RAM_SIZE
  {
    [FInterrupts(st)] + RamImages(ram, RamSizes(t, isOld)) + [FInterruptsNew(st)]
  }

  /** The fields after the header have the widths the reader expects there. */
  lemma EncodeBodyConforms(st: IntStatus, ram: seq<byte>, t: DriveType, isOld: bool)
    requires |ram| >= DRIVE_RAM_SIZE
    ensures Conforms(EncodeBody(st, ram, t, isOld),
                     [KInterrupts] + RamKinds(RamSizes(t, isOld)) + [KInterruptsNew])
  {
    var images := RamImages(ram, RamSizes(t, isOld));
    var kinds := RamKinds(RamSizes(t, isOld));
    assert Conforms(images, kinds) by {
      forall i | 0 <= i < |images|
        ensures KindOf(images[i]) == kinds[i]
      {
      }
    }
    ConformsAppend([FInterrupts(st)], [KInterrupts], images, kinds);
    ConformsAppend([FInterrupts(st)] + images, [KInterrupts] + kinds,
                   [FInterruptsNew(st)], [KInterruptsNew]);
  }

  /** An encoded module has exactly the fields of the model's layout. */
  lemma EncodeConforms(h: Header, st: IntStatus, ram: seq<byte>, t: DriveType, isOld: bool)
    requires |ram| >= DRIVE_RAM_SIZE
    ensures Conforms(Encode(h, st, ram, t, isOld), Layout(t, isOld))
    ensures |Encode(h, st, ram, t, isOld)| == RAM_POS + |RamSizes(t, isOld)| + 1
  {
    var body := [KInterrupts] + RamKinds(RamSizes(t, isOld)) + [KInterruptsNew];
    EncodeHeaderConforms(h);
    EncodeBodyConforms(st, ram, t, isOld);
    ConformsAppend(EncodeHeader(h), HEADER_LAYOUT, EncodeBody(st, ram, t, isOld), body);
    assert Layout(t, isOld) == HEADER_LAYOUT + body;
  }

  /** Where each RAM image sits in the list of a model: the 2 KiB image
      first, the 8 KiB one next, the image of an old drive last. */
  lemma RamSizesOrder(t: DriveType, isOld: bool)
    ensures var r := RamSizes(t, isOld);
            var n2 := if HasRam2K(t) then 1 else 0;
            var n8 := if HasRam8K(t) then 1 else 0;
            |r| == n2 + n8 + (if isOld then 1 else 0) &&
            (HasRam2K(t) ==> r[0] == 0x800) &&
            (HasRam8K(t) ==> r[n2] == 0x2000) &&
            (isOld ==> r[n2 + n8] == 0x1100)
  {
  }

  /** The fields of an encoded module, position by position. */
  lemma EncodeShape(h: Header, st: IntStatus, ram: seq<byte>, t: DriveType, isOld: bool)
    requires |ram| >= DRIVE_RAM_SIZE
    ensures var e := Encode(h, st, ram, t, isOld); var sizes := RamSizes(t, isOld);
            e[..INT_POS] == EncodeHeader(h) && e[INT_POS] == FInterrupts(st) &&
            e[RAM_POS..RAM_POS + |sizes|] == RamImages(ram, sizes) &&
            e[RAM_POS + |sizes|] == FInterruptsNew(st)
  {
  }

  /** The fields of `fs` that fit into `room` free places. */
  function Written(fs: seq<Field>, room: nat): (r: seq<Field>)
    ensures |r| <= room && r <= fs
    ensures r == fs <==> room >= |fs|
    ensures |r| == if room >= |fs| then |fs| else room
  {
    if room >= |fs| then fs else fs[..room]
  }

  /** Writing `a` and then `b` puts into the module what writing `a + b`
      does: `b` is started only when all of `a` fitted. */
  lemma WrittenAppend(a: seq<Field>, b: seq<Field>, room: nat)
    ensures room >= |a| ==> Written(a + b, room) == a + Written(b, room - |a|)
    ensures room < |a| ==> Written(a + b, room) == Written(a, room)
  {
    if room >= |a| && room < |a| + |b| {
      assert (a + b)[..room] == a + b[..room - |a|];
    } else if room < |a| {
      assert (a + b)[..room] == a[..room];
    }
  }

  /** A snapshot module open for writing. `room` is the number of further
      fields the snapshot can take before a write fails; `closeResult` is what
      snapshot_module_close reports. */
  class ModuleWriter {
    var fields: seq<Field>
    var room: nat
    var open: bool
    const closeResult: int

    constructor (room: nat, closeResult: int)
      ensures fields == [] && this.room == room && open && this.closeResult == closeResult
    {
      fields := [];
      this.room := room;
      open := true;
      this.closeResult := closeResult;
    }

    /** One SMW_* call: the field is appended if the snapshot has room. */
    method Write(f: Field) returns (ok: bool)
      requires open
      modifies this
      ensures open
      ensures ok <==> old(room) > 0
      ensures fields == if ok then old(fields) + [f] else old(fields)
      ensures room == if ok then old(room) - 1 else old(room)
    {
      ok := room > 0;
      if ok {
        fields := fields + [f];
        room := room - 1;
      }
    }

    /** A chain `0 || SMW_..(..) < 0 || ...`: the fields are written in order
      until one does not fit. */
    method WriteAll(fs: seq<Field>) returns (ok: bool)
      requires open
      modifies this
      ensures open
      ensures ok <==> old(room) >= |fs|
      ensures fields == old(fields) + Written(fs, old(room))
      ensures room == old(room) - |Written(fs, old(room))|
    {
      var i := 0;
      ok := true;
      while i < |fs|
        invariant 0 <= i <= |fs| && open
        invariant ok ==> i <= old(room) && room == old(room) - i && fields == old(fields) + fs[..i]
        invariant !ok ==> old(room) < |fs| && room == 0 && fields == old(fields) + fs[..old(room)]
        decreases |fs| - i, ok
      {
        if !ok {
          break;
        }
        ok := Write(fs[i]);
        if ok {
          assert fs[..i + 1] == fs[..i] + [fs[i]];
          i := i + 1;
        }
      }
      assert ok ==> fs[..i] == fs;
    }

    method Close() returns (rc: int)
      modifies this
      ensures !open && rc == closeResult
      ensures fields == old(fields) && room == old(room)
    {
      open := false;
      rc := closeResult;
    }
  }

  /** A snapshot module open for reading: its fields and the read position. */
  class ModuleReader {
    const fields: seq<Field>
    var cursor: nat
    var open: bool
    const closeResult: int

    constructor (fields: seq<Field>, closeResult: int)
      ensures this.fields == fields && cursor == 0 && open && this.closeResult == closeResult
    {
      this.fields := fields;
      cursor := 0;
      open := true;
      this.closeResult := closeResult;
    }

    /** A chain of SMR_* calls or one interrupt sub-record read: the fields of
      `layout` are read in order until one is missing or has another width. */
    method ReadAll(layout: seq<Kind>) returns (fs: seq<Field>, ok: bool)
      requires open && cursor <= |fields|
      modifies this
      ensures open && cursor <= |fields|
      ensures fs == fields[old(cursor)..old(cursor) + Readable(fields[old(cursor)..], layout)]
      ensures cursor == old(cursor) + |fs|
      ensures ok <==> |fs| == |layout|
    {
      ghost var rest := fields[cursor..];
      ghost var k := Readable(rest, layout);
      ReadablePrefix(rest, layout);
      fs := [];
      var i := 0;
      while i < |layout| && cursor < |fields| && KindOf(fields[cursor]) == layout[i]
        invariant 0 <= i <= k && cursor == old(cursor) + i && cursor <= |fields| && open
        invariant fs == fields[old(cursor)..cursor]
        decreases |layout| - i
      {
        assert rest[i] == fields[cursor];
        fs := fs + [fields[cursor]];
        cursor := cursor + 1;
        i := i + 1;
      }
      assert i == k;
      ok := i == |layout|;
    }

    method Close() returns (rc: int)
      modifies this
      ensures !open && rc == closeResult && cursor == old(cursor)
    {
      open := false;
      rc := closeResult;
    }
  }
}
