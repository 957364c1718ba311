/** Basic value types of the drive CPU: register widths, the drive models,
    and the name a drive model is reported under when its CPU jams. */
module DriveTypes {

  /** An 8-bit register or memory cell. */
  type byte = bv8

  /** A 16-bit value: an address or the program counter. */
  type Word = x: int | 0 <= x < 0x1_0000

  /** The 6502 register file as the snapshot sees it: the three general
      registers, the stack pointer, the program counter and the packed
      status byte (N, V, B, D, I, Z, C). */
  datatype Regs = Regs(a: byte, x: byte, y: byte, sp: byte, pc: Word, status: byte)

  /** The overflow (V) flag of the status byte: bit 6 on the 6502. */
  const P_OVERFLOW: byte := 0x40

  /** Status byte after drivecpu_set_overflow: V is set, every other flag kept. */
  function SetOverflow(status: byte): (r: byte)
    ensures r & P_OVERFLOW == P_OVERFLOW
    ensures r & !P_OVERFLOW == status & !P_OVERFLOW
    ensures status & P_OVERFLOW == P_OVERFLOW ==> r == status
  {
    status | P_OVERFLOW
  }

  /** The drive models the drive CPU distinguishes (the DRIVE_TYPE_* values);
      every other value, such as "no drive" or the CMD models, is OtherDrive. */
  datatype DriveType =
    | Drive1540 | Drive1541 | Drive1541II | Drive1551 | Drive1570 | Drive1571
    | Drive1571CR | Drive1581 | Drive2000 | Drive4000 | Drive2031 | Drive1001
    | Drive2040 | Drive3040 | Drive4040 | Drive8050 | Drive8250 | Drive9000
    | OtherDrive(code: nat)

  /** The name printed in the jam message. Drive models without a case of
      their own, the 2000 and 4000 included, get the generic "  Drive". */
  function DriveName(t: DriveType): (r: string)
    ensures r == "  Drive" <==> t.OtherDrive? || t == Drive2000 || t == Drive4000
    ensures 6 <= |r| <= 10
  {
    match t
    case Drive1540 => "  1540"
    case Drive1541 => "  1541"
    case Drive1541II => "1541-II"
    case Drive1551 => "  1551"
    case Drive1570 => "  1570"
    case Drive1571 => "  1571"
    case Drive1571CR => "  1571CR"
    case Drive1581 => "  1581"
    case Drive2031 => "  2031"
    case Drive1001 => "  1001"
    case Drive2040 => "  2040"
    case Drive3040 => "  3040"
    case Drive4040 => "  4040"
    case Drive8050 => "  8050"
    case Drive8250 => "  8250"
    case Drive9000 => "  D9090/60"
    case _ => "  Drive"
  }
}
