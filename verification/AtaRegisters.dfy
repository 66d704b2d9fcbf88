/**
 The command block of an ATA device and how the driver fills it in.  For 48-bit
 commands each register is a queue of two bytes (48-bit Address feature set,
 section 6.20 of ATA/ATAPI-6).
 */
module AtaRegisters {
  import opened Words
  import opened Machine

  const TWO_28 := 0x1000_0000
  const READ_SECTORS := 0x20
  const WRITE_SECTORS := 0x30

  datatype Reg = SC | SN | CL | CH

  /** The byte written last and the one before it. */
  datatype Fifo = Fifo(cur: byte, prev: byte)

  datatype Regs = Regs(sc: Fifo, sn: Fifo, cl: Fifo, ch: Fifo, dh: byte, cmd: byte)

  function Push(f: Fifo, v: byte): Fifo { Fifo(v, f.cur) }

  // ---------- what the device makes of its registers ----------

  /** Bit 2 of the command distinguishes the 48-bit forms of the sector commands. */
  predicate Extended(r: Regs) { r.cmd / 4 % 2 == 1 }

  predicate ByLba(r: Regs) { r.dh / 64 % 2 == 1 }

  /** The first sector addressed, on a device with physical geometry p. */
  function Addressed(r: Regs, p: Geometry): int {
    var low := (r.sn.cur as int) + (r.cl.cur as int) * 0x100 + (r.ch.cur as int) * 0x1_0000;
    if Extended(r) then
      low + (r.sn.prev as int) * 0x100_0000 + (r.cl.prev as int) * TWO_32 + (r.ch.prev as int) * 0x100_0000_0000
    else if ByLba(r) then
      low + (r.dh as int) % 16 * 0x100_0000
    else
      (((r.cl.cur as int) + (r.ch.cur as int) * 0x100) * p.heads + (r.dh as int) % 16) * p.spt + r.sn.cur - 1
  }

  /** The number of sectors requested; zero stands for the largest count. */
  function SectorCount(r: Regs): nat {
    if Extended(r) then
      var n := (r.sc.prev as int) * 0x100 + r.sc.cur;
      if n == 0 then 0x1_0000 else n
    else if r.sc.cur == 0 then 0x100 else r.sc.cur
  }

  // ---------- the driver ----------

  function Low8(x: nat): byte { x % 0x100 }

  lemma Octets(x: nat)
    requires x < TWO_32
    ensures x == x % 0x100 + x / 0x100 % 0x100 * 0x100 + x / 0x1_0000 % 0x100 * 0x1_0000
                 + x / 0x100_0000 * 0x100_0000
    ensures x / 0x100_0000 < 0x100
  {
    assert x / 0x100 == x / 0x1_0000 * 0x100 + x / 0x100 % 0x100;
    assert x / 0x1_0000 == x / 0x100_0000 * 0x100 + x / 0x1_0000 % 0x100;
  }

  function DeviceHead(slave: bool, head: nat): byte
    requires head < 16 || 64 <= head < 80
  {
    (if slave then 0xb0 else 0xa0) + head
  }

  lemma DeviceHeadDecodes(slave: bool, head: nat)
    requires head < 16 || 64 <= head < 80
    ensures (DeviceHead(slave, head) as int) % 16 == head % 16
    ensures (DeviceHead(slave, head) as int) / 64 % 2 == (if head < 16 then 0 else 1)
  {
  }

  /** The registers after a 28-bit command ... */
  function Regs28(r: Regs, slave: bool, command: byte, count: byte, lba: nat): Regs {
    Regs(Push(r.sc, count), Push(r.sn, Low8(lba)), Push(r.cl, Low8(lba / 0x100)), Push(r.ch, Low8(lba / 0x1_0000)),
         DeviceHead(slave, lba / 0x100_0000 % 16 + 64), command)
  }

  /** ... and after a 48-bit one, which writes each register twice. */
  function Regs48(slave: bool, command: byte, count: byte, lbaLow: nat, lbaHigh: nat): Regs {
    Regs(Fifo(count, 0), Fifo(Low8(lbaLow), Low8(lbaLow / 0x100_0000)),
         Fifo(Low8(lbaLow / 0x100), Low8(lbaHigh)), Fifo(Low8(lbaLow / 0x1_0000), Low8(lbaHigh / 0x100)),
         DeviceHead(slave, 64), command)
  }

  /** The sector commands, byte by byte, with a 28-bit and with a 48-bit address. */
  predicate LbaBytes(r: Regs, slave: bool, command: byte, count: byte, lbaLow: nat, lbaHigh: nat) {
    && r.sc.cur == count && r.sn.cur == lbaLow % 0x100
    && r.cl.cur == lbaLow / 0x100 % 0x100 && r.ch.cur == lbaLow / 0x1_0000 % 0x100
    && if lbaHigh == 0 && lbaLow + count < 0x1000_0000 then
         r.cmd == command && r.dh == (if slave then 0xf0 else 0xe0) + lbaLow / 0x100_0000
       else
         && r.cmd == command + 4 && r.dh == (if slave then 0xf0 else 0xe0)
         && r.sc.prev == 0 && r.sn.prev == lbaLow / 0x100_0000
         && r.cl.prev == lbaHigh % 0x100 && r.ch.prev == lbaHigh / 0x100
  }

  /** A raw address, byte by byte. */
  predicate ChsBytes(r: Regs, slave: bool, command: byte, count: byte, cylinder: nat, head: nat, sector: nat) {
    && r.sc.cur == count && r.sn.cur == sector && r.cl.cur == cylinder % 0x100 && r.ch.cur == cylinder / 0x100
    && r.dh == (if slave then 0xb0 else 0xa0) + head && r.cmd == command
  }

  lemma Decodes28(r: Regs, slave: bool, command: byte, count: byte, lba: nat, p: Geometry)
    requires command in {READ_SECTORS, WRITE_SECTORS} && 1 <= count && lba < TWO_28
    ensures var r' := Regs28(r, slave, command, count, lba);
      !Extended(r') && Addressed(r', p) == lba && SectorCount(r') == count
  {
    Octets(lba);
    DeviceHeadDecodes(slave, lba / 0x100_0000 % 16 + 64);
  }

  lemma Decodes48(slave: bool, command: byte, count: byte, lbaLow: nat, lbaHigh: nat, p: Geometry)
    requires command in {READ_SECTORS + 4, WRITE_SECTORS + 4} && 1 <= count
    requires lbaLow < TWO_32 && lbaHigh < 0x1_0000
    ensures var r' := Regs48(slave, command, count, lbaLow, lbaHigh);
      Extended(r') && Addressed(r', p) == lbaLow + lbaHigh * TWO_32 && SectorCount(r') == count
  {
    Octets(lbaLow);
    Octets(lbaHigh);
  }

  /** Filling in the low 24 bits after the high-order bytes makes a 48-bit command. */
  lemma Preloaded(r: Regs, slave: bool, command: byte, count: byte, lbaLow: nat, lbaHigh: nat, p: Geometry)
    requires command in {READ_SECTORS + 4, WRITE_SECTORS + 4} && 1 <= count
    requires lbaLow < TWO_32 && lbaHigh < 0x1_0000
    requires r.sc.cur == 0 && r.sn.cur == Low8(lbaLow / 0x100_0000)
    requires r.cl.cur == Low8(lbaHigh) && r.ch.cur == Low8(lbaHigh / 0x100)
    ensures var r' := Regs28(r, slave, command, count, lbaLow % 0x100_0000);
      Extended(r') && Addressed(r', p) == lbaLow + lbaHigh * TWO_32 && SectorCount(r') == count
  {
    LowFields(lbaLow);
    Decodes48(slave, command, count, lbaLow, lbaHigh, p);
  }

  lemma Bytes28(r: Regs, slave: bool, command: byte, count: byte, lba: nat)
    requires command in {READ_SECTORS, WRITE_SECTORS} && lba + count < TWO_28
    ensures LbaBytes(Regs28(r, slave, command, count, lba), slave, command, count, lba, 0)
  {
  }

  lemma Bytes48(r: Regs, slave: bool, command: byte, count: byte, lbaLow: nat, lbaHigh: nat)
    requires command in {READ_SECTORS, WRITE_SECTORS} && lbaLow < TWO_32 && lbaHigh < 0x1_0000
    requires lbaHigh != 0 || lbaLow + count >= TWO_28
    requires r.sc.cur == 0 && r.sn.cur == Low8(lbaLow / 0x100_0000)
    requires r.cl.cur == Low8(lbaHigh) && r.ch.cur == Low8(lbaHigh / 0x100)
    ensures LbaBytes(Regs28(r, slave, command + 4, count, lbaLow % 0x100_0000), slave, command, count, lbaLow, lbaHigh)
  {
    LowFields(lbaLow);
    var low := lbaLow % 0x100_0000;
    assert DeviceHead(slave, low / 0x100_0000 % 16 + 64) == if slave then 0xf0 else 0xe0;
    assert Low8(lbaHigh / 0x100) == lbaHigh / 0x100 && Low8(lbaLow / 0x100_0000) == lbaLow / 0x100_0000;
  }

  lemma LowFields(lba: nat)
    requires lba < TWO_32
    ensures var low := lba % 0x100_0000;
      && Low8(low) == Low8(lba) && Low8(low / 0x100) == Low8(lba / 0x100)
      && Low8(low / 0x1_0000) == Low8(lba / 0x1_0000) && low / 0x100_0000 == 0
  {
    Octets(lba);
    var b0, b1, b2, b3 := lba % 0x100, lba / 0x100 % 0x100, lba / 0x1_0000 % 0x100, lba / 0x100_0000;
    OctetSum(b0, b1, b2, b3);
    OctetSum(b0, b1, b2, 0);
    OctetSum(b1, b2, 0, 0);
  }

  lemma DecodesChs(r: Regs, slave: bool, command: byte, count: byte, cylinder: word, head: nat, sector: byte,
                   p: Geometry)
    requires command in {READ_SECTORS, WRITE_SECTORS} && head < 16 && count >= 1
    requires ChsBytes(r, slave, command, count, cylinder, head, sector)
    ensures !Extended(r) && Addressed(r, p) == ((cylinder as int) * p.heads + head) * p.spt + sector - 1
    ensures SectorCount(r) == count
  {
    DeviceHeadDecodes(slave, head);
    assert (r.cl.cur as int) + (r.ch.cur as int) * 0x100 == cylinder;
  }

  lemma ByteValues(sector: byte, count: byte, cylinder: word)
    ensures Low8(sector) == sector && Low8(count) == count && Low8(cylinder / 0x100) == cylinder / 0x100
  {
  }

  /** The octets of a number, read off its sum. */
  lemma OctetSum(b0: byte, b1: byte, b2: byte, b3: nat)
    ensures var x := b0 + (b1 as int) * 0x100 + (b2 as int) * 0x1_0000 + b3 * 0x100_0000;
      && x % 0x100 == b0 && x / 0x100 == b1 + (b2 as int) * 0x100 + b3 * 0x1_0000
      && x / 0x1_0000 == b2 + b3 * 0x100 && x / 0x100_0000 == b3
      && x % 0x100_0000 == b0 + (b1 as int) * 0x100 + (b2 as int) * 0x1_0000
  {
  }

  /** The cylinder field holds the second and the third octet. */
  lemma CylinderField(lba: nat)
    requires lba < TWO_32
    ensures lba / 0x100 % 0x1_0000 % 0x100 == lba / 0x100 % 0x100
    ensures lba / 0x100 % 0x1_0000 / 0x100 == lba / 0x1_0000 % 0x100
  {
    Octets(lba);
    var b0, b1, b2, b3 := lba % 0x100, lba / 0x100 % 0x100, lba / 0x1_0000 % 0x100, lba / 0x100_0000;
    OctetSum(b0, b1, b2, b3);
    OctetSum(b1, b2, b3, 0);
    OctetSum(b1, b2, 0, 0);
  }

  class TaskFile {
    var regs: Regs

    constructor ()
    {
      var f := Fifo(0, 0);
      regs := Regs(f, f, f, f, 0, 0);
    }

    method Out(reg: Reg, v: byte)
      modifies this
      ensures regs == match reg
                      case SC => old(regs).(sc := Push(old(regs).sc, v))
                      case SN => old(regs).(sn := Push(old(regs).sn, v))
                      case CL => old(regs).(cl := Push(old(regs).cl, v))
                      case CH => old(regs).(ch := Push(old(regs).ch, v))
    {
      match reg
      case SC => regs := regs.(sc := Push(regs.sc, v));
      case SN => regs := regs.(sn := Push(regs.sn, v));
      case CL => regs := regs.(cl := Push(regs.cl, v));
      case CH => regs := regs.(ch := Push(regs.ch, v));
    }

    /** The second half of a command: the current bytes, device/head, command.
        The head bits and the device bits are disjoint, so their or is their sum. */
    method Fill(slave: bool, command: byte, count: word, cylinder: word, head: word, sector: word)
      requires head < 16 || 64 <= head < 80
      modifies this
      ensures regs == Regs(Push(old(regs).sc, Low8(count)), Push(old(regs).sn, Low8(sector)),
                           Push(old(regs).cl, Low8(cylinder)), Push(old(regs).ch, Low8(cylinder / 0x100)),
                           DeviceHead(slave, head), command)
    {
      Out(SC, Low8(count));
      Out(SN, Low8(sector));
      Out(CL, Low8(cylinder));
      Out(CH, Low8(cylinder / 0x100));
      regs := regs.(dh := DeviceHead(slave, head), cmd := command);
    }

    /** Spreads a sector number over the sector, cylinder and head fields. */
    method FillAddress(slave: bool, command: byte, count: word, low: nat)
      requires low < TWO_32 && count < 0x100
      modifies this
      ensures regs == Regs28(old(regs), slave, command, count, low)
    {
      CylinderField(low);
      Fill(slave, command, count, low / 0x100 % 0x1_0000, low / 0x100_0000 % 16 + 64, low % 0x100);
    }

    /** The first half of a 48-bit command: the high-order bytes. */
    method Preload(count: word, lbaLow: nat, lbaHigh: nat)
      modifies this
      ensures regs.sc.cur == Low8(count / 0x100) && regs.sn.cur == Low8(lbaLow / 0x100_0000)
      ensures regs.cl.cur == Low8(lbaHigh) && regs.ch.cur == Low8(lbaHigh / 0x100)
    {
      Out(SC, Low8(count / 0x100));
      Out(SN, Low8(lbaLow / 0x100_0000));
      Out(CL, Low8(lbaHigh));
      Out(CH, Low8(lbaHigh / 0x100));
    }

    /** A request by sector number: sector 0 selects this form. */
    method IssueLba(slave: bool, command: byte, count: word, lbaLow: nat, lbaHigh: nat, ghost p: Geometry)
      requires command in {READ_SECTORS, WRITE_SECTORS} && 1 <= count <= 255
      requires lbaLow < TWO_32 && lbaHigh < 0x1_0000
      modifies this
      ensures Addressed(regs, p) == lbaLow + lbaHigh * TWO_32 && SectorCount(regs) == count
      ensures Extended(regs) <==> lbaLow + lbaHigh * TWO_32 + count >= TWO_28
      ensures LbaBytes(regs, slave, command, count, lbaLow, lbaHigh)
    {
      var c, low := command, lbaLow;
      if count >= 0x100 || lbaHigh != 0 || lbaLow >= TWO_28 - count {
        Preload(count, lbaLow, lbaHigh);
        c := command + 4;
        low := lbaLow % 0x100_0000;
        Preloaded(regs, slave, c, count, lbaLow, lbaHigh, p);
        Bytes48(regs, slave, command, count, lbaLow, lbaHigh);
      } else {
        Decodes28(regs, slave, c, count, lbaLow, p);
        Bytes28(regs, slave, c, count, lbaLow);
      }
      FillAddress(slave, c, count, low);
    }

    /** A request by physical cylinder, head and sector. */
    method IssueChs(slave: bool, command: byte, count: word, cylinder: word, head: word, sector: word,
                    ghost p: Geometry)
      requires command in {READ_SECTORS, WRITE_SECTORS} && 1 <= count <= 255
      requires head < 16 && 1 <= sector <= 255
      modifies this
      ensures Addressed(regs, p) == ((cylinder as int) * p.heads + head) * p.spt + sector - 1
      ensures SectorCount(regs) == count && ChsBytes(regs, slave, command, count, cylinder, head, sector)
    {
      Fill(slave, command, count, cylinder, head, sector);
      ByteValues(sector, count, cylinder);
      DecodesChs(regs, slave, command, count, cylinder, head, sector, p);
    }
  }
}
