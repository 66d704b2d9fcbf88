/**
 Hard disk reads and writes: from the INT 13h registers through the command
 registers and the sector transfer to the sectors of the drive.
 */
module HardDisk {
  import opened Words
  import opened Machine
  import opened Arith
  import opened DiskGeometry
  import opened AtaRegisters

  /** How the drive answers before the data phase: it may be busy, report an error for
      whatever reason, or ask for no data. */
  datatype Startup = Idle | Busy | Refused | NoRequest

  /** 0 go on, 1 busy, 2 error, 3 no data request; a drive reports an error for
      sectors it does not have. */
  function StartCode(startup: Startup, inRange: bool): nat {
    if startup == Busy then 1
    else if startup == Refused || !inRange then 2
    else if startup == NoRequest then 3 else 0
  }

  /** The sectors actually moved when the status is good after the first `good` sectors. */
  function Moved(count: nat, good: nat): nat { Min(count, good + 1) }

  /** 0 done, 4 and 6 bad status after the last sector, 5 and 7 before it. */
  function TransferCode(write: bool, count: nat, good: nat): nat {
    if good >= count then 0
    else if good + 1 == count then (if write then 6 else 4)
    else (if write then 7 else 5)
  }

  /** How a transfer ends after `current` sectors. */
  lemma EndCode(count: nat, current: nat, good: nat)
    requires 1 <= current <= count && current <= good + 1
    ensures current == count ==> Moved(count, good) == current
    ensures current == count && current <= good ==>
              TransferCode(false, count, good) == TransferCode(true, count, good) == 0
    ensures current == count && current > good ==>
              TransferCode(false, count, good) == 4 && TransferCode(true, count, good) == 6
    ensures current < count && current > good ==>
              Moved(count, good) == current
              && TransferCode(false, count, good) == 5 && TransferCode(true, count, good) == 7
  {
  }

  /** When each code is returned, and how many sectors have been moved then. */
  lemma Codes(startup: Startup, inRange: bool, write: bool, count: nat, good: nat)
    requires count >= 1
    ensures StartCode(startup, inRange) == 0 <==> startup == Idle && inRange
    ensures StartCode(startup, inRange) == 1 <==> startup == Busy
    ensures StartCode(startup, inRange) == 2 <==> startup == Refused || (startup != Busy && !inRange)
    ensures StartCode(startup, inRange) == 3 <==> startup == NoRequest && inRange
    ensures TransferCode(write, count, good) == 0 && Moved(count, good) == count <==> good >= count
    ensures TransferCode(write, count, good) == (if write then 6 else 4) && Moved(count, good) == count
            <==> good == count - 1
    ensures TransferCode(write, count, good) == (if write then 7 else 5) && Moved(count, good) == good + 1
            <==> good < count - 1
  {
  }

  /** Keeps the offset clear of the end of the segment: 2 KB is the largest sector. */
  method AdjustBuffer(segment: word, offset: word, ghost room: nat) returns (s: word, o: word)
    requires Linear(segment, offset) + room <= ADDRESS_SPACE && room >= 512
    ensures Linear(s, o) == Linear(segment, offset) && o <= 0xf800
  {
    s, o := segment, offset;
    if o > 0xf800 {
      o := o - 0x800;
      s := U16(s + 0x80);
    }
  }

  /** `now` is `was` with src[a..b] copied to address `to`. */
  ghost predicate Copied(now: seq<byte>, was: seq<byte>, to: nat, src: seq<byte>, a: nat, b: nat) {
    && a <= b <= |src| && to + b - a <= |was| == |now|
    && (forall i :: to <= i < to + b - a ==> now[i] == src[a + (i - to)])
    && (forall i :: 0 <= i < |was| && !(to <= i < to + b - a) ==> now[i] == was[i])
  }

  lemma CopiedNext(before: seq<byte>, now: seq<byte>, was: seq<byte>, to: nat, src: seq<byte>, a: nat, b: nat,
                   next: nat)
    requires Copied(before, was, to, src, a, b) && b + 512 <= |src| && next == to + (b - a) && next + 512 <= |was|
    requires |before| == |was| && now == Splice(before, next, src[b..b + 512])
    ensures Copied(now, was, to, src, a, b + 512)
  {
  }

  /** Sectors written from one buffer and read back into another arrive unchanged. */
  lemma WriteThenRead(mem0: seq<byte>, disk0: seq<byte>, disk1: seq<byte>, mem1: seq<byte>,
                      first: nat, count: nat, source: nat, target: nat)
    requires Copied(disk1, disk0, first * 512, mem0, source, source + count * 512)
    requires Copied(mem1, mem0, target, disk1, first * 512, (first + count) * 512)
    ensures Arrived(mem0, mem1, source, target, count * 512)
  {
    SpliceSlice(disk0, first * 512, mem0[source..source + count * 512]);
  }

  class Drive {
    const mem: array<byte>
    const disk: array<byte>
    // physical and logical geometry
    const p: Geometry
    const l: Geometry
    const slave: bool
    const pio32: bool
    const tf: TaskFile
    var trsfsectors: nat

    predicate Valid()
    {
      && mem != disk && mem.Length >= ADDRESS_SPACE && PhysicalOk(p)
      // the identified sectors exist
      && Capacity(l) * 512 <= disk.Length
      && l.heads <= 255 && l.spt <= 63 && l.cylinders <= 1024
    }

    constructor (mem: array<byte>, disk: array<byte>, p: Geometry, l: Geometry, slave: bool, pio32: bool)
      requires mem != disk && mem.Length >= ADDRESS_SPACE && PhysicalOk(p)
      requires Capacity(l) * 512 <= disk.Length && l.heads <= 255 && l.spt <= 63 && l.cylinders <= 1024
      ensures Valid() && fresh(tf) && this.mem == mem && this.disk == disk && this.p == p && this.l == l
    {
      this.mem, this.disk, this.p, this.l, this.slave, this.pio32 := mem, disk, p, l, slave, pio32;
      tf := new TaskFile();
      trsfsectors := 0;
    }

    /** One sector from the drive to memory. */
    method SectorIn(from: nat, segment: word, offset: word)
      requires from + 512 <= disk.Length && offset <= 0xf800 && mem != disk
      requires Linear(segment, offset) + 512 <= mem.Length
      modifies mem
      ensures mem[..] == Splice(old(mem[..]), Linear(segment, offset), disk[..][from..from + 512])
    {
      var port := new DataPort(disk[from..from + 512]);
      if pio32 {
        port.Store(128, 4, mem, segment, offset);
      } else {
        port.Store(256, 2, mem, segment, offset);
      }
      assert disk[from..from + 512] == disk[..][from..from + 512];
      assert disk[from..from + 512][..512] == disk[from..from + 512];
    }

    /** One sector from memory to the drive. */
    method SectorOut(to: nat, segment: word, offset: word)
      requires to + 512 <= disk.Length && offset <= 0xf800 && mem != disk
      requires Linear(segment, offset) + 512 <= mem.Length
      modifies disk
      ensures disk[..] == Splice(old(disk[..]), to, mem[..][Linear(segment, offset)..Linear(segment, offset) + 512])
    {
      var from := Linear(segment, offset);
      ghost var was := disk[..];
      for j := 0 to 512
        invariant disk[..] == Splice(was, to, mem[..][from..from + j])
        modifies disk
      {
        ghost var now := disk[..];
        disk[to + j] := mem[from + j];
        assert disk[..] == now[to + j := mem[from + j]];
        assert mem[..][from..from + j + 1] == mem[..][from..from + j] + [mem[from + j]];
        SpliceStep(was, to, mem[..][from..from + j], mem[from + j]);
      }
    }

    /** What a read has done after `current` sectors. */
    ghost predicate Reading(was: seq<byte>, base: nat, first: nat, current: nat, segment: word, offset: word)
      reads mem, disk
    {
      && mem != disk && mem.Length >= ADDRESS_SPACE && |was| == mem.Length
      && Linear(segment, offset) == base + current * 512
      && Copied(mem[..], was, base, disk[..], first * 512, (first + current) * 512)
    }

    lemma Fetched(was: seq<byte>, base: nat, first: nat, current: nat, segment: word, offset: word,
                  count: nat, good: nat)
      requires Reading(was, base, first, current, segment, offset)
      ensures current == Moved(count, good) ==>
                Copied(mem[..], was, base, disk[..], first * 512, (first + Moved(count, good)) * 512)
    {
    }

    /** One turn of a read: adjust the buffer address, move a sector, step on. */
    method NextIn(ghost was: seq<byte>, ghost base: nat, first: nat, current: nat, bufseg: word, bufoff: word,
                  ghost room: nat)
      returns (segment: word, offset: word)
      requires Reading(was, base, first, current, bufseg, bufoff) && (first + current + 1) * 512 <= disk.Length
      requires room >= 512 && Linear(bufseg, bufoff) + room <= ADDRESS_SPACE
      modifies this`trsfsectors, mem
      ensures Reading(was, base, first, current + 1, segment, offset) && trsfsectors == current + 1
    {
      segment, offset := AdjustBuffer(bufseg, bufoff, room);
      GetSector(was, base, first * 512, (first + current) * 512, base + current * 512, segment, offset);
      offset := offset + 512;
      trsfsectors := current + 1;
    }

    method GetSector(ghost was: seq<byte>, ghost base: nat, ghost start: nat, from: nat, ghost at: nat,
                     segment: word, offset: word)
      requires from + 512 <= disk.Length && mem != disk && offset <= 0xf800
      requires start <= from && at + 512 <= mem.Length && at == base + (from - start)
      requires Linear(segment, offset) == at
      requires |was| == mem.Length && Copied(mem[..], was, base, disk[..], start, from)
      modifies mem
      ensures Copied(mem[..], was, base, disk[..], start, from + 512)
    {
      ghost var src, before := disk[..], mem[..];
      SectorIn(from, segment, offset);
      assert disk[..] == src;
      CopiedNext(before, mem[..], was, base, src, start, from, at);
    }

    /** The transfer loop of a read: sectors `first`, `first + 1`, ... to the buffer. */
    method TransferIn(first: nat, count: nat, bufseg: word, bufoff: word, good: nat) returns (code: nat)
      requires 1 <= count <= 255 && (first + count) * 512 <= disk.Length && mem != disk
      requires mem.Length >= ADDRESS_SPACE && Linear(bufseg, bufoff) + count * 512 <= ADDRESS_SPACE
      modifies this`trsfsectors, mem
      ensures code == TransferCode(false, count, good) && trsfsectors == Moved(count, good)
      ensures Copied(mem[..], old(mem[..]), Linear(bufseg, bufoff), disk[..],
                     first * 512, (first + Moved(count, good)) * 512)
    {
      var segment, offset := bufseg, bufoff;
      var left := count;
      var current := 0;
      ghost var was, base := mem[..], Linear(bufseg, bufoff);
      while true
        invariant current + left == count && current <= good && left >= 1
        invariant Reading(was, base, first, current, segment, offset)
        decreases left
      {
        segment, offset := NextIn(was, base, first, current, segment, offset, left * 512);
        current := current + 1;
        left := left - 1;
        EndCode(count, current, good);
        Fetched(was, base, first, current, segment, offset, count, good);
        if left == 0 {
          return if current > good then 4 else 0;
        } else if current > good {
          return 5;
        }
      }
    }

    /** What a write has done after `current` sectors. */
    ghost predicate Writing(was: seq<byte>, base: nat, first: nat, current: nat, segment: word, offset: word)
      reads mem, disk
    {
      && mem != disk && mem.Length >= ADDRESS_SPACE && |was| == disk.Length
      && Linear(segment, offset) == base + current * 512
      && Copied(disk[..], was, first * 512, mem[..], base, base + current * 512)
    }

    lemma Written(was: seq<byte>, base: nat, first: nat, current: nat, segment: word, offset: word,
                  count: nat, good: nat)
      requires Writing(was, base, first, current, segment, offset)
      ensures current == Moved(count, good) ==>
                Copied(disk[..], was, first * 512, mem[..], base, base + Moved(count, good) * 512)
    {
    }

    /** One turn of a write. */
    method NextOut(ghost was: seq<byte>, ghost base: nat, first: nat, current: nat, bufseg: word, bufoff: word,
                   ghost room: nat)
      returns (segment: word, offset: word)
      requires Writing(was, base, first, current, bufseg, bufoff) && (first + current + 1) * 512 <= disk.Length
      requires room >= 512 && Linear(bufseg, bufoff) + room <= ADDRESS_SPACE
      modifies this`trsfsectors, disk
      ensures Writing(was, base, first, current + 1, segment, offset) && trsfsectors == current + 1
    {
      segment, offset := AdjustBuffer(bufseg, bufoff, room);
      PutSector(was, first * 512, (first + current) * 512, base, base + current * 512, segment, offset);
      offset := offset + 512;
      trsfsectors := current + 1;
    }

    method PutSector(ghost was: seq<byte>, ghost start: nat, to: nat, ghost base: nat, ghost at: nat,
                     segment: word, offset: word)
      requires to + 512 <= disk.Length && mem != disk && offset <= 0xf800
      requires base <= at && at + 512 <= mem.Length && to == start + (at - base)
      requires Linear(segment, offset) == at
      requires |was| == disk.Length && Copied(disk[..], was, start, mem[..], base, at)
      modifies disk
      ensures Copied(disk[..], was, start, mem[..], base, at + 512)
    {
      ghost var src, before := mem[..], disk[..];
      SectorOut(to, segment, offset);
      assert mem[..] == src;
      CopiedNext(before, disk[..], was, start, src, base, at, to);
    }

    /** The transfer loop of a write. */
    method TransferOut(first: nat, count: nat, bufseg: word, bufoff: word, good: nat) returns (code: nat)
      requires 1 <= count <= 255 && (first + count) * 512 <= disk.Length && mem != disk
      requires mem.Length >= ADDRESS_SPACE && Linear(bufseg, bufoff) + count * 512 <= ADDRESS_SPACE
      modifies this`trsfsectors, disk
      ensures code == TransferCode(true, count, good) && trsfsectors == Moved(count, good)
      ensures Copied(disk[..], old(disk[..]), first * 512, mem[..],
                     Linear(bufseg, bufoff), Linear(bufseg, bufoff) + Moved(count, good) * 512)
    {
      var segment, offset := bufseg, bufoff;
      var left := count;
      var current := 0;
      ghost var was, base := disk[..], Linear(bufseg, bufoff);
      while true
        invariant current + left == count && current <= good && left >= 1
        invariant Writing(was, base, first, current, segment, offset)
        decreases left
      {
        segment, offset := NextOut(was, base, first, current, segment, offset, left * 512);
        current := current + 1;
        left := left - 1;
        EndCode(count, current, good);
        Written(was, base, first, current, segment, offset, count, good);
        if left == 0 {
          return if current > good then 6 else 0;
        } else if current > good {
          return 7;
        }
      }
    }

    /** What a transfer of sectors from `first` on leaves behind. */
    twostate predicate Transferred(write: bool, first: nat, count: nat, buffer: nat, good: nat)
      reads this, mem, disk
    {
      && trsfsectors == Moved(count, good)
      && (if write then
            mem[..] == old(mem[..]) &&
            Copied(disk[..], old(disk[..]), first * 512, mem[..], buffer, buffer + Moved(count, good) * 512)
          else
            disk[..] == old(disk[..]) &&
            Copied(mem[..], old(mem[..]), buffer, disk[..], first * 512, (first + Moved(count, good)) * 512))
    }

    twostate predicate NothingMoved()
      reads mem, disk
    {
      mem[..] == old(mem[..]) && disk[..] == old(disk[..])
    }

    /** The return code of a request and what it leaves behind. */
    twostate predicate Answered(write: bool, first: nat, count: nat, buffer: nat, startup: Startup, good: nat,
                                code: nat)
      reads this, mem, disk
    {
      match StartCode(startup, (first + count) * 512 <= disk.Length)
      case 0 => code == TransferCode(write, count, good) && Transferred(write, first, count, buffer, good)
      case start => code == start && NothingMoved() && trsfsectors == 0
    }

    /** The sector a driver request starts at: by number when `sector` is 0. */
    function FirstSector(cylinder: word, head: word, sector: word, lbaLow: nat, lbaHigh: nat): int {
      if sector == 0 then lbaLow + lbaHigh * TWO_32
      else ((cylinder as int) * p.heads + head) * p.spt + sector - 1
    }

    /** Loads the registers; the drive reads the address and the count back from them. */
    method Issue(write: bool, count: word, cylinder: word, head: word, sector: word, lbaLow: nat, lbaHigh: nat)
      requires Valid() && 1 <= count <= 255 && lbaLow < TWO_32 && lbaHigh < 0x1_0000
      requires sector != 0 ==> head < 16 && sector <= 255
      modifies tf
      ensures Addressed(tf.regs, p) == FirstSector(cylinder, head, sector, lbaLow, lbaHigh)
      ensures SectorCount(tf.regs) == count
    {
      var command := if write then WRITE_SECTORS else READ_SECTORS;
      if sector == 0 {
        tf.IssueLba(slave, command, count, lbaLow, lbaHigh, p);
      } else {
        tf.IssueChs(slave, command, count, cylinder, head, sector, p);
      }
    }

    /** The driver's data command.  The drive refuses what it does not have. */
    method AtaCmdDataIo(write: bool, count: word, cylinder: word, head: word, sector: word, lbaLow: nat, lbaHigh: nat,
                        segment: word, offset: word, startup: Startup, good: nat)
      returns (code: nat)
      requires Valid() && 1 <= count <= 255 && lbaLow < TWO_32 && lbaHigh < 0x1_0000
      requires sector != 0 ==> head < 16 && sector <= 255
      requires Linear(segment, offset) + (count as int) * 512 <= ADDRESS_SPACE
      modifies this, tf, mem, disk
      ensures var first := FirstSector(cylinder, head, sector, lbaLow, lbaHigh);
        && first >= 0
        && Answered(write, first, count, Linear(segment, offset), startup, good, code)
    {
      FirstNonNegative(cylinder, head, sector, lbaLow, lbaHigh);
      trsfsectors := 0;
      if startup == Busy {
        return 1;
      }
      Issue(write, count, cylinder, head, sector, lbaLow, lbaHigh);
      var at, n := Addressed(tf.regs, p), SectorCount(tf.regs);
      if startup == Refused || (at + n) * 512 > disk.Length {
        return 2;
      } else if startup == NoRequest {
        return 3;
      }
      code := Transfer(write, at, n, segment, offset, good);
    }

    /** The data phase in either direction. */
    method Transfer(write: bool, first: nat, count: nat, segment: word, offset: word, good: nat) returns (code: nat)
      requires 1 <= count <= 255 && (first + count) * 512 <= disk.Length && mem != disk
      requires mem.Length >= ADDRESS_SPACE && Linear(segment, offset) + count * 512 <= ADDRESS_SPACE
      modifies this`trsfsectors, mem, disk
      ensures code == TransferCode(write, count, good)
      ensures Transferred(write, first, count, Linear(segment, offset), good)
    {
      if write {
        code := TransferOut(first, count, segment, offset, good);
      } else {
        code := TransferIn(first, count, segment, offset, good);
      }
    }

    lemma FirstNonNegative(cylinder: word, head: word, sector: word, lbaLow: nat, lbaHigh: nat)
      ensures FirstSector(cylinder, head, sector, lbaLow, lbaHigh) >= 0
    {
      MulMono(0, cylinder, p.heads);
      MulMono(0, (cylinder as int) * p.heads + head, p.spt);
    }

    // ---------- INT 13h ----------

    predicate Acceptable(r: Request) {
      1 <= r.al <= 128 && InGeometry(l, DecodeChs(r.ch, r.cl, r.dh))
    }

    /** Raw physical addressing is used when the two geometries have the same tracks. */
    predicate SameTracks() { p.heads == l.heads && p.spt == l.spt }

    lemma SectorNumber(a: Chs)
      requires Valid() && InGeometry(l, a)
      ensures 0 <= SectorIndex(l, a) < Capacity(l) && SectorIndex(l, a) < TWO_32
      ensures SameTracks() ==> a.h < 16
    {
      IndexInCapacity(l, a);
      MulMono(l.cylinders, 1024, l.heads);
      MulMono(l.heads, 255, 1024);
      MulMono((l.cylinders as int) * l.heads, 1024 * 255, l.spt);
      MulMono(l.spt, 63, 1024 * 255);
    }

    /** An accepted read or write: by sector number, or as a raw address. */
    method Access(write: bool, count: word, a: Chs, segment: word, offset: word, startup: Startup, good: nat)
      returns (code: nat)
      requires Valid() && 1 <= count <= 128 && InGeometry(l, a)
      requires Linear(segment, offset) + (count as int) * 512 <= ADDRESS_SPACE
      modifies this, tf, mem, disk
      ensures var first := SectorIndex(l, a);
        && 0 <= first < Capacity(l)
        && Answered(write, first, count, Linear(segment, offset), startup, good, code)
    {
      SectorNumber(a);
      var sector: word, lbaLow: nat := a.s, 0;
      if p.heads != l.heads || p.spt != l.spt {
        lbaLow := U32((a.c * l.heads + a.h) * l.spt + a.s - 1);
        sector := 0; // selects addressing by sector number
      }
      assert FirstSector(a.c, a.h, sector, lbaLow, 0) == SectorIndex(l, a);
      code := AtaCmdDataIo(write, count, a.c, a.h, sector, lbaLow, 0, segment, offset, startup, good);
    }

    /** Functions 02 (read), 03 (write) and 04 (verify): whether the request goes out
        as a sector number or as a raw address, it names the same sectors. */
    method Int13(ah: byte, r: Request, startup: Startup, good: nat) returns (cf: bool, status: byte, al: byte)
      requires Valid() && ah in {2, 3, 4}
      requires Linear(r.es, r.bx) + (r.al as int) * 512 <= ADDRESS_SPACE
      modifies this, tf, mem, disk
      ensures !Acceptable(r) ==> cf && status == 1 && NothingMoved()
      ensures Acceptable(r) && ah == 4 ==> !cf && status == 0 && NothingMoved()
      ensures Acceptable(r) && ah != 4 ==>
                var first := SectorIndex(l, DecodeChs(r.ch, r.cl, r.dh));
                var inRange := (first + r.al) * 512 <= disk.Length;
                && 0 <= first < Capacity(l)
                && cf == !(StartCode(startup, inRange) == 0 && good >= r.al)
                && status == (if cf then 0x0c else 0)
                && (if StartCode(startup, inRange) == 0
                    then Transferred(ah == 3, first, r.al, Linear(r.es, r.bx), good) && al as nat == Moved(r.al, good)
                    else NothingMoved() && al == 0)
    {
      al := r.al;
      var count: word := r.al;
      var cylinder: word := (r.cl as int) / 64 * 256 + r.ch;
      var sector: word := r.cl % 64;
      var head: word := r.dh;
      if count > 128 || count == 0 || sector == 0 {
        return true, 1, al;
      }
      if cylinder >= l.cylinders || head >= l.heads || sector > l.spt {
        return true, 1, al;
      }
      if ah == 4 {
        return false, 0, al;
      }
      var code := Access(ah == 3, count, Chs(cylinder, head, sector), r.es, r.bx, startup, good);
      al := trsfsectors;
      if code != 0 {
        return true, 0x0c, al;
      }
      return false, 0, al;
    }

    /** The first sector of an accepted request. */
    function First(r: Request): (f: nat)
      requires Valid() && Acceptable(r)
      ensures f == SectorIndex(l, DecodeChs(r.ch, r.cl, r.dh)) < Capacity(l)
    {
      IndexInCapacity(l, DecodeChs(r.ch, r.cl, r.dh));
      SectorIndex(l, DecodeChs(r.ch, r.cl, r.dh))
    }

    /** A cylinder, head and sector in the registers: the request is accepted exactly when
        the address lies in the logical geometry and 1 to 128 sectors are asked for. */
    lemma AcceptedExactly(r: Request, c: nat, h: nat, s: nat)
      requires Valid() && c < 1024 && h < 256 && s < 64
      requires r.ch == c % 256 && r.cl == c / 256 * 64 + s && r.dh == h
      ensures Acceptable(r) <==>
                1 <= r.al <= 128 && c < l.cylinders && h < l.heads && 1 <= s <= l.spt
      ensures Acceptable(r) ==> First(r) == (c * l.heads + h) * l.spt + s - 1
    {
      assert DecodeChs(r.ch, r.cl, r.dh) == Chs(c, h, s);
    }

    predicate Succeeds(r: Request, startup: Startup, good: nat)
      requires Valid() && Acceptable(r)
    {
      StartCode(startup, (First(r) + r.al) * 512 <= disk.Length) == 0 && good >= r.al
    }

    /** A request that is accepted, with a buffer below 1 MB. */
    predicate Asked(r: Request) {
      Valid() && Acceptable(r) && Linear(r.es, r.bx) + (r.al as int) * 512 <= ADDRESS_SPACE
    }

    /** The sectors of w hold what was in its buffer. */
    ghost predicate Wrote(w: Request, mem: seq<byte>, disk0: seq<byte>, disk1: seq<byte>)
      requires Asked(w)
    {
      Copied(disk1, disk0, First(w) * 512, mem, Linear(w.es, w.bx), Linear(w.es, w.bx) + (w.al as int) * 512)
    }

    /** The buffer of r holds what was in its sectors. */
    ghost predicate GotBack(r: Request, disk: seq<byte>, mem0: seq<byte>, mem1: seq<byte>)
      requires Asked(r)
    {
      Copied(mem1, mem0, Linear(r.es, r.bx), disk, First(r) * 512, (First(r) + r.al) * 512)
    }

    lemma WrittenAndRead(w: Request, r: Request, mem0: seq<byte>, disk0: seq<byte>, disk1: seq<byte>, mem1: seq<byte>)
      requires Asked(w) && Asked(r) && r == w.(es := r.es, bx := r.bx)
      requires Wrote(w, mem0, disk0, disk1) && GotBack(r, disk1, mem0, mem1)
      ensures Arrived(mem0, mem1, Linear(w.es, w.bx), Linear(r.es, r.bx), (w.al as int) * 512)
    {
      WriteThenRead(mem0, disk0, disk1, mem1, First(w), w.al, Linear(w.es, w.bx), Linear(r.es, r.bx));
    }

    /** A write and then a read of the same sectors, by two INT 13h calls: if both succeed
        one buffer has been copied to the other, by way of the disk. */
    method WriteAndRead(w: Request, r: Request, startW: Startup, startR: Startup, goodW: nat, goodR: nat)
      returns (failed: bool)
      requires Asked(w) && Asked(r) && r == w.(es := r.es, bx := r.bx)
      modifies this, tf, mem, disk
      ensures failed == !(Succeeds(w, startW, goodW) && Succeeds(r, startR, goodR))
      ensures !failed ==>
                && Arrived(old(mem[..]), mem[..], Linear(w.es, w.bx), Linear(r.es, r.bx), (w.al as int) * 512)
                && Wrote(w, old(mem[..]), old(disk[..]), disk[..])
    {
      ghost var mem0, disk0 := mem[..], disk[..];
      failed := WriteSectors(w, startW, goodW);
      if failed {
        return;
      }
      ghost var disk1 := disk[..];
      failed := ReadSectors(r, startR, goodR);
      if failed {
        return;
      }
      WrittenAndRead(w, r, mem0, disk0, disk1, mem[..]);
    }

    /** Function 03 on an accepted request. */
    method WriteSectors(w: Request, startup: Startup, good: nat) returns (failed: bool)
      requires Asked(w)
      modifies this, tf, mem, disk
      ensures failed == !Succeeds(w, startup, good)
      ensures !failed ==> mem[..] == old(mem[..]) && Wrote(w, mem[..], old(disk[..]), disk[..])
    {
      var cf, status, al := Int13(3, w, startup, good);
      failed := cf;
    }

    /** Function 02 on an accepted request. */
    method ReadSectors(r: Request, startup: Startup, good: nat) returns (failed: bool)
      requires Asked(r)
      modifies this, tf, mem, disk
      ensures failed == !Succeeds(r, startup, good)
      ensures !failed ==> disk[..] == old(disk[..]) && GotBack(r, disk[..], old(mem[..]), mem[..])
    {
      var cf, status, al := Int13(2, r, startup, good);
      failed := cf;
    }
  }

  /** n bytes have been copied from one buffer of memory to another, and nothing else changed. */
  ghost predicate Arrived(was: seq<byte>, now: seq<byte>, source: nat, target: nat, n: nat) {
    && |now| == |was| && source + n <= |was| && target + n <= |was|
    && now == Splice(was, target, was[source..source + n])
  }

  /** Detects the geometry of a drive and sets it up: no request that is accepted then
      leaves the drive. */
  method Attach(t: Translation, p: Geometry, sectors: nat, mem: array<byte>, disk: array<byte>, slave: bool,
                pio32: bool)
    returns (d: Drive)
    requires PhysicalOk(p) && sectors < TWO_32 && mem != disk && mem.Length >= ADDRESS_SPACE
    requires (if t == Lba then sectors else Capacity(p)) * 512 <= disk.Length
    ensures fresh(d) && d.Valid() && d.mem == mem && d.disk == disk && d.p == p && d.l == Translate(t, p, sectors)
  {
    var l := DetectGeometry(t, p, sectors);
    TranslateFits(t, p, sectors);
    d := new Drive(mem, disk, p, l, slave, pio32);
  }
}
