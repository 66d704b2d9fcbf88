/**
 Reading an emulated floppy or hard disk from a CD: 512-byte virtual sectors of
 an image that lies on 2048-byte CD sectors.
 */
module CdEmulation {
  import opened Words
  import opened Machine
  import opened AtaPacket
  import opened Arith

  // 24 bits of sector numbers above the image start, far beyond any accepted address
  const MAX_ILBA := 0xff00_0000

  /** The geometries the boot code stores: three floppy formats, or byte-sized
      head and 6-bit sector fields of a partition entry. */
  predicate GeometryOk(g: Geometry) {
    g.heads <= 256 && g.spt <= 63
  }

  // ---------- the request ----------

  function Cylinder(r: Request): nat { r.cl / 64 * 256 + r.ch }
  function Sector(r: Request): nat { r.cl % 64 }

  predicate Accepted(g: Geometry, r: Request) {
    Sector(r) <= g.spt && Cylinder(r) < g.cylinders && r.dh < g.heads
  }

  /** The sector of the image the request starts at, in the code's 16- and
      32-bit arithmetic. */
  function Vlba(g: Geometry, r: Request): nat {
    U32(U32(U32(Cylinder(r) * g.heads) + r.dh) * g.spt) + U16(Sector(r) - 1)
  }

  /** The position of a sector in the order cylinder, head, sector (from 1). */
  function ChsIndex(g: Geometry, r: Request): int {
    (Cylinder(r) * g.heads + r.dh) * g.spt + Sector(r) - 1
  }

  lemma TrackBound(c: nat, h: nat, head: nat, s: nat)
    requires c < 1024 && head < h <= 256 && s <= 63
    ensures 0 <= c * h + head < 0x4_0000 && 0 <= c * h
    ensures 0 <= (c * h + head) * s <= 0xfb_ffc1
  {
    MulMono(c + 1, 1024, h);
    Distribute(h, c, 1);
    MulMono(c * h + head, 0x3_ffff, s);
    MulMono(s, 63, 0x3_ffff);
  }

  /** The code reads the sector that was asked for exactly when sector numbers
      start from one: it does not reject sector 0. */
  lemma VlbaIsChsIndex(g: Geometry, r: Request)
    requires GeometryOk(g) && Accepted(g, r)
    ensures Vlba(g, r) == ChsIndex(g, r) <==> Sector(r) >= 1
    ensures Sector(r) == 0 ==> Vlba(g, r) == ChsIndex(g, r) + 0x1_0000
    ensures Vlba(g, r) < 0xfd_0000
  {
    TrackBound(Cylinder(r), g.heads, r.dh, g.spt);
    var t := Cylinder(r) * g.heads + r.dh;
    assert Vlba(g, r) == t * g.spt + U16(Sector(r) - 1);
  }

  /** A cylinder, head and sector in the registers of INT 13h: the request is accepted
      exactly when all three lie in the geometry, sector 0 included, and from sector 1
      on it starts at the sector of that address. */
  lemma AcceptedExactly(g: Geometry, r: Request, c: nat, h: nat, s: nat)
    requires GeometryOk(g) && c < 1024 && h < 256 && s < 64
    requires r.ch == c % 256 && r.cl == c / 256 * 64 + s && r.dh == h
    ensures Accepted(g, r) <==> c < g.cylinders && h < g.heads && s <= g.spt
    ensures Accepted(g, r) ==> Vlba(g, r) == (c * g.heads + h) * g.spt + (if s >= 1 then s - 1 else 0xffff)
  {
    AddressFields(c, s);
    assert Cylinder(r) == c && Sector(r) == s;
    if Accepted(g, r) {
      VlbaIsChsIndex(g, r);
    }
  }

  lemma AddressFields(c: nat, s: nat)
    requires c < 1024 && s < 64
    ensures (c / 256 * 64 + s) / 64 * 256 + c % 256 == c && (c / 256 * 64 + s) % 64 == s
  {
  }

  /** Every request is the request for some cylinder, head and sector. */
  lemma RequestFields(r: Request) returns (c: nat, h: nat, s: nat)
    ensures c < 1024 && h < 256 && s < 64
    ensures r.ch == c % 256 && r.cl == c / 256 * 64 + s && r.dh == h
  {
    c, h, s := r.cl / 64 * 256 + r.ch, r.dh, r.cl % 64;
  }

  // ---------- the CD drive ----------

  function Octet(x: nat, shift: nat): byte
    requires shift > 0
  {
    x / shift % 256
  }

  /** READ(10): opcode, address, and length, high byte first. */
  function ReadCommand(lba: nat, sectors: nat): (r: seq<byte>)
    ensures |r| == 12
  {
    [0x28, 0,
     Octet(lba, 0x100_0000), Octet(lba, 0x1_0000), Octet(lba, 0x100), Octet(lba, 1),
     0, Octet(sectors, 0x100), Octet(sectors, 1), 0, 0, 0]
  }

  function CommandLba(cmd: seq<byte>): nat
    requires |cmd| == 12
  {
    (cmd[2] as int) * 0x100_0000 + (cmd[3] as int) * 0x1_0000 + (cmd[4] as int) * 0x100 + cmd[5]
  }

  function CommandSectors(cmd: seq<byte>): nat
    requires |cmd| == 12
  {
    (cmd[7] as int) * 0x100 + cmd[8]
  }

  /** READ(10) as the MultiMedia Commands define it: opcode 28h, the address in bytes 2
      to 5 and the length in bytes 7 and 8, and nothing else set. */
  predicate Reads(cmd: seq<byte>, lba: nat, sectors: nat) {
    && |cmd| == 12 && cmd[0] == 0x28
    && (((cmd[2] as int) * 256 + cmd[3]) * 256 + cmd[4]) * 256 + cmd[5] == lba
    && (cmd[7] as int) * 256 + cmd[8] == sectors
    && cmd[1] == cmd[6] == cmd[9] == cmd[10] == cmd[11] == 0
  }

  lemma CommandDecodes(lba: nat, sectors: nat)
    requires lba < TWO_32 && sectors < 0x1_0000
    ensures CommandLba(ReadCommand(lba, sectors)) == lba
    ensures CommandSectors(ReadCommand(lba, sectors)) == sectors
    ensures Reads(ReadCommand(lba, sectors), lba, sectors)
  {
    assert lba == lba / 0x100 * 0x100 + lba % 0x100;
    assert lba / 0x100 == lba / 0x1_0000 * 0x100 + lba / 0x100 % 0x100;
    assert lba / 0x1_0000 == lba / 0x100_0000 * 0x100 + lba / 0x1_0000 % 0x100;
  }

  predicate OnDisc(disc: seq<byte>, lba: nat, sectors: nat) {
    (lba + sectors) * 2048 <= |disc|
  }

  /** The sectors a command names. */
  function CdSectors(disc: seq<byte>, lba: nat, sectors: nat): seq<byte>
    requires OnDisc(disc, lba, sectors)
  {
    disc[lba * 2048..(lba + sectors) * 2048]
  }

  /** A drive may cut what it sends into blocks as it likes, and break off. */
  ghost predicate Sends(send: seq<byte> -> seq<seq<byte>>) {
    forall s :: SendOk(send, s)
  }

  ghost predicate SendOk(send: seq<byte> -> seq<seq<byte>>, s: seq<byte>) {
    |s| % 2 == 0 ==> BlocksOk(send(s)) && Flatten(send(s)) <= s
  }

  function SendNothing(s: seq<byte>): seq<seq<byte>> { [] }

  // ---------- composing the address computation with the packet engine ----------

  lemma SliceOfSlice(s: seq<byte>, a: nat, b: nat, c: nat, d: nat)
    requires a <= b <= |s| && c <= d <= b - a
    ensures s[a..b][c..d] == s[a + c..a + d]
  {
    var l, r := s[a..b][c..d], s[a + c..a + d];
    forall i | 0 <= i < d - c
      ensures l[i] == r[i]
    {
    }
    assert l == r;
  }

  /** Image sectors v .. v+n-1 are the window that starts b virtual sectors into
      CD sector q, where v == 4 * q + b, and ends in CD sector e. */
  lemma SectorsCompose(disc: seq<byte>, ilba: nat, v: nat, n: nat, q: nat, b: nat, e: nat)
    requires v == 4 * q + b && b < 4 && 1 <= n && 4 * e <= v + n - 1 < 4 * e + 4
    requires OnDisc(disc, ilba + q, e - q + 1)
    ensures ilba * 2048 + (v + n) * 512 <= |disc|
    ensures var stream := CdSectors(disc, ilba + q, e - q + 1);
      && |stream| == (e - q + 1) * 2048
      && Counted(|stream|, b * 512, n * 512) == n * 512
      && Window(stream, b * 512, n * 512) == disc[ilba * 2048 + v * 512..ilba * 2048 + (v + n) * 512]
  {
    var stream := CdSectors(disc, ilba + q, e - q + 1);
    var first := (ilba + q) * 2048;
    assert first + b * 512 == ilba * 2048 + v * 512;
    assert b * 512 + n * 512 <= |stream|;
    Twice(n * 512, n * 256);
    assert Window(stream, b * 512, n * 512) == stream[b * 512..b * 512 + n * 512];
    SliceOfSlice(disc, first, (ilba + e + 1) * 2048, b * 512, b * 512 + n * 512);
  }

  /** The window of the part that arrived is the first part of the window. */
  lemma WindowPrefix(part: seq<byte>, stream: seq<byte>, header: nat, length: nat)
    requires part <= stream && length % 2 == 0
    ensures var m := Counted(|part|, header, length);
      m <= Counted(|stream|, header, length) <= |Window(stream, header, length)|
      && Window(part, header, length) == Window(stream, header, length)[..m]
  {
    var m := Counted(|part|, header, length);
    assert Even(length) == length;
    if |part| > header {
      var all := Counted(|stream|, header, length);
      assert Window(part, header, length) == part[header..header + m];
      assert Window(stream, header, length) == stream[header..header + all];
      PrefixSlice(part, stream, header, m, all);
    } else {
      assert Window(part, header, length) == [];
    }
  }

  lemma PrefixSlice(part: seq<byte>, stream: seq<byte>, a: nat, m: nat, n: nat)
    requires part <= stream && a + m <= |part| && m <= n && a + n <= |stream|
    ensures part[a..a + m] == stream[a..a + n][..m]
  {
    SliceOfSlice(stream, a, a + n, 0, m);
  }

  class CdFloppy {
    const driver: AtaDriver
    const g: Geometry
    const ilba: nat
    const disc: seq<byte>

    constructor (driver: AtaDriver, g: Geometry, ilba: nat, disc: seq<byte>)
      ensures this.driver == driver && this.g == g && this.ilba == ilba && this.disc == disc
    {
      this.driver, this.g, this.ilba, this.disc := driver, g, ilba, disc;
    }

    /** The CD sectors that hold n image sectors from v on lie on the disc. */
    predicate Readable(v: nat, n: nat)
      requires n >= 1
    {
      OnDisc(disc, FirstCd(v), CountCd(v, n))
    }

    /** The first CD sector read for n image sectors from v on, and how many. */
    function FirstCd(v: nat): nat { ilba + v / 4 }

    function CountCd(v: nat, n: nat): nat
      requires n >= 1
    {
      (v + n - 1) / 4 - v / 4 + 1
    }

    function ImageStart(v: nat): nat { ilba * 2048 + v * 512 }

    /** They do exactly when the CD sector with the last of them does, counted in whole CD
        sectors from the start of the image. */
    lemma ReadableExactly(v: nat, n: nat)
      requires n >= 1
      ensures Readable(v, n) <==> ilba * 2048 + ((v + n - 1) / 4 + 1) * 2048 <= |disc|
      ensures Readable(v, n) <==> forall i: nat :: v <= i < v + n ==> (ilba + i / 4) * 2048 + 2048 <= |disc|
    {
    }

    /** No step of the sector arithmetic wraps around. */
    static lemma SectorRange(ilba: nat, vlba: nat, n: nat)
      requires ilba < MAX_ILBA && vlba < 0xfd_0000 && 1 <= n <= 255
      ensures U32(vlba + n - 1) == vlba + n - 1 && U32(ilba + vlba / 4) == ilba + vlba / 4
      ensures 0 <= (vlba + n - 1) / 4 - vlba / 4 <= 64
    {
    }

    /** The CD sectors that hold n image sectors from v on. */
    function Wanted(v: nat, n: nat): seq<byte>
      requires n >= 1 && Readable(v, n)
    {
      CdSectors(disc, FirstCd(v), CountCd(v, n))
    }

    /** The part of the sectors read that is delivered. */
    lemma ImageSlice(v: nat, n: nat)
      requires 1 <= n && Readable(v, n)
      ensures ImageStart(v + n) <= |disc| && n * 512 % 2 == 0
      ensures Counted(|Wanted(v, n)|, v % 4 * 512, n * 512) == n * 512
      ensures Window(Wanted(v, n), v % 4 * 512, n * 512) == disc[ImageStart(v)..ImageStart(v) + n * 512]
    {
      SectorsCompose(disc, ilba, v, n, v / 4, v % 4, (v + n - 1) / 4);
      Twice(n * 512, n * 256);
    }

    /** Of these, what arrives. */
    function Arrived(send: seq<byte> -> seq<seq<byte>>, v: nat, n: nat): seq<byte>
      requires n >= 1 && Readable(v, n)
    {
      Flatten(send(Wanted(v, n)))
    }

    /** The image bytes that are delivered are the first of those asked for. */
    lemma ArrivedSlice(send: seq<byte> -> seq<seq<byte>>, v: nat, n: nat)
      requires Sends(send) && n >= 1 && Readable(v, n)
      ensures var m := Counted(|Arrived(send, v, n)|, v % 4 * 512, n * 512);
        && m <= n * 512 && ImageStart(v) + m <= ImageStart(v + n) <= |disc|
        && Window(Arrived(send, v, n), v % 4 * 512, n * 512) == disc[ImageStart(v)..ImageStart(v) + m]
        && (m == n * 512 <==> |Arrived(send, v, n)| >= v % 4 * 512 + n * 512)
        && (Arrived(send, v, n) == Wanted(v, n) ==> m == n * 512)
    {
      ImageSlice(v, n);
      ArrivedPart(send, FirstCd(v), CountCd(v, n));
      PartSlice(Arrived(send, v, n), Wanted(v, n), v % 4 * 512, n * 512, ImageStart(v));
      CountedAll(|Arrived(send, v, n)|, v % 4 * 512, n * 512);
    }

    /** A drive that completes without sending anything delivers nothing of what was asked
        for. */
    lemma NothingArrives(v: nat, n: nat)
      requires n >= 1 && Readable(v, n)
      ensures Sends(SendNothing) && Counted(|Arrived(SendNothing, v, n)|, v % 4 * 512, n * 512) == 0
    {
    }

    lemma ArrivedPart(send: seq<byte> -> seq<seq<byte>>, lba: nat, sectors: nat)
      requires Sends(send) && OnDisc(disc, lba, sectors)
      ensures Flatten(send(CdSectors(disc, lba, sectors))) <= CdSectors(disc, lba, sectors)
      ensures BlocksOk(send(CdSectors(disc, lba, sectors)))
    {
      assert SendOk(send, CdSectors(disc, lba, sectors));
      Twice(|CdSectors(disc, lba, sectors)|, sectors * 1024);
    }

    lemma PartSlice(part: seq<byte>, stream: seq<byte>, header: nat, length: nat, at: nat)
      requires part <= stream && length % 2 == 0 && at + length <= |disc|
      requires Counted(|stream|, header, length) == length && Window(stream, header, length) == disc[at..at + length]
      ensures var m := Counted(|part|, header, length);
        m <= length && Window(part, header, length) == disc[at..at + m]
    {
      WindowPrefix(part, stream, header, length);
      SliceOfSlice(disc, at, at + length, 0, Counted(|part|, header, length));
    }

    /** Reads n image sectors from v on, by one packet command.  The drive fails a
        command that runs off the disc; whatever it does, the bytes delivered are the
        first of those asked for, and trsfbytes counts them. */
    method Fetch(vlba: nat, nbsectors: nat, segment: word, offset: word,
                 send: seq<byte> -> seq<seq<byte>>, startup: Startup, ending: Ending)
      returns (status: nat)
      requires Sends(send) && ilba < MAX_ILBA && vlba < 0xfd_0000 && 1 <= nbsectors <= 255
      requires driver.mem.Length >= ADDRESS_SPACE
      requires Linear(segment, offset) + nbsectors * 512 <= ADDRESS_SPACE
      requires driver.port.fifo == []
      modifies driver, driver.mem, driver.port
      ensures driver.port.fifo == []
      ensures (status == 0) == (startup.Idle? && Readable(vlba, nbsectors) && ending == Completed(true))
      ensures !(startup.Idle? && Readable(vlba, nbsectors)) ==> driver.mem[..] == old(driver.mem[..])
      ensures startup.Idle? && Readable(vlba, nbsectors) ==>
                Received(old(driver.mem[..]), Linear(segment, offset), send, vlba, nbsectors)
    {
      var lba, sectors, before := CdRange(vlba, nbsectors);
      status := SendRead(lba, sectors, before * 512, nbsectors * 512, segment, offset, send, startup, ending);
      if startup.Idle? && Readable(vlba, nbsectors) {
        ArrivedSlice(send, vlba, nbsectors);
        ImageDelivered(old(driver.mem[..]), driver.mem[..], Linear(segment, offset), send, vlba, nbsectors,
                       driver.trsfbytes);
      }
    }

    /** The CD sectors to read and how many image sectors to drop before the first. */
    method CdRange(vlba: nat, nbsectors: nat) returns (lba: nat, sectors: nat, before: nat)
      requires ilba < MAX_ILBA && vlba < 0xfd_0000 && 1 <= nbsectors <= 255
      ensures lba == FirstCd(vlba) < TWO_32 && sectors == CountCd(vlba, nbsectors) <= 65 && before == vlba % 4
    {
      SectorRange(ilba, vlba, nbsectors);
      var slba := vlba / 4;
      var elba := U32(vlba + nbsectors - 1) / 4;
      lba := U32(ilba + slba);
      sectors := elba - slba + 1;
      before := vlba % 4;
    }

    /** What a read that got as far as the data phase leaves behind. */
    ghost predicate Received(was: seq<byte>, at: nat, send: seq<byte> -> seq<seq<byte>>, v: nat, n: nat)
      requires n >= 1 && Readable(v, n)
      reads driver, driver.mem
    {
      Image(was, driver.mem[..], at, send, v, n, driver.trsfbytes)
    }

    /** The first m of the image bytes asked for were delivered. */
    ghost predicate Image(was: seq<byte>, now: seq<byte>, at: nat, send: seq<byte> -> seq<seq<byte>>, v: nat, n: nat,
                          m: nat)
      requires n >= 1 && Readable(v, n)
    {
      && m <= n * 512 && ilba * 2048 + (v + n) * 512 <= |disc| && at + m <= |was|
      && (m == n * 512 <==> |Arrived(send, v, n)| >= v % 4 * 512 + n * 512)
      && (Arrived(send, v, n) == Wanted(v, n) ==> m == n * 512)
      && now == Splice(was, at, disc[ilba * 2048 + v * 512..ilba * 2048 + v * 512 + m])
    }

    lemma ImageDelivered(was: seq<byte>, now: seq<byte>, at: nat, send: seq<byte> -> seq<seq<byte>>, v: nat, n: nat,
                         m: nat)
      requires Sends(send) && n >= 1 && Readable(v, n) && at + n * 512 <= |was|
      requires m == Counted(|Arrived(send, v, n)|, v % 4 * 512, n * 512)
      requires |Window(Arrived(send, v, n), v % 4 * 512, n * 512)| <= n * 512
      requires now == Splice(was, at, Window(Arrived(send, v, n), v % 4 * 512, n * 512))
      ensures Image(was, now, at, send, v, n, m)
    {
      ArrivedSlice(send, v, n);
    }

    method BuildCommand(lba: nat, sectors: nat) returns (cmd: seq<byte>)
      requires lba < TWO_32 && sectors < 0x1_0000
      ensures |cmd| == 12 && CommandLba(cmd) == lba && CommandSectors(cmd) == sectors && Reads(cmd, lba, sectors)
    {
      cmd := ReadCommand(lba, sectors);
      CommandDecodes(lba, sectors);
    }

    /** Builds the READ(10) command and runs it. */
    method SendRead(lba: nat, sectors: nat, header: word, length: nat, segment: word, offset: word,
                    send: seq<byte> -> seq<seq<byte>>, startup: Startup, ending: Ending)
      returns (status: nat)
      requires Sends(send) && lba < TWO_32 && sectors < 0x1_0000 && header % 2 == length % 2 == 0
      requires length < TWO_32 && driver.mem.Length >= ADDRESS_SPACE
      requires Linear(segment, offset) + length <= ADDRESS_SPACE
      requires driver.port.fifo == []
      modifies driver, driver.mem, driver.port
      ensures driver.port.fifo == []
      ensures (status == 0) == (startup.Idle? && OnDisc(disc, lba, sectors) && ending == Completed(true))
      ensures !(startup.Idle? && OnDisc(disc, lba, sectors)) ==> driver.mem[..] == old(driver.mem[..])
      ensures startup.Idle? && OnDisc(disc, lba, sectors) ==>
                var part := Flatten(send(CdSectors(disc, lba, sectors)));
                && driver.trsfbytes == Counted(|part|, header, length)
                && driver.mem[..] == Splice(old(driver.mem[..]), Linear(segment, offset),
                                            Window(part, header, length))
    {
      var cmd := BuildCommand(lba, sectors);
      if OnDisc(disc, CommandLba(cmd), CommandSectors(cmd)) {
        var wanted := CdSectors(disc, CommandLba(cmd), CommandSectors(cmd));
        ArrivedPart(send, CommandLba(cmd), CommandSectors(cmd));
        status := driver.AtaCmdPacket(startup, send(wanted), ending, header, length, segment, offset);
      } else {
        status := driver.AtaCmdPacket(startup, [], Failed, header, length, segment, offset);
        assert Window([], header, length) == [];
        SpliceNothing(old(driver.mem[..]), Linear(segment, offset), []);
      }
    }

    /** The buffer with whole paragraphs moved to the segment. */
    method BufferAddress(es: word, bx: word) returns (segment: word, offset: word)
      requires Linear(es, bx) < ADDRESS_SPACE
      ensures Linear(segment, offset) == Linear(es, bx)
    {
      segment := U16(es + bx / 16);
      offset := bx % 16;
    }

    /** The sector of the image, in 16- and 32-bit arithmetic. */
    method VirtualSector(r: Request) returns (vlba: nat)
      requires GeometryOk(g) && Accepted(g, r)
      ensures vlba == Vlba(g, r) < 0xfd_0000
    {
      var sector, cylinder := r.cl % 64, (r.cl as int) / 64 * 256 + r.ch;
      VlbaIsChsIndex(g, r);
      vlba := U32(U32(U32(cylinder * g.heads) + r.dh) * g.spt) + U16(sector - 1);
    }

    /** Function 02 of INT 13h for the emulated drive; `send`, `startup` and `ending` are
        the drive's answers. */
    method ReadSectors(r: Request, send: seq<byte> -> seq<seq<byte>>, startup: Startup, ending: Ending)
      returns (cf: bool, ah: byte, al: byte)
      requires GeometryOk(g) && Sends(send) && ilba < MAX_ILBA
      requires driver.mem.Length >= ADDRESS_SPACE && Linear(r.es, r.bx) + (r.al as int) * 512 <= ADDRESS_SPACE
      requires driver.port.fifo == []
      modifies driver, driver.mem, driver.port
      ensures driver.port.fifo == []
      ensures r.al == 0 ==> !cf && ah == 0 && driver.mem[..] == old(driver.mem[..])
      ensures r.al != 0 && !Accepted(g, r) ==> cf && ah == 1 && driver.mem[..] == old(driver.mem[..])
      ensures cf && ah == 1 <==>
                r.al != 0 && (r.cl % 64 > g.spt || r.cl / 64 * 256 + r.ch >= g.cylinders || r.dh >= g.heads)
      ensures r.al != 0 && Accepted(g, r) ==>
                cf == !(startup.Idle? && Readable(Vlba(g, r), r.al) && ending == Completed(true))
      ensures r.al != 0 && Accepted(g, r) && cf ==> ah == 2 && al == 0
      ensures !cf ==> ah == 0 && al == r.al
      ensures r.al != 0 && Accepted(g, r) ==>
                if startup.Idle? && Readable(Vlba(g, r), r.al)
                then Received(old(driver.mem[..]), Linear(r.es, r.bx), send, Vlba(g, r), r.al)
                else driver.mem[..] == old(driver.mem[..])
    {
      al := r.al;
      var sector, cylinder := r.cl % 64, (r.cl as int) / 64 * 256 + r.ch;
      var nbsectors: nat := r.al;
      if nbsectors == 0 {
        return false, 0, al;
      }
      if sector > g.spt || cylinder >= g.cylinders || r.dh >= g.heads {
        return true, 1, al;
      }
      var segment, offset := BufferAddress(r.es, r.bx);
      var vlba := VirtualSector(r);
      var status := Fetch(vlba, nbsectors, segment, offset, send, startup, ending);
      if status != 0 {
        return true, 2, 0;
      }
      return false, 0, al;
    }
  }
}
