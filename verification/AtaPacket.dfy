/**
 The ATAPI packet command: of the byte stream a device sends, in blocks of its
 own choosing, drop a header, keep a length, drop the rest.
 */
module AtaPacket {
  import opened Words
  import opened Machine

  const MAX_BLOCK := 0xfff0

  /** How the device answers before and after the data phase. */
  datatype Startup = Idle | Busy | Refused | NoRequest
  datatype Ending = Completed(ready: bool) | Failed

  /** The blocks a device may present: even, and within the byte count limit. */
  predicate BlocksOk(blocks: seq<seq<byte>>) {
    forall k :: 0 <= k < |blocks| ==> |blocks[k]| % 2 == 0 && |blocks[k]| <= MAX_BLOCK
  }

  function Over(n: int, m: int): nat { if n > m then n - m else 0 }

  function Even(n: nat): nat { n + n % 2 }

  /** The elements of s at positions a .. b-1, as far as s reaches. */
  function Clip(s: seq<byte>, a: nat, b: nat): (r: seq<byte>)
    requires a <= b
    ensures |r| == Min(b, |s|) - Min(a, |s|)
  {
    s[Min(a, |s|)..Min(b, |s|)]
  }

  lemma ClipGrows(s: seq<byte>, t: seq<byte>, a: nat, b: nat)
    requires a <= b
    ensures Clip(s + t, a, b) == Clip(s, a, b) + Clip(t, Over(a, |s|), Over(b, |s|))
  {
    var l, r := Clip(s + t, a, b), Clip(s, a, b) + Clip(t, Over(a, |s|), Over(b, |s|));
    assert |l| == |r|;
    forall i | 0 <= i < |l|
      ensures l[i] == r[i]
    {
    }
  }

  /** Of the first n stream bytes, how many are counted as transferred. */
  function Counted(n: nat, header: nat, length: nat): nat {
    Min(length, Over(n, header))
  }

  /** The stream bytes that reach memory: the engine moves whole words. */
  function Window(stream: seq<byte>, header: nat, length: nat): seq<byte> {
    Clip(stream, header, header + Even(length))
  }

  /** Exactly `length` bytes are delivered, or all there are, unless the length is odd
      and the stream goes on behind it. */
  lemma WindowExact(stream: seq<byte>, header: nat, length: nat)
    requires |stream| % 2 == header % 2 == 0
    ensures Window(stream, header, length) == Clip(stream, header, header + length)
            <==> length % 2 == 0 || |stream| <= header + length
  {
    if length % 2 == 1 && |stream| > header + length {
      assert |Window(stream, header, length)| == |Clip(stream, header, header + length)| + 1;
    }
  }

  /** What is delivered and what is counted, for each place the stream may end. */
  lemma WindowSlices(stream: seq<byte>, header: nat, length: nat)
    ensures |stream| <= header ==> Window(stream, header, length) == [] && Counted(|stream|, header, length) == 0
    ensures header <= |stream| <= header + length ==>
              Window(stream, header, length) == stream[header..]
              && Counted(|stream|, header, length) == |stream| - header
    ensures |stream| > header + length ==>
              Window(stream, header, length) == stream[header..header + length + length % 2]
              && Counted(|stream|, header, length) == length
  {
    assert |stream| > header + length ==> header + Even(length) <= |stream|;
  }

  lemma CountedAll(n: nat, header: nat, length: nat)
    requires length >= 1
    ensures Counted(n, header, length) == length <==> n >= header + length
  {
  }

  /** One byte asked for, two delivered. */
  lemma OneByteTooMany()
    ensures Window([7, 8], 0, 1) == [7, 8] && Clip([7, 8], 0, 1) == [7]
  {
  }

  lemma {:induction false} EvenStream(blocks: seq<seq<byte>>)
    requires BlocksOk(blocks)
    ensures |Flatten(blocks)| % 2 == 0
  {
    if blocks != [] {
      EvenStream(blocks[..|blocks| - 1]);
    }
  }

  lemma EvenOver(l: nat, r: nat)
    requires r % 2 == 0
    ensures Even(Over(l, r)) == Over(Even(l), r)
    ensures Even(Min(l, r)) == Min(Even(l), r)
  {
  }

  /** The engine's counters after n stream bytes: header left to drop, data left
      to deliver, data delivered. */
  datatype Counters = Counters(n: nat, h: nat, left: nat, transfer: nat)

  ghost predicate CountersOk(c: Counters, header: nat, length: nat) {
    && c.n % 2 == 0 && header % 2 == 0
    && c.h == Over(header, c.n) && c.transfer == Counted(c.n, header, length) && c.left == length - c.transfer
    && c.h + Even(c.left) == Over(header + Even(length), c.n)
    && (c.left > 0 ==> c.transfer == Over(c.n, header))
  }

  function NextCounters(c: Counters, m: nat): Counters {
    var count := Min(c.left, m - Min(c.h, m));
    Counters(c.n + m, c.h - Min(c.h, m), c.left - count, c.transfer + count)
  }

  lemma CountersAdvance(c: Counters, m: nat, header: nat, length: nat)
    requires CountersOk(c, header, length) && m % 2 == 0
    ensures CountersOk(NextCounters(c, m), header, length)
  {
    if m > c.h {
      DataAdvances(c, m, header, length);
    }
  }

  lemma DataAdvances(c: Counters, m: nat, header: nat, length: nat)
    requires CountersOk(c, header, length) && m % 2 == 0 && m > c.h
    ensures CountersOk(NextCounters(c, m), header, length)
  {
    var more := m - c.h;
    EvenSum(c.n, m);
    OverPast(c.n, m, header);
    EvenPast(c.n, m, header);
    EvenLeft(header + Even(length), c.n, c.h, c.left, more);
    Deliver(length, Over(c.n, header), more, c.transfer, c.left);
  }

  lemma EvenSum(n: nat, m: nat)
    requires n % 2 == m % 2 == 0
    ensures (n + m) % 2 == 0 && (n - m) % 2 == 0
  {
    assert n == 2 * (n / 2) && m == 2 * (m / 2);
    Twice(n + m, n / 2 + m / 2);
    Twice(n - m, n / 2 - m / 2);
  }

  lemma Twice(n: int, k: int)
    requires n == 2 * k
    ensures n % 2 == 0
  {
  }

  /** Header and rest of an even block are even. */
  lemma EvenCut(header: nat, size: nat)
    requires header % 2 == size % 2 == 0
    ensures Min(header, size) % 2 == 0 && (size - Min(header, size)) % 2 == 0
  {
    var b := Min(header, size);
    if header < size {
      assert b == header;
    } else {
      assert b == size;
    }
    EvenSum(size, b);
  }

  /** Two parts of an even whole are odd together. */
  lemma EvenParts(count: nat, tail: nat)
    requires (count + tail) % 2 == 0
    ensures count % 2 == tail % 2 && (count % 2 == 1 ==> tail >= 1 && (count + 1) % 2 == (tail - 1) % 2 == 0)
  {
  }

  lemma OverTwice(t: nat, n: nat, m: nat)
    ensures Over(t, n + m) == Over(Over(t, n), m)
  {
  }

  /** What is left before the end t of the window, to a whole word. */
  lemma EvenLeft(t: nat, n: nat, h: nat, left: nat, more: nat)
    requires h + Even(left) == Over(t, n) && more % 2 == 0
    ensures Even(Over(left, more)) == Over(t, n + (h + more))
  {
    OverTwice(t, n, h + more);
    EvenOver(left, more);
  }

  /** A block that reaches past the header. */
  lemma OverPast(n: nat, m: nat, header: nat)
    requires m > Over(header, n)
    ensures Over(header, n + m) == 0 && Over(n + m, header) == Over(n, header) + (m - Over(header, n))
  {
  }

  lemma EvenPast(n: nat, m: nat, header: nat)
    requires n % 2 == 0 && m % 2 == 0 && header % 2 == 0 && m > Over(header, n)
    ensures (m - Over(header, n)) % 2 == 0
  {
    if header > n {
      EvenSum(header, n);
      EvenSum(m, header - n);
    }
  }

  /** Of `more` bytes behind the header as much is delivered as is left. */
  lemma Deliver(length: nat, past: nat, more: nat, transfer: nat, left: nat)
    requires transfer == Min(length, past) && left == length - transfer
    ensures transfer + Min(left, more) == Min(length, past + more)
    ensures left - Min(left, more) == Over(left, more)
    ensures left > Min(left, more) ==> transfer + Min(left, more) == past + more
  {
  }

  /** Writing what the next block adds behind what was written so far. */
  lemma MemoryGrows(m: seq<byte>, base: nat, stream: seq<byte>, block: seq<byte>, a: nat, b: nat)
    requires a <= b && base + b - a <= |m|
    ensures var part := Clip(stream, a, b);
      var piece := Clip(block, Over(a, |stream|), Over(b, |stream|));
      && base + |part| + |piece| <= |m|
      && Splice(m, base, Clip(stream + block, a, b)) == Splice(Splice(m, base, part), base + |part|, piece)
  {
    ClipGrows(stream, block, a, b);
    SpliceTwice(m, base, Clip(stream, a, b), Clip(block, Over(a, |stream|), Over(b, |stream|)));
  }

  /** The part of a block between header and tail is what the clip names. */
  lemma ClipCut(block: seq<byte>, header: nat, length: nat)
    requires |block| % 2 == 0 && header % 2 == 0
    ensures var b := Min(header, |block|);
      var c := Even(Min(length, |block| - b));
      b + c <= |block| && Clip(block, header, header + Even(length)) == block[b..][..c]
  {
    EvenOver(length, |block| - Min(header, |block|));
  }

  class AtaDriver {
    const mem: array<byte>
    const pio32: bool
    const port: DataPort
    var trsfsectors: nat
    var trsfbytes: nat

    constructor (mem: array<byte>, pio32: bool)
      ensures this.mem == mem && this.pio32 == pio32 && fresh(port) && port.fifo == []
    {
      this.mem := mem;
      this.pio32 := pio32;
      port := new DataPort([]);
      trsfsectors, trsfbytes := 0, 0;
    }

    /** Cuts a block of the given size at the end of the header and of the data. */
    method CutBlock(size: word, header: word, length: nat)
      returns (lbefore: word, lcount: word, lafter: word, newHeader: word, newLength: nat)
      ensures lbefore == Min(header, size) && newHeader == header - lbefore
      ensures lcount == Min(length, size - lbefore) && newLength == length - lcount
      ensures lafter == size - lbefore - lcount
    {
      lcount := size;
      if header > lcount {
        lbefore := lcount;
        newHeader := header - lcount;
        lcount := 0;
      } else {
        lbefore := header;
        newHeader := 0;
        lcount := lcount - lbefore;
      }
      if lcount > length {
        lafter := lcount - length;
        lcount := length;
        newLength := 0;
      } else {
        lafter := 0;
        newLength := length - lcount;
      }
    }

    /** Chooses double words where all three counts allow it, and moves an odd
        byte of the tail into the data. */
    method RoundCounts(lbefore: word, count: word, tail: word) returns (lcount: word, lafter: word, wide: bool)
      requires lbefore % 2 == 0 && (count + tail) % 2 == 0 && count + tail <= MAX_BLOCK
      ensures lcount == Even(count) && lcount + lafter == count + tail
      ensures lcount % 2 == lafter % 2 == 0
      ensures wide ==> lbefore % 4 == lcount % 4 == lafter % 4 == 0
    {
      EvenParts(count, tail);
      lcount, lafter := count, tail;
      wide := pio32;
      if lbefore % 4 != 0 { wide := false; }
      if lcount % 4 != 0 { wide := false; }
      if lafter % 4 != 0 { wide := false; }
      // an odd byte of data takes one of the tail along
      if lcount % 2 == 1 {
        lcount := lcount + 1;
        if lafter > 0 && lafter % 2 == 1 {
          lafter := lafter - 1;
        }
      }
    }

    /** Reads the `size` bytes the device announced: part of the header, part of the
        data, part of the tail.  `at` is the address of the data, if there is any. */
    method ReadBlock(size: word, header: word, length: nat, segment: word, offset: word, ghost at: nat)
      returns (newHeader: word, newLength: nat, count: nat)
      requires size % 2 == 0 && size <= MAX_BLOCK && size <= |port.fifo| && header % 2 == 0 && offset < 16
      requires at + |Clip(port.fifo[..size], header, header + Even(length))| <= mem.Length
      requires length > 0 ==> at == Linear(segment, offset)
      modifies mem, port
      ensures port.fifo == old(port.fifo)[size..]
      ensures newHeader == header - Min(header, size)
      ensures count == Min(length, size - Min(header, size)) && newLength == length - count
      ensures mem[..] == Splice(old(mem[..]), at, Clip(old(port.fifo)[..size], header, header + Even(length)))
    {
      ghost var block := port.fifo[..size];
      ClipCut(block, header, length);
      EvenCut(header, size);
      var b, n, tail;
      b, n, tail, newHeader, newLength := CutBlock(size, header, length);
      count := n;
      var c, a, wide := RoundCounts(b, n, tail);
      assert Clip(block, header, header + Even(length)) == block[b..][..c];
      MoveBlock(size, b, c, a, wide, segment, offset, at);
    }

    /** The port reads for one block: drop b bytes, store c, drop a. */
    method MoveBlock(ghost size: nat, b: word, c: word, a: word, wide: bool, segment: word, offset: word, ghost at: nat)
      requires b + c + a == size <= |port.fifo| && b % 2 == c % 2 == a % 2 == 0
      requires wide ==> b % 4 == c % 4 == a % 4 == 0
      requires at + c <= mem.Length && offset + c <= 0x1_0000
      requires c > 0 ==> at == Linear(segment, offset)
      modifies mem, port
      ensures port.fifo == old(port.fifo)[size..]
      ensures mem[..] == Splice(old(mem[..]), at, old(port.fifo)[..size][b..][..c])
    {
      ghost var s := port.fifo;
      Slices(s, b, c, a);
      Skip(b, wide);
      Keep(c, wide, segment, offset, at);
      assert port.fifo == s[b..][c..];
      Skip(a, wide);
    }

    /** Reads and forgets n bytes. */
    method Skip(n: word, wide: bool)
      requires n <= |port.fifo| && n % 2 == 0 && (wide ==> n % 4 == 0)
      modifies port
      ensures port.fifo == old(port.fifo)[n..]
    {
      var width := if wide then 4 else 2;
      assert Bytes(n / width, width) == n;
      port.Drop(n / width, width);
    }

    /** Reads n bytes into memory. */
    method Keep(n: word, wide: bool, segment: word, offset: word, ghost at: nat)
      requires n <= |port.fifo| && n % 2 == 0 && (wide ==> n % 4 == 0)
      requires at + n <= mem.Length && offset + n <= 0x1_0000
      requires n > 0 ==> at == Linear(segment, offset)
      modifies mem, port
      ensures port.fifo == old(port.fifo)[n..]
      ensures mem[..] == Splice(old(mem[..]), at, old(port.fifo)[..n])
    {
      var width := if wide then 4 else 2;
      assert Bytes(n / width, width) == n;
      if n / width != 0 {
        port.Store(n / width, width, mem, segment, offset);
      } else {
        SpliceNothing(mem[..], at, port.fifo[..n]);
      }
    }

    /** Three reads one after the other. */
    static lemma Slices(s: seq<byte>, b: nat, c: nat, a: nat)
      requires b + c + a <= |s|
      ensures s[b..][c..][a..] == s[b + c + a..] && s[b..][0..] == s[b..]
      ensures s[b..][..c] == s[..b + c + a][b..][..c]
    {
    }

    /** One turn of the data phase.  `c` are the counters before it, `base` the
        address of the first byte delivered and `at` where the next one goes. */
    method ReadNext(size: word, ghost c: Counters, ghost header: word, ghost length: nat, ghost base: nat,
                    ghost at: nat, h: word, left: nat, transfer: nat, bufseg: word, bufoff: word)
      returns (h': word, left': nat, transfer': nat, segment: word, offset: word)
      requires size % 2 == 0 && size <= MAX_BLOCK && size <= |port.fifo|
      requires CountersOk(c, header, length) && c == Counters(c.n, h as nat, left, transfer)
      requires base + Even(length) <= ADDRESS_SPACE
      requires at + |Clip(port.fifo[..size], Over(header, c.n), Over(header + Even(length), c.n))| <= mem.Length
      requires left > 0 ==> Linear(bufseg, bufoff) == base + transfer == at
      modifies mem, port
      ensures port.fifo == old(port.fifo)[size..]
      ensures Counters(c.n + size, h' as nat, left', transfer') == NextCounters(c, size)
      ensures left' > 0 ==> Linear(segment, offset) == base + transfer'
      ensures mem[..] == Splice(old(mem[..]), at,
                                Clip(old(port.fifo)[..size], Over(header, c.n), Over(header + Even(length), c.n)))
    {
      segment, offset := Normalise(bufseg, bufoff, left > 0);
      var count;
      h', left', count := ReadBlock(size, h, left, segment, offset, at);
      offset := U16(offset + count);
      transfer' := transfer + count;
    }

    /** The state of the data phase after `stream` has been read. */
    ghost predicate Progress(was: seq<byte>, stream: seq<byte>, header: word, length: nat, base: nat,
                             h: word, left: nat, transfer: nat, segment: word, offset: word)
      reads this, mem
    {
      && mem.Length >= ADDRESS_SPACE && |was| == mem.Length && base + Even(length) <= ADDRESS_SPACE
      && CountersOk(Counters(|stream|, h as nat, left, transfer), header, length)
      && (left > 0 ==> Linear(segment, offset) == base + transfer)
      && mem[..] == Splice(was, base, Window(stream, header, length))
    }

    /** The device offers a block and announces its size; all of it is read. */
    method TakeBlock(block: seq<byte>, ghost c: Counters, ghost header: word, ghost length: nat, ghost base: nat,
                     ghost at: nat, h: word, left: nat, transfer: nat, bufseg: word, bufoff: word)
      returns (h': word, left': nat, transfer': nat, segment: word, offset: word)
      requires |block| % 2 == 0 && |block| <= MAX_BLOCK && port.fifo == []
      requires CountersOk(c, header, length) && c == Counters(c.n, h as nat, left, transfer)
      requires base + Even(length) <= ADDRESS_SPACE
      requires at + |Clip(block, Over(header, c.n), Over(header + Even(length), c.n))| <= mem.Length
      requires left > 0 ==> Linear(bufseg, bufoff) == base + transfer == at
      modifies mem, port
      ensures port.fifo == []
      ensures Counters(c.n + |block|, h' as nat, left', transfer') == NextCounters(c, |block|)
      ensures left' > 0 ==> Linear(segment, offset) == base + transfer'
      ensures mem[..] == Splice(old(mem[..]), at, Clip(block, Over(header, c.n), Over(header + Even(length), c.n)))
    {
      port.Offer(block);
      assert port.fifo == block == block[..|block|];
      h', left', transfer', segment, offset :=
        ReadNext(|block|, c, header, length, base, at, h, left, transfer, bufseg, bufoff);
    }

    method Advance(block: seq<byte>, ghost was: seq<byte>, ghost stream: seq<byte>, ghost header: word,
                   ghost length: nat, ghost base: nat, h: word, left: nat, transfer: nat, bufseg: word, bufoff: word)
      returns (h': word, left': nat, transfer': nat, segment: word, offset: word)
      requires Progress(was, stream, header, length, base, h, left, transfer, bufseg, bufoff)
      requires |block| % 2 == 0 && |block| <= MAX_BLOCK && port.fifo == []
      modifies mem, port
      ensures port.fifo == []
      ensures Progress(was, stream + block, header, length, base, h', left', transfer', segment, offset)
    {
      ghost var c := Counters(|stream|, h as nat, left, transfer);
      MemoryGrows(was, base, stream, block, header, header + Even(length));
      CountersAdvance(c, |block|, header, length);
      h', left', transfer', segment, offset :=
        TakeBlock(block, c, header, length, base, base + |Window(stream, header, length)|,
                  h, left, transfer, bufseg, bufoff);
      assert mem[..] == Splice(was, base, Window(stream + block, header, length));
    }

    /** The data phase: one block after the other, at a moving, normalised address. */
    method ReadBlocks(blocks: seq<seq<byte>>, header: word, length: nat, bufseg: word, bufoff: word)
      requires BlocksOk(blocks) && header % 2 == 0 && mem.Length >= ADDRESS_SPACE
      requires Linear(bufseg, bufoff) + Even(length) <= ADDRESS_SPACE
      requires trsfbytes == 0 && port.fifo == []
      modifies this`trsfbytes, mem, port
      ensures port.fifo == []
      ensures trsfbytes == Counted(|Flatten(blocks)|, header, length)
      ensures mem[..] == Splice(old(mem[..]), Linear(bufseg, bufoff), Window(Flatten(blocks), header, length))
    {
      var segment, offset := bufseg, bufoff;
      var h: word, left: nat, transfer: nat := header, length, 0;
      ghost var base := Linear(bufseg, bufoff);
      ghost var was := mem[..];
      for k := 0 to |blocks|
        invariant trsfbytes == transfer && port.fifo == []
        invariant Progress(was, Flatten(blocks[..k]), header, length, base, h, left, transfer, segment, offset)
      {
        FlattenNext(blocks, k);
        h, left, transfer, segment, offset :=
          Advance(blocks[k], was, Flatten(blocks[..k]), header, length, base, h, left, transfer, segment, offset);
        trsfbytes := transfer;
      }
      assert blocks[..|blocks|] == blocks;
    }

    /** Moves whole paragraphs from the offset to the segment. */
    method Normalise(segment: word, offset: word, ghost live: bool) returns (s: word, o: word)
      requires live ==> Linear(segment, offset) < ADDRESS_SPACE
      ensures o == offset % 16 < 16
      ensures live ==> Linear(s, o) == Linear(segment, offset)
    {
      s := U16(segment + offset / 16);
      o := offset % 16;
    }

    /** Runs a packet command whose data phase consists of the given blocks.  Every byte
        of them is read: nothing is left for the next command. */
    method AtaCmdPacket(startup: Startup, blocks: seq<seq<byte>>, ending: Ending,
                        header: word, length: nat, bufseg: word, bufoff: word)
      returns (code: nat)
      requires BlocksOk(blocks) && length < 0x1_0000_0000 && mem.Length >= ADDRESS_SPACE
      requires Linear(bufseg, bufoff) + Even(length) <= ADDRESS_SPACE && port.fifo == []
      modifies this, mem, port
      ensures port.fifo == []
      ensures trsfsectors == (if code == 1 then old(trsfsectors) else 0)
      // done, bad parameter, busy, error, not ready
      ensures code == 0 <==> header % 2 == 0 && startup == Idle && ending == Completed(true)
      ensures code == 1 <==> header % 2 == 1
      ensures code == 2 <==> header % 2 == 0 && startup == Busy
      ensures code == 3 <==> header % 2 == 0 && (startup == Refused || (startup == Idle && ending == Failed))
      ensures code == 4 <==>
                header % 2 == 0 && (startup == NoRequest || (startup == Idle && ending == Completed(false)))
      ensures header % 2 == 1 ==> trsfbytes == old(trsfbytes)
      ensures header % 2 == 0 && !startup.Idle? ==> trsfbytes == 0
      ensures header % 2 == 1 || !startup.Idle? ==> mem[..] == old(mem[..])
      ensures header % 2 == 0 && startup.Idle? ==>
                var stream := Flatten(blocks);
                && trsfbytes == Counted(|stream|, header, length)
                && mem[..] == Splice(old(mem[..]), Linear(bufseg, bufoff), Window(stream, header, length))
    {
      if header % 2 == 1 {
        return 1;
      }
      trsfsectors := 0;
      trsfbytes := 0;
      match startup
      case Busy => return 2;
      case Refused => return 3;
      case NoRequest => return 4;
      case Idle =>
      ReadBlocks(blocks, header, length, bufseg, bufoff);
      match ending
      case Failed => return 3;
      case Completed(ready) => return if ready then 0 else 4;
    }
  }
}
