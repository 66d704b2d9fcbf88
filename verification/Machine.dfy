/**
 Real-mode addresses and the port a device feeds.
 */
module Machine {
  import opened Words

  datatype Geometry = Geometry(cylinders: word, heads: word, spt: word)

  /** The registers of an INT 13h sector request: address, count and buffer. */
  datatype Request = Request(cl: byte, ch: byte, dh: byte, al: byte, es: word, bx: word)

  const ADDRESS_SPACE := 0x10_0000

  /** The address named by segment:offset. */
  function Linear(segment: nat, offset: nat): nat {
    segment * 16 + offset
  }

  /** A memory image with a block written over it. */
  function Splice(m: seq<byte>, at: nat, data: seq<byte>): (r: seq<byte>)
    requires at + |data| <= |m|
    ensures |r| == |m|
  {
    m[..at] + data + m[at + |data|..]
  }

  lemma SpliceNothing(m: seq<byte>, at: nat, data: seq<byte>)
    requires at <= |m| && data == []
    ensures Splice(m, at, data) == m
  {
  }

  lemma SpliceTwice(m: seq<byte>, at: nat, a: seq<byte>, b: seq<byte>)
    requires at + |a| + |b| <= |m|
    ensures Splice(Splice(m, at, a), at + |a|, b) == Splice(m, at, a + b)
  {
  }

  lemma SpliceSlice(m: seq<byte>, at: nat, data: seq<byte>)
    requires at + |data| <= |m|
    ensures Splice(m, at, data)[at..at + |data|] == data
    ensures forall i :: 0 <= i < |m| && !(at <= i < at + |data|) ==> Splice(m, at, data)[i] == m[i]
  {
  }

  lemma SpliceNext(m: seq<byte>, at: nat, data: seq<byte>, done: nat, n: nat)
    requires done + n <= |data| && at + done + n <= |m|
    ensures Splice(Splice(m, at, data[..done]), at + done, data[done..][..n]) == Splice(m, at, data[..done + n])
    ensures data[done..][n..] == data[done + n..]
  {
    SpliceTwice(m, at, data[..done], data[done..][..n]);
    assert data[..done + n] == data[..done] + data[done..][..n];
  }

  lemma SpliceStep(m: seq<byte>, at: nat, a: seq<byte>, x: byte)
    requires at + |a| < |m|
    ensures Splice(m, at, a)[at + |a| := x] == Splice(m, at, a + [x])
  {
  }

  function Min(a: nat, b: nat): nat { if a < b then a else b }

  function Flatten(chunks: seq<seq<byte>>): seq<byte> {
    if chunks == [] then [] else Flatten(chunks[..|chunks| - 1]) + chunks[|chunks| - 1]
  }

  lemma FlattenNext(chunks: seq<seq<byte>>, k: nat)
    requires k < |chunks|
    ensures Flatten(chunks[..k + 1]) == Flatten(chunks[..k]) + chunks[k]
  {
    assert chunks[..k + 1][..k] == chunks[..k];
  }

  /** The bytes moved by that many word or double-word transfers. */
  function Bytes(units: nat, width: nat): nat
    requires width in {2, 4}
  {
    if width == 2 then 2 * units else 4 * units
  }

  lemma OneMore(k: nat, units: nat, width: nat)
    requires width in {2, 4} && k < units
    ensures Bytes(k + 1, width) == Bytes(k, width) + width <= Bytes(units, width)
  {
  }

  /** The data register of a device: what it has offered and nobody has read yet.  What
      is left unread comes before whatever the device offers next. */
  class DataPort {
    var fifo: seq<byte>

    constructor (data: seq<byte>)
      ensures fifo == data
    {
      fifo := data;
    }

    /** The device has a block ready. */
    method Offer(block: seq<byte>)
      modifies this
      ensures fifo == old(fifo) + block
    {
      fifo := fifo + block;
    }

    /** in ax, dx / in eax, dx, repeated: read and forget. */
    method Drop(units: nat, width: nat)
      requires width in {2, 4} && Bytes(units, width) <= |fifo|
      modifies this
      ensures fifo == old(fifo)[Bytes(units, width)..]
    {
      for k := 0 to units
        invariant Bytes(k, width) <= Bytes(units, width) <= |old(fifo)|
        invariant fifo == old(fifo)[Bytes(k, width)..]
      {
        OneMore(k, units, width);
        fifo := fifo[width..];
      }
    }

    /** rep insw / rep insd to segment:offset. */
    method Store(units: nat, width: nat, mem: array<byte>, segment: nat, offset: nat)
      requires width in {2, 4} && Bytes(units, width) <= |fifo|
      requires offset + Bytes(units, width) <= 0x1_0000
      requires Linear(segment, offset) + Bytes(units, width) <= mem.Length
      modifies this, mem
      ensures fifo == old(fifo)[Bytes(units, width)..]
      ensures mem[..] == Splice(old(mem[..]), Linear(segment, offset), old(fifo)[..Bytes(units, width)])
    {
      var di := offset;
      var at := Linear(segment, offset);
      ghost var was, data, done := mem[..], fifo, 0;
      for k := 0 to units
        invariant done == Bytes(k, width) <= Bytes(units, width) && di == offset + done
        invariant Stored(was, at, data, done, mem)
      {
        OneMore(k, units, width);
        StoreNext(was, at, data, done, width, mem, segment, di);
        di, done := di + width, done + width;
      }
    }

    /** What rep ins has done after `done` bytes of the data. */
    ghost predicate Stored(was: seq<byte>, at: nat, data: seq<byte>, done: nat, mem: array<byte>)
      reads this, mem
    {
      && done <= |data| && fifo == data[done..]
      && at + done <= |was| && mem[..] == Splice(was, at, data[..done])
    }

    method StoreNext(ghost was: seq<byte>, ghost at: nat, ghost data: seq<byte>, ghost done: nat, width: nat,
                     mem: array<byte>, segment: nat, di: nat)
      requires Stored(was, at, data, done, mem) && done + width <= |data|
      requires Linear(segment, di) == at + done && at + done + width <= mem.Length
      modifies this, mem
      ensures Stored(was, at, data, done + width, mem)
    {
      SpliceNext(was, at, data, done, width);
      StoreUnit(width, mem, segment, di);
    }

    method StoreUnit(width: nat, mem: array<byte>, segment: nat, di: nat)
      requires width <= |fifo| && Linear(segment, di) + width <= mem.Length
      modifies this, mem
      ensures fifo == old(fifo)[width..]
      ensures mem[..] == Splice(old(mem[..]), Linear(segment, di), old(fifo)[..width])
    {
      var at := Linear(segment, di);
      ghost var was := mem[..];
      for j := 0 to width
        invariant mem[..] == Splice(was, at, fifo[..j])
        modifies mem
      {
        ghost var now := mem[..];
        mem[at + j] := fifo[j];
        assert mem[..] == now[at + j := fifo[j]];
        assert fifo[..j + 1] == fifo[..j] + [fifo[j]];
        SpliceStep(was, at, fifo[..j], fifo[j]);
      }
      fifo := fifo[width..];
    }
  }
}
