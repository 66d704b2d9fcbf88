/**
 The PS/2 mouse interrupt: bytes are gathered into packets and each complete packet
 is handed to the installed handler.
 */
module MousePackets {
  import opened Words

  /** What the handler is called with; the fourth argument is always zero. */
  datatype Packet = Packet(status: byte, x: byte, y: byte)

  /** One interrupt: the controller's status and the byte in its data register. */
  datatype Interrupt = Interrupt(status: byte, data: byte)

  /** Output buffer full, and filled by the auxiliary device. */
  predicate FromMouse(status: byte) { status % 2 == 1 && status / 32 % 2 == 1 }

  /** These are bit 0 and bit 5. */
  lemma StatusBits(status: byte, high: nat, b5: nat, middle: nat, b0: nat)
    requires status == 64 * high + 32 * b5 + 2 * middle + b0 && b5 < 2 && middle < 16 && b0 < 2
    ensures FromMouse(status) <==> b5 == 1 && b0 == 1
  {
  }

  /** The bytes the mouse sent. */
  function MouseBytes(irqs: seq<Interrupt>): seq<byte> {
    if irqs == [] then []
    else MouseBytes(irqs[..|irqs| - 1])
         + if FromMouse(irqs[|irqs| - 1].status) then [irqs[|irqs| - 1].data] else []
  }

  /** Packets of `size` bytes cut from a stream; a packet shorter than three bytes is
      completed by what the buffer held before. */
  function Packets(stream: seq<byte>, size: nat, stale: seq<byte>): seq<Packet>
    requires size > 0 && size + |stale| >= 3
  {
    if |stream| < size then []
    else [FirstThree(stream[..size] + stale)] + Packets(stream[size..], size, stale)
  }

  function FirstThree(bytes: seq<byte>): Packet
    requires |bytes| >= 3
  {
    Packet(bytes[0], bytes[1], bytes[2])
  }

  /** The bytes behind the last whole packet. */
  function Leftover(stream: seq<byte>, size: nat): (r: seq<byte>)
    requires size > 0
    ensures |r| < size
  {
    if |stream| < size then stream else Leftover(stream[size..], size)
  }

  // ---------- streams ----------

  /** A byte more: it completes a packet when `size` are there. */
  lemma {:induction false} OneByteMore(stream: seq<byte>, b: byte, size: nat, stale: seq<byte>)
    requires size > 0 && size + |stale| >= 3
    ensures var was := Leftover(stream, size) + [b];
      Leftover(stream + [b], size) == (if |was| == size then [] else was)
      && Packets(stream + [b], size, stale)
         == Packets(stream, size, stale) + if |was| == size then [FirstThree(was + stale)] else []
    decreases |stream|
  {
    var more := stream + [b];
    if |stream| >= size {
      assert more[size..] == stream[size..] + [b] && more[..size] == stream[..size];
      OneByteMore(stream[size..], b, size, stale);
    } else if |more| == size {
      assert more[..size] == more && more[size..] == [];
    }
  }

  /** Packets are consecutive and do not overlap: the k-th begins k * size bytes in. */
  lemma {:induction false} PacketAt(stream: seq<byte>, size: nat, stale: seq<byte>, k: nat)
    requires size >= 3 && k < |Packets(stream, size, stale)|
    ensures k * size + size <= |stream|
    ensures Packets(stream, size, stale)[k]
         == Packet(stream[k * size], stream[k * size + 1], stream[k * size + 2])
  {
    if k > 0 {
      assert (k - 1) * size + size == k * size;
      PacketAt(stream[size..], size, stale, k - 1);
    }
  }

  /** No byte is left over but those of the packet begun. */
  lemma {:induction false} PacketCount(stream: seq<byte>, size: nat, stale: seq<byte>)
    requires size > 0 && size + |stale| >= 3
    ensures |Packets(stream, size, stale)| * size + |Leftover(stream, size)| == |stream|
    decreases |stream|
  {
    if |stream| >= size {
      PacketCount(stream[size..], size, stale);
      var n := |Packets(stream[size..], size, stale)|;
      assert (n + 1) * size == n * size + size;
    }
  }

  // ---------- the code ----------

  class Mouse {
    var flag1: byte
    var flag2: byte
    const data: array<byte>

    constructor (size: nat)
      requires 1 <= size <= 8
      ensures Valid() && fresh(data) && Handled() && Size() == size && Pending() == []
      ensures flag1 == 0 && flag2 == 0x80 + (size - 1)
    {
      flag1, flag2 := 0, 0x80 + (size - 1);
      data := new byte[8](_ => 0);
    }

    /** The index never runs past the packet. */
    ghost predicate Valid()
      reads this, data
    {
      data.Length == 8 && flag1 < Size()
    }

    predicate Handled()
      reads this
    {
      flag2 / 128 == 1
    }

    function Size(): nat
      reads this
    {
      flag2 % 8 + 1
    }

    /** The bytes of the packet begun. */
    ghost function Pending(): seq<byte>
      requires Valid()
      reads this, data
    {
      data[..flag1]
    }

    /** The part of the buffer no packet reaches. */
    ghost function Stale(): seq<byte>
      requires Valid()
      reads this, data
    {
      data[Size()..]
    }

    /** int74_function */
    method Int74(irq: Interrupt) returns (calls: seq<Packet>)
      requires Valid()
      modifies `flag1, data
      ensures Valid() && Stale() == old(Stale())
      ensures !(FromMouse(irq.status) && Handled()) ==> calls == [] && Pending() == old(Pending())
      ensures FromMouse(irq.status) && Handled() ==>
                var was := old(Pending()) + [irq.data];
                Pending() == (if |was| == Size() then [] else was)
                && calls == if |was| == Size() then [FirstThree(was + Stale())] else []
    {
      calls := [];
      if !FromMouse(irq.status) {
        return;
      }
      if flag2 / 128 != 1 {
        return;
      }
      var packageCount := flag2 % 8;
      var index := flag1 % 8;
      ghost var was := data[..index] + [irq.data];
      data[index] := irq.data;
      assert data[..index + 1] == was;
      if index >= packageCount {
        assert was + data[Size()..] == data[..];
        calls := [Packet(data[0], data[1], data[2])];
        flag1 := 0;
      } else {
        flag1 := flag1 + 1;
      }
    }

    /** An interrupt carries the packets of the stream so far on to the longer stream. */
    method Gather(irq: Interrupt, ghost stream: seq<byte>) returns (calls: seq<Packet>)
      requires Valid() && Handled() && Pending() == Leftover(stream, Size())
      modifies `flag1, data
      ensures Valid() && Stale() == old(Stale())
      ensures var longer := stream + if FromMouse(irq.status) then [irq.data] else [];
        Pending() == Leftover(longer, Size())
        && Packets(longer, Size(), Stale()) == Packets(stream, Size(), Stale()) + calls
    {
      OneByteMore(stream, irq.data, Size(), Stale());
      calls := Int74(irq);
      assert !FromMouse(irq.status) ==> stream + [] == stream;
    }

    /** Over every run of interrupts the handler sees exactly the packets of the stream
        the mouse sent. */
    method Run(irqs: seq<Interrupt>) returns (calls: seq<Packet>)
      requires Valid() && Handled()
      modifies `flag1, data
      ensures Valid() && Stale() == old(Stale())
      ensures calls == Packets(old(Pending()) + MouseBytes(irqs), Size(), Stale())
      ensures Pending() == Leftover(old(Pending()) + MouseBytes(irqs), Size())
    {
      calls := [];
      ghost var begun, stale := Pending(), Stale();
      assert begun + MouseBytes([]) == begun;
      for i := 0 to |irqs|
        modifies `flag1, data
        invariant Valid() && Stale() == stale
        invariant calls == Packets(begun + MouseBytes(irqs[..i]), Size(), stale)
        invariant Pending() == Leftover(begun + MouseBytes(irqs[..i]), Size())
      {
        MoreBytes(begun, irqs, i);
        var now := Gather(irqs[i], begun + MouseBytes(irqs[..i]));
        calls := calls + now;
      }
      assert irqs[..|irqs|] == irqs;
    }
  }

  lemma MoreBytes(begun: seq<byte>, irqs: seq<Interrupt>, i: nat)
    requires i < |irqs|
    ensures begun + MouseBytes(irqs[..i + 1])
         == begun + MouseBytes(irqs[..i]) + if FromMouse(irqs[i].status) then [irqs[i].data] else []
  {
    assert irqs[..i + 1][..i] == irqs[..i];
  }
}
