/**
 The CRC-32 routine, with its table built on first use.
 */
module Crc {
  import opened CrcModel

  class Crc32 {
    const poly: Word
    // zero-initialised static storage
    const table: array<Word>
    // how often the table has been built
    ghost var builds: nat

    /** The entries of all indices below n are in place. */
    ghost predicate Filled(t: seq<Word>, n: nat) {
      forall b: Byte :: Value(b) < n && Value(b) < |t| ==> t[Value(b)] == Entry(poly, b)
    }

    ghost predicate Built()
      reads table
    {
      table.Length == 256 && Filled(table[..], 256)
    }

    ghost predicate Untouched()
      reads table
    {
      table.Length == 256 && forall i :: 0 <= i < 256 ==> table[i] == Zeros(32)
    }

    ghost predicate Valid()
      reads this, table
    {
      poly[31] && ((Untouched() && builds == 0) || (Built() && builds == 1))
    }

    constructor ()
      ensures Valid() && fresh(table) && builds == 0 && poly == Poly()
    {
      PolyOdd();
      poly := Poly();
      table := new Word[256](i => Zeros(32));
      builds := 0;
    }

    /** The inner loop of the table construction. */
    method BuildEntry(i: Byte) returns (c: Word)
      ensures c == Entry(poly, i)
    {
      c := i + Zeros(24);
      for j := 0 to |i|
        invariant Steps(poly, c, |i| - j) == Entry(poly, i)
      {
        c := if c[0] then Xor(Shl(c, 1), poly) else Shl(c, 1);
      }
    }

    method InitCrc32()
      requires table.Length == 256
      modifies this, table
      ensures Built() && builds == old(builds) + 1
    {
      for i := 0 to 256
        invariant Filled(table[..], i)
        modifies table
      {
        var c := BuildEntry(Bin(i, 8));
        ghost var t := table[..];
        table[i] := c;
        forall b: Byte | Value(b) < i + 1
          ensures table[Value(b)] == Entry(poly, b)
        {
          BinOfValue(b);
          assert Value(b) < i ==> table[..][Value(b)] == t[Value(b)];
        }
      }
      builds := builds + 1;
    }

    method NextByte(crc: Word, x: Byte) returns (r: Word)
      requires Built()
      ensures r == ByteStep(poly, crc, x)
    {
      var index: Byte := Xor(crc[..8], x);
      ValueBound(index);
      assert table[..][Value(index)] == Entry(poly, index);
      r := Xor(Shl(crc, 8), table[Value(index)]);
    }

    /** Builds the table unless it has been built already. */
    method EnsureTable()
      requires Valid()
      modifies this, table
      ensures Valid() && Built() && builds == 1
      ensures old(builds) == 1 ==> table[..] == old(table[..])
    {
      var one := EntryOneNonZero(poly);
      assert Built() ==> table[..][Value(one)] == Entry(poly, one);
      if table[1] == Zeros(32) {
        InitCrc32();
      }
    }

    /** The table is complete before any entry is used and is built only once. */
    method Compute(buf: seq<Byte>) returns (crc: Word)
      requires Valid()
      modifies this, table
      ensures Valid() && Built()
      ensures builds == 1 && (old(builds) == 1 ==> table[..] == old(table[..]))
      ensures crc == ChecksumWith(poly, buf)
    {
      EnsureTable();
      crc := Ones(32);
      var k := 0;
      while k < |buf|
        invariant 0 <= k <= |buf|
        invariant Register(poly, crc, buf[k..]) == Register(poly, Ones(32), buf)
        modifies {}
      {
        assert buf[k..][1..] == buf[k + 1..];
        crc := NextByte(crc, buf[k]);
        k := k + 1;
      }
      crc := Not(crc);
    }
  }

  lemma ValueBound(b: Byte)
    ensures Value(b) < 256
  {
    BinOfValue(b);
    assert Pow2(8) == 256;
  }

  /** The entry the guard tests is nonzero once the table is built. */
  lemma EntryOneNonZero(g: Word) returns (one: Byte)
    requires g[31]
    ensures Value(one) == 1 && Entry(g, one) != Zeros(32)
  {
    one := Zeros(7) + [true];
    ValueOfZeros(7);
    assert one[..7] == Zeros(7);
    var c: Word := one + Zeros(24);
    assert c[7] && c != Zeros(32);
    ZeroSteps(g, |one|);
    if Steps(g, c, |one|) == Zeros(32) {
      StepsInjective(g, c, Zeros(32), |one|);
    }
  }

  lemma {:induction false} ValueOfZeros(k: nat)
    ensures Value(Zeros(k)) == 0
  {
    if k > 0 {
      assert Zeros(k)[..k - 1] == Zeros(k - 1);
      ValueOfZeros(k - 1);
    }
  }

  lemma {:induction false} ZeroSteps(g: Word, n: nat)
    ensures Steps(g, Zeros(32), n) == Zeros(32)
  {
    if n > 0 {
      assert Shl(Zeros(32), 1) == Zeros(32);
      ZeroSteps(g, n - 1);
    }
  }
}
