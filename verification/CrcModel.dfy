/**
 CRC-32, most significant bit first: the byte-at-a-time register, the bit-serial
 register, and the polynomial long division both of them compute.

 Machine words are modelled as the strings of their bits, the most significant
 bit first, so that shifts and exclusive-ors are operations on strings.
 */
module CrcModel {

  type Bits = seq<bool>
  type Byte = b: Bits | |b| == 8 witness seq(8, i => false)
  type Word = b: Bits | |b| == 32 witness seq(32, i => false)

  // ---------- words as bit strings ----------

  function Zeros(k: nat): (r: Bits)
    ensures |r| == k
  {
    seq(k, i => false)
  }

  function Ones(k: nat): (r: Bits)
    ensures |r| == k
  {
    seq(k, i => true)
  }

  function Not(a: Bits): (r: Bits)
    ensures |r| == |a|
  {
    seq(|a|, i requires 0 <= i < |a| => !a[i])
  }

  function Xor(a: Bits, b: Bits): (r: Bits)
    requires |a| == |b|
    ensures |r| == |a|
  {
    seq(|a|, i requires 0 <= i < |a| => a[i] != b[i])
  }

  /** x << k */
  function Shl(a: Bits, k: nat): (r: Bits)
    requires k <= |a|
    ensures |r| == |a|
  {
    a[k..] + Zeros(k)
  }

  /** The k-bit binary numeral of n. */
  function Bin(n: nat, k: nat): (r: Bits)
    ensures |r| == k
    ensures k > 0 ==> r[k - 1] == (n % 2 == 1)
  {
    if k == 0 then [] else Bin(n / 2, k - 1) + [n % 2 == 1]
  }

  function Value(b: Bits): nat {
    if b == [] then 0 else 2 * Value(b[..|b| - 1]) + (if b[|b| - 1] then 1 else 0)
  }

  /** The exponents of the generator below 32, as section 3.2.9 of IEEE 802.3 lists them. */
  const TERMS: set<nat> := {26, 23, 22, 16, 12, 11, 10, 8, 7, 5, 4, 2, 1, 0}

  function Poly(): Word {
    seq(32, i requires 0 <= i < 32 => 31 - i in TERMS)
  }

  function Nibble(a: bool, b: bool, c: bool, d: bool): nat {
    (if a then 8 else 0) + (if b then 4 else 0) + (if c then 2 else 0) + (if d then 1 else 0)
  }

  lemma ValueSnoc(p: Bits, x: bool)
    ensures Value(p + [x]) == 2 * Value(p) + if x then 1 else 0
  {
    assert (p + [x])[..|p|] == p;
  }

  lemma ValuePair(p: Bits, a: bool, b: bool)
    ensures Value(p + [a, b]) == 4 * Value(p) + (if a then 2 else 0) + (if b then 1 else 0)
  {
    ValueSnoc(p, a);
    ValueSnoc(p + [a], b);
    assert p + [a, b] == p + [a] + [b];
  }

  lemma ValueNibble(p: Bits, a: bool, b: bool, c: bool, d: bool)
    ensures Value(p + [a, b, c, d]) == 16 * Value(p) + Nibble(a, b, c, d)
  {
    ValuePair(p, a, b);
    ValuePair(p + [a, b], c, d);
    assert p + [a, b, c, d] == p + [a, b] + [c, d];
  }

  lemma PolyHigh() returns (p: Bits)
    ensures |p| == 16 && p == Poly()[..16] && Value(p) == 0x04c1
  {
    p := [];
    ValueNibble(p, false, false, false, false);
    p := p + [false, false, false, false];
    ValueNibble(p, false, true, false, false);
    p := p + [false, true, false, false];
    ValueNibble(p, true, true, false, false);
    p := p + [true, true, false, false];
    ValueNibble(p, false, false, false, true);
    p := p + [false, false, false, true];
  }

  lemma PolyLow(high: Bits) returns (p: Bits)
    requires |high| == 16
    ensures p == high + Poly()[16..] && Value(p) == 0x1_0000 * Value(high) + 0x1db7
  {
    p := high;
    ValueNibble(p, false, false, false, true);
    p := p + [false, false, false, true];
    ValueNibble(p, true, true, false, true);
    p := p + [true, true, false, true];
    ValueNibble(p, true, false, true, true);
    p := p + [true, false, true, true];
    ValueNibble(p, false, true, true, true);
    p := p + [false, true, true, true];
  }

  /** They are the bits of CRC32_POLY. */
  lemma PolyValue()
    ensures Value(Poly()) == 0x04c1_1db7
  {
    var high := PolyHigh();
    var p := PolyLow(high);
    assert p == Poly()[..16] + Poly()[16..] == Poly();
  }

  // ---------- the bit-serial register, for a generator x^32 + g ----------

  function Step(g: Word, c: Word): Word {
    if c[0] then Xor(Shl(c, 1), g) else Shl(c, 1)
  }

  function Steps(g: Word, c: Word, n: nat): Word
    decreases n
  {
    if n == 0 then c else Steps(g, Step(g, c), n - 1)
  }

  /** Adds a message bit at the top of the register. */
  function AddTop(c: Word, b: bool): Word {
    [c[0] != b] + c[1..]
  }

  /** The register after the bits of a message, the first bit first. */
  function Feed(g: Word, c: Word, m: Bits): Word
    decreases |m|
  {
    if m == [] then c else Feed(g, Step(g, AddTop(c, m[0])), m[1..])
  }

  function MessageBits(buf: seq<Byte>): (r: Bits)
    ensures |r| == 8 * |buf|
  {
    if buf == [] then [] else buf[0] + MessageBits(buf[1..])
  }

  // ---------- polynomial long division ----------

  /** Adds g into the leading coefficients of p. */
  function AddLeading(p: Bits, g: Bits): (r: Bits)
    requires |g| <= |p|
    ensures |r| == |p|
  {
    Xor(p[..|g|], g) + p[|g|..]
  }

  /** The generator x^32 + g, highest power first. */
  function Generator(g: Word): (r: Bits)
    ensures |r| == 33
  {
    [true] + g
  }

  /** The remainder of schoolbook division: subtract the generator from the
      leading coefficients whenever the first one is one, then drop that one. */
  function Remainder(g: Word, p: Bits): (r: Bits)
    ensures |p| >= 32 ==> |r| == 32
    decreases |p|
  {
    if |p| <= 32 then p
    else if p[0] then Remainder(g, AddLeading(p, Generator(g))[1..])
    else Remainder(g, p[1..])
  }

  // ---------- the byte-at-a-time register ----------

  /** The table entry of an index: eight steps from the index in the top byte. */
  function Entry(g: Word, i: Byte): Word {
    Steps(g, i + Zeros(24), |i|)
  }

  function ByteStep(g: Word, c: Word, x: Byte): Word {
    Xor(Shl(c, 8), Entry(g, Xor(c[..8], x)))
  }

  function Register(g: Word, c: Word, buf: seq<Byte>): Word
    decreases |buf|
  {
    if buf == [] then c else Register(g, ByteStep(g, c, buf[0]), buf[1..])
  }

  function ChecksumWith(g: Word, buf: seq<Byte>): Word {
    Not(Register(g, Ones(32), buf))
  }

  function Checksum(buf: seq<Byte>): Word {
    ChecksumWith(Poly(), buf)
  }

  // ---------- numerals ----------

  function Pow2(k: nat): nat { if k == 0 then 1 else 2 * Pow2(k - 1) }

  lemma {:induction false} BinOfValue(b: Bits)
    ensures Bin(Value(b), |b|) == b && Value(b) < Pow2(|b|)
    decreases |b|
  {
    if b != [] {
      BinOfValue(b[..|b| - 1]);
      assert Value(b) / 2 == Value(b[..|b| - 1]);
      assert b == b[..|b| - 1] + [b[|b| - 1]];
    }
  }

  // ---------- the register steps are linear and invertible ----------

  lemma StepLinear(g: Word, a: Word, b: Word)
    ensures Step(g, Xor(a, b)) == Xor(Step(g, a), Step(g, b))
  {
    var l, r := Step(g, Xor(a, b)), Xor(Step(g, a), Step(g, b));
    assert Xor(a, b)[0] == (a[0] != b[0]);
    forall i | 0 <= i < 32
      ensures l[i] == r[i]
    {
    }
  }

  /** Adding v first, or its top bit first and the rest, shifted, afterwards. */
  lemma SplitTop(g: Word, c: Word, v: Word)
    ensures Step(g, Xor(c, v)) == Xor(Step(g, AddTop(c, v[0])), Shl(v, 1))
  {
    var top := [v[0]] + Zeros(31);
    var low := [false] + v[1..];
    assert Xor(c, top) == AddTop(c, v[0]);
    assert Xor(c, v) == Xor(Xor(c, top), low);
    StepLinear(g, AddTop(c, v[0]), low);
    assert Shl(low, 1) == Shl(v, 1);
  }

  /** Feeding the k top bits of v one by one, or adding v and stepping k times. */
  lemma {:induction false} FeedIsSteps(g: Word, c: Word, v: Word, k: nat)
    requires k <= 32
    ensures Steps(g, Xor(c, v), k) == Xor(Feed(g, c, v[..k]), Shl(v, k))
    decreases k
  {
    if k == 0 {
      assert Shl(v, 0) == v;
    } else {
      SplitTop(g, c, v);
      FeedIsSteps(g, Step(g, AddTop(c, v[0])), Shl(v, 1), k - 1);
      assert Shl(v, 1)[..k - 1] == v[..k][1..];
      assert Shl(Shl(v, 1), k - 1) == Shl(v, k);
    }
  }

  lemma PolyOdd()
    ensures Poly()[31]
  {
  }

  lemma XorCancels(a: Bits, b: Bits, p: Bits)
    requires |a| == |b| == |p| && Xor(a, p) == Xor(b, p)
    ensures a == b
  {
    forall i | 0 <= i < |a|
      ensures a[i] == b[i]
    {
      assert Xor(a, p)[i] == Xor(b, p)[i];
    }
  }

  /** With an odd generator the bit shifted out comes back in at the bottom. */
  lemma StepInjective(g: Word, a: Word, b: Word)
    requires g[31] && Step(g, a) == Step(g, b)
    ensures a == b
  {
    assert Step(g, a)[31] == a[0] && Step(g, b)[31] == b[0];
    if a[0] {
      XorCancels(Shl(a, 1), Shl(b, 1), g);
    }
    assert Shl(a, 1)[..31] == a[1..] && Shl(b, 1)[..31] == b[1..];
    assert a == [a[0]] + a[1..] && b == [b[0]] + b[1..];
  }

  lemma {:induction false} StepsInjective(g: Word, a: Word, b: Word, n: nat)
    requires g[31] && Steps(g, a, n) == Steps(g, b, n)
    ensures a == b
    decreases n
  {
    if n > 0 {
      StepsInjective(g, Step(g, a), Step(g, b), n - 1);
      StepInjective(g, a, b);
    }
  }

  lemma {:induction false} FeedInjective(g: Word, a: Word, b: Word, m: Bits)
    requires g[31] && Feed(g, a, m) == Feed(g, b, m)
    ensures a == b
    decreases |m|
  {
    if m != [] {
      FeedInjective(g, Step(g, AddTop(a, m[0])), Step(g, AddTop(b, m[0])), m[1..]);
      StepInjective(g, AddTop(a, m[0]), AddTop(b, m[0]));
      assert AddTop(a, m[0])[1..] == a[1..] && AddTop(b, m[0])[1..] == b[1..];
      assert a == [a[0]] + a[1..] && b == [b[0]] + b[1..];
    }
  }

  lemma {:induction false} FeedAppend(g: Word, c: Word, m: Bits, n: Bits)
    ensures Feed(g, c, m + n) == Feed(g, Feed(g, c, m), n)
    decreases |m|
  {
    if m == [] {
      assert m + n == n;
    } else {
      assert (m + n)[1..] == m[1..] + n;
      FeedAppend(g, Step(g, AddTop(c, m[0])), m[1..], n);
    }
  }

  // ---------- the table-driven register is the serial one ----------

  lemma {:induction false} StepsLinear(g: Word, a: Word, b: Word, n: nat)
    ensures Steps(g, Xor(a, b), n) == Xor(Steps(g, a, n), Steps(g, b, n))
    decreases n
  {
    if n > 0 {
      StepLinear(g, a, b);
      StepsLinear(g, Step(g, a), Step(g, b), n - 1);
    }
  }

  lemma {:induction false} LeadingZerosShift(g: Word, c: Word, n: nat)
    requires n <= 32 && forall i :: 0 <= i < n ==> !c[i]
    ensures Steps(g, c, n) == Shl(c, n)
    decreases n
  {
    if n == 0 {
      assert Shl(c, 0) == c;
    } else {
      LeadingZerosShift(g, Shl(c, 1), n - 1);
      assert Shl(Shl(c, 1), n - 1) == Shl(c, n);
    }
  }

  /** One table lookup does the work of eight serial steps. */
  lemma ByteStepIsFeed(g: Word, c: Word, x: Byte)
    ensures ByteStep(g, c, x) == Feed(g, c, x)
  {
    var v := x + Zeros(24);
    var high := Xor(c[..8], x) + Zeros(24);
    var low := Zeros(8) + c[8..];
    FeedIsSteps(g, c, v, |x|);
    assert v[..8] == x && Shl(v, 8) == Zeros(32);
    assert Xor(Feed(g, c, x), Zeros(32)) == Feed(g, c, x);
    assert Xor(c, v) == Xor(high, low);
    StepsLinear(g, high, low, |x|);
    LeadingZerosShift(g, low, |x|);
    assert Shl(low, 8) == Shl(c, 8);
    assert Xor(Steps(g, high, |x|), Shl(c, 8)) == Xor(Shl(c, 8), Steps(g, high, |x|));
  }

  lemma {:induction false} RegisterIsFeed(g: Word, c: Word, buf: seq<Byte>)
    ensures Register(g, c, buf) == Feed(g, c, MessageBits(buf))
    decreases |buf|
  {
    if buf != [] {
      ByteStepIsFeed(g, c, buf[0]);
      RegisterIsFeed(g, ByteStep(g, c, buf[0]), buf[1..]);
      FeedAppend(g, c, buf[0], MessageBits(buf[1..]));
    }
  }

  // ---------- the serial register divides ----------

  lemma AddTwice(p: Bits, a: Bits, b: Bits)
    requires |a| == |b| <= |p|
    ensures AddLeading(AddLeading(p, a), b) == AddLeading(p, Xor(a, b))
  {
  }

  /** One step of the division is one step of the register. */
  lemma DivideStep(g: Word, c: Word, b: bool, q: Bits)
    requires |q| >= 32
    ensures Remainder(g, AddLeading([b] + q, c)) == Remainder(g, AddLeading(q, Step(g, AddTop(c, b))))
  {
    var p := AddLeading([b] + q, c);
    assert p[0] == (b != c[0]);
    var r := AddLeading(q, Shl(c, 1));
    assert p[1..] == r by {
      forall i | 0 <= i < |q|
        ensures p[i + 1] == r[i]
      {
      }
    }
    assert Shl(AddTop(c, b), 1) == Shl(c, 1);
    if p[0] {
      assert AddLeading(p, Generator(g))[1..] == AddLeading(p[1..], g);
      AddTwice(q, Shl(c, 1), g);
    }
  }

  /** The register holds the remainder of what was fed, times x^32, with its
      starting value added to the leading 32 coefficients. */
  lemma {:induction false} FeedDivides(g: Word, c: Word, m: Bits)
    ensures Feed(g, c, m) == Remainder(g, AddLeading(m + Zeros(32), c))
    decreases |m|
  {
    if m == [] {
      assert AddLeading([] + Zeros(32), c) == c;
    } else {
      FeedDivides(g, Step(g, AddTop(c, m[0])), m[1..]);
      assert m + Zeros(32) == [m[0]] + (m[1..] + Zeros(32));
      DivideStep(g, c, m[0], m[1..] + Zeros(32));
    }
  }

  lemma RegisterIsRemainder(g: Word, buf: seq<Byte>)
    ensures var p := MessageBits(buf) + Zeros(32);
      Register(g, Ones(32), buf) == Remainder(g, Not(p[..32]) + p[32..])
  {
    var p := MessageBits(buf) + Zeros(32);
    RegisterIsFeed(g, Ones(32), buf);
    FeedDivides(g, Ones(32), MessageBits(buf));
    assert AddLeading(p, Ones(32)) == Not(p[..32]) + p[32..];
  }

  /** The checksum of a buffer: complement the first 32 bits of the message
      followed by 32 zeros, divide by the generator, complement the remainder. */
  lemma ChecksumIsRemainder(buf: seq<Byte>)
    ensures var p := MessageBits(buf) + Zeros(32);
      Checksum(buf) == Not(Remainder(Poly(), Not(p[..32]) + p[32..]))
  {
    RegisterIsRemainder(Poly(), buf);
  }

  // ---------- error detection ----------

  predicate SameOutside(m: Bits, n: Bits, k: nat) {
    |m| == |n| && forall i :: 0 <= i < |m| && !(k <= i < k + 32) ==> m[i] == n[i]
  }

  /** Different messages that agree outside 32 consecutive bits leave different registers. */
  lemma BurstChangesRegister(g: Word, c: Word, m: Bits, n: Bits, k: nat)
    requires g[31] && SameOutside(m, n, k) && k + 32 <= |m| && m != n
    ensures Feed(g, c, m) != Feed(g, c, n)
  {
    var pre, post := m[..k], m[k + 32..];
    var v: Word, w: Word := m[k..k + 32], n[k..k + 32];
    assert n[..k] == pre && n[k + 32..] == post;
    assert m == pre + (v + post) && n == pre + (w + post);
    assert v != w;
    FeedAppend(g, c, pre, v + post);
    FeedAppend(g, c, pre, w + post);
    var d := Feed(g, c, pre);
    FeedAppend(g, d, v, post);
    FeedAppend(g, d, w, post);
    if Feed(g, c, m) == Feed(g, c, n) {
      FeedInjective(g, Feed(g, d, v), Feed(g, d, w), post);
      WordFeedInjective(g, d, v, w);
      assert false;
    }
  }

  lemma WordFeed(g: Word, d: Word, v: Word)
    ensures Feed(g, d, v) == Steps(g, Xor(d, v), |v|)
  {
    FeedIsSteps(g, d, v, |v|);
    assert v[..32] == v && Shl(v, 32) == Zeros(32);
    assert Xor(Feed(g, d, v), Zeros(32)) == Feed(g, d, v);
  }

  lemma WordFeedInjective(g: Word, d: Word, v: Word, w: Word)
    requires g[31] && Feed(g, d, v) == Feed(g, d, w)
    ensures v == w
  {
    WordFeed(g, d, v);
    WordFeed(g, d, w);
    StepsInjective(g, Xor(d, v), Xor(d, w), |v|);
    assert Xor(v, d) == Xor(d, v) == Xor(d, w) == Xor(w, d);
    XorCancels(v, w, d);
  }

  lemma NotInjective(a: Bits, b: Bits)
    requires |a| == |b| && Not(a) == Not(b)
    ensures a == b
  {
    forall i | 0 <= i < |a|
      ensures a[i] == b[i]
    {
      assert Not(a)[i] == Not(b)[i];
    }
  }

  /** As above for messages too short for a full window: a common suffix keeps
      equal registers equal. */
  lemma BurstAnywhere(g: Word, c: Word, m: Bits, n: Bits, k: nat)
    requires g[31] && SameOutside(m, n, k) && m != n
    ensures Feed(g, c, m) != Feed(g, c, n)
  {
    var m2, n2 := m + Zeros(32), n + Zeros(32);
    FeedAppend(g, c, m, Zeros(32));
    FeedAppend(g, c, n, Zeros(32));
    assert m2[..|m|] == m && n2[..|n|] == n;
    BurstChangesRegister(g, c, m2, n2, if k < |m| then k else 0);
  }

  /** Two different buffers of equal length whose differences all lie within 32
      consecutive bits, at any bit position, have different checksums. */
  lemma BurstDetected(a: seq<Byte>, b: seq<Byte>, k: nat)
    requires SameOutside(MessageBits(a), MessageBits(b), k) && MessageBits(a) != MessageBits(b)
    ensures Checksum(a) != Checksum(b)
  {
    var m, n := MessageBits(a), MessageBits(b);
    RegisterIsFeed(Poly(), Ones(32), a);
    RegisterIsFeed(Poly(), Ones(32), b);
    PolyOdd();
    BurstAnywhere(Poly(), Ones(32), m, n, k);
    if Checksum(a) == Checksum(b) {
      NotInjective(Register(Poly(), Ones(32), a), Register(Poly(), Ones(32), b));
      assert false;
    }
  }

  lemma {:induction false} MessageBitAt(a: seq<Byte>, i: nat)
    requires i < 8 * |a|
    ensures MessageBits(a)[i] == a[i / 8][i % 8]
    decreases |a|
  {
    if i >= 8 {
      MessageBitAt(a[1..], i - 8);
      assert i / 8 == (i - 8) / 8 + 1;
    }
  }

  lemma BitsDiffer(a: seq<Byte>, b: seq<Byte>)
    requires |a| == |b| && a != b
    ensures MessageBits(a) != MessageBits(b)
  {
    var j :| 0 <= j < |a| && a[j] != b[j];
    var t :| 0 <= t < 8 && a[j][t] != b[j][t];
    OctetIndex(j, t);
    BitDiffers(a, b, j, t, 8 * j + t);
  }

  lemma BitDiffers(a: seq<Byte>, b: seq<Byte>, j: nat, t: nat, i: nat)
    requires j < |a| == |b| && t < 8 && a[j][t] != b[j][t]
    requires i < 8 * |a| && i / 8 == j && i % 8 == t
    ensures MessageBits(a)[i] != MessageBits(b)[i]
  {
    MessageBitAt(a, i);
    MessageBitAt(b, i);
  }

  lemma OctetIndex(j: nat, t: nat)
    requires t < 8
    ensures (8 * j + t) / 8 == j && (8 * j + t) % 8 == t
  {
  }

  /** Two different buffers of equal length that agree outside four consecutive
      bytes have different checksums. */
  lemma FourByteWindow(a: seq<Byte>, b: seq<Byte>, k: nat)
    requires |a| == |b| && a != b
    requires forall j :: 0 <= j < |a| && !(k <= j < k + 4) ==> a[j] == b[j]
    ensures Checksum(a) != Checksum(b)
  {
    forall i | 0 <= i < 8 * |a|
      ensures MessageBits(a)[i] == a[i / 8][i % 8] && MessageBits(b)[i] == b[i / 8][i % 8]
    {
      MessageBitAt(a, i);
      MessageBitAt(b, i);
    }
    BitsDiffer(a, b);
    BurstDetected(a, b, 8 * k);
  }
}
