/**
 The five tables as their standards lay them out, and what the checksum fixer does to a
 table in these terms.
 */
module BiosLayout {
  import opened Words
  import opened BiosSums
  import opened BiosTables

  /** The length of the table at h: the BIOS32 header counts paragraphs at byte 9 and the
      MP pointer at byte 8, the MP table and the interrupt routing table have 16-bit
      lengths at 4 and 6, the Plug and Play header one byte at 5. */
  function Bytes(d: Image, k: Kind, h: nat): nat
    requires h + 16 <= |d|
  {
    match k
    case Pci32 => 16 * (d[h + 9] as int)
    case Mp => 16 * (d[h + 8] as int)
    case Pcmp => (d[h + 4] as int) + 256 * (d[h + 5] as int)
    case Pir => (d[h + 6] as int) + 256 * (d[h + 7] as int)
    case Pnp => d[h + 5]
  }

  /** Its signature and the index of its checksum. */
  predicate Layout(k: Kind, sig: seq<byte>, c: nat) {
    match k
    case Pci32 => sig == [0x5f, 0x33, 0x32, 0x5f] && c == 10
    case Mp => sig == [0x5f, 0x4d, 0x50, 0x5f] && c == 10
    case Pcmp => sig == [0x50, 0x43, 0x4d, 0x50] && c == 7
    case Pir => sig == [0x24, 0x50, 0x49, 0x52] && c == 31
    case Pnp => sig == [0x24, 0x50, 0x6e, 0x50] && c == 8
  }

  /** The size of the header that has to lie in the image, and the extension of an MP
      table, which is not supported. */
  predicate Whole(d: Image, k: Kind, h: nat)
    requires h + 16 <= |d|
  {
    match k
    case Pci32 => h + 16 <= 0xffff
    case Mp => h + 16 <= 0xffff
    case Pcmp => h + 42 <= 0xffff && d[h + 40] == 0 && d[h + 41] == 0 && d[h + 42] == 0
    case Pir => h + 32 <= 0xffff
    case Pnp => h + 32 <= 0xffff
  }

  predicate Signed(d: Image, sig: seq<byte>, h: nat) {
    h % 16 == 0 && 16 <= h && h + 16 <= |d| && d[h..h + 4] == sig
  }

  /** The signature stands at h and in no other paragraph behind the first. */
  ghost predicate OnlyOne(d: Image, sig: seq<byte>, h: nat) {
    Signed(d, sig, h) && forall g :: Signed(d, sig, g) ==> g == h
  }

  // ---------- the layout is the one the code reads ----------

  lemma LayoutRead(d: Image, k: Kind, h: nat, sig: seq<byte>, c: nat)
    requires h + 16 <= |d| && Layout(k, sig, c)
    ensures TableLength(d, k, h) == Bytes(d, k, h) && ChecksumAt(k) == c && Signature(k) == sig
    ensures ChecksPass(d, k, h) <==> Whole(d, k, h) && h + Bytes(d, k, h) <= 0xffff
    ensures HasSignature(d, k, h) <==> d[h..h + 4] == sig
  {
  }

  lemma SignedOnce(d: Image, k: Kind, h: nat, g: nat)
    requires OnlyOne(d, Signature(k), h) && g % 16 == 0 && 16 <= g && g + 16 <= |d|
    ensures HasSignature(d, k, g) <==> g == h
  {
    LayoutRead(d, k, g, Signature(k), ChecksumAt(k));
    assert HasSignature(d, k, g) ==> Signed(d, Signature(k), g);
  }

  predicate StartsParagraph(d: Image, k: Kind, q: nat) {
    16 * q + 16 <= |d| && HasSignature(d, k, 16 * q)
  }

  lemma {:induction false} OneHeader(d: Image, k: Kind, p: nat, j: nat)
    requires 16 * j + 16 <= |d| && p >= 1
    requires forall q :: 1 <= q <= j ==> (StartsParagraph(d, k, q) <==> q == p)
    ensures HeadersUpTo(d, k, j) == if p <= j then [16 * p] else []
    decreases j
  {
    if j > 0 {
      OneHeader(d, k, p, j - 1);
      assert StartsParagraph(d, k, j) <==> j == p;
    }
  }

  lemma FoundAlone(d: Image, k: Kind, h: nat)
    requires OnlyOne(d, Signature(k), h)
    ensures Headers(d, k) == [h] && Single(d, k) && At(d, k) == h
  {
    var p := h / 16;
    assert h == 16 * p;
    forall q | 1 <= q <= |d| / 16 - 1
      ensures StartsParagraph(d, k, q) <==> q == p
    {
      SignedOnce(d, k, h, 16 * q);
    }
    OneHeader(d, k, p, |d| / 16 - 1);
  }

  // ---------- what a pass and a run do to a table ----------

  /** The checksum makes the sum of the table zero; of a table that ends before it, its
      value is the negated sum. */
  lemma ExpectedSums(d: Image, k: Kind, h: nat, sig: seq<byte>, n: nat, c: nat)
    requires h + 16 <= |d| && Layout(k, sig, c) && n == Bytes(d, k, h) && ChecksPass(d, k, h)
    ensures h + n <= 0xffff && h + c < |d|
    ensures c < n ==> Sum(d[h + c := ExpectedChecksum(d, k, h)], h, n) % 256 == 0
    ensures c >= n ==> (Sum(d, h, n) + ExpectedChecksum(d, k, h)) % 256 == 0
  {
    LayoutRead(d, k, h, sig, c);
    assert ExpectedChecksum(d, k, h) == Negate(SumWithout(d, h, n, c));
    if c < n {
      ChecksumCancels(d, d[h + c := Negate(SumWithout(d, h, n, c))], h, n, c);
    } else {
      SumSplit(d, h, n, c);
      NegateCancels(SumWithout(d, h, n, c));
    }
  }

  /** After a run that succeeds, a table that is the only one of its kind, holds its
      checksum and is not written to for another kind sums to zero, and no byte of it but
      the checksum has changed. */
  lemma TableCorrected(d: Image, k: Kind, h: nat, sig: seq<byte>, n: nat, c: nat)
    requires Run(d).Fixed? && Layout(k, sig, c) && OnlyOne(d, sig, h) && n == Bytes(d, k, h)
    requires c < n && Untouched(d, k, h, n)
    ensures h + n <= 0xffff && Sum(Run(d).d, h, n) % 256 == 0
    ensures forall i :: h <= i < h + n && i != h + c ==> Run(d).d[i] == d[i]
  {
    LayoutRead(d, k, h, sig, c);
    FoundAlone(d, k, h);
    assert Prepared(d, k);
    RunSums(d);
    InsideKept(d, k, h, n);
    LengthLocal(d, Run(d).d, k, h);
    assert At(Run(d).d, k) == h;
  }

  lemma InsideKept(d: Image, k: Kind, h: nat, n: nat)
    requires Run(d).Fixed? && Single(d, k) && At(d, k) == h && Untouched(d, k, h, n)
    ensures forall i :: h <= i < h + n && i != h + ChecksumAt(k) && i < 0xffff ==> Run(d).d[i] == d[i]
  {
    forall i | h <= i < h + n && i != h + ChecksumAt(k) && i < 0xffff
      ensures Run(d).d[i] == d[i]
    {
      RunWrites(d, i);
    }
  }

  // ---------- the order of the passes ----------

  /** The kinds whose passes come before and after that of k. */
  function Earlier(k: Kind): seq<Kind> {
    match k
    case Pci32 => []
    case Mp => [Pci32]
    case Pcmp => [Pci32, Mp]
    case Pir => [Pci32, Mp, Pcmp]
    case Pnp => [Pci32, Mp, Pcmp, Pir]
  }

  function Later(k: Kind): seq<Kind> {
    match k
    case Pci32 => [Mp, Pcmp, Pir, Pnp]
    case Mp => [Pcmp, Pir, Pnp]
    case Pcmp => [Pir, Pnp]
    case Pir => [Pnp]
    case Pnp => []
  }

  lemma {:induction false} PassesInTurn(d: Image, a: seq<Kind>, b: seq<Kind>)
    ensures FixAll(d, a + b) == match FixAll(d, a) case Aborted => Aborted case Fixed(e) => FixAll(e, b)
    decreases |a|
  {
    if a == [] {
      assert a + b == b;
    } else {
      assert (a + b)[0] == a[0] && (a + b)[1..] == a[1..] + b;
      if Fix(d, a[0]).Fixed? {
        PassesInTurn(Fix(d, a[0]).d, a[1..], b);
      }
    }
  }

  /** The image before and after the pass of a kind, and before the image checksum is set. */
  lemma AroundPass(d: Image, k: Kind) returns (before: Image, after: Image, last: Image)
    requires Run(d).Fixed?
    ensures FixAll(d, Earlier(k)) == Fixed(before) && Fix(before, k) == Fixed(after)
    ensures FixAll(after, Later(k)) == Fixed(last) && Run(d).d == FixImage(last)
  {
    PassesInTurn(d, Earlier(k), [k] + Later(k));
    assert Earlier(k) + ([k] + Later(k)) == Order();
    before := FixAll(d, Earlier(k)).d;
    assert ([k] + Later(k))[1..] == Later(k);
    after, last := Fix(before, k).d, FixAll(d, Order()).d;
  }

  /** A table is spoilt only by checksums that are written after its own: if none of these
      falls into it, it sums to zero at the end, whatever earlier passes wrote into it. */
  lemma OnlyLaterSpoil(d: Image, k: Kind, h: nat, sig: seq<byte>, n: nat, c: nat)
    requires Run(d).Fixed? && Layout(k, sig, c) && OnlyOne(d, sig, h) && n == Bytes(Run(d).d, k, h)
    requires c < n && forall i :: h <= i < h + n ==> !WrittenBy(d, Later(k), i)
    ensures h + n <= 0xffff && Sum(Run(d).d, h, n) % 256 == 0
  {
    var e := Run(d).d;
    var before, after, last := AroundPass(d, k);
    LayoutRead(e, k, h, sig, c);
    FoundAlone(d, k, h);
    PassesKeepHeaders(d, Earlier(k), k);
    AfterPass(d, k, before, after, last, h, n);
    LengthLocal(e, after, k, h);
    FixKeepsHeaders(before, k, k);
    FixWrites(before, k);
    LengthLocal(before, after, k, h);
    FixSums(before, k);
    SumLocal(after, e, h, n);
  }

  lemma AfterPass(d: Image, k: Kind, before: Image, after: Image, last: Image, h: nat, n: nat)
    requires FixAll(d, Earlier(k)) == Fixed(before) && Fix(before, k) == Fixed(after)
    requires FixAll(after, Later(k)) == Fixed(last)
    requires forall i :: h <= i < h + n ==> !WrittenBy(d, Later(k), i)
    ensures forall i :: h <= i < h + n && i < 0xffff ==> FixImage(last)[i] == after[i]
  {
    forall k2
      ensures Headers(after, k2) == Headers(d, k2)
    {
      PassesKeepHeaders(d, Earlier(k), k2);
      FixKeepsHeaders(before, k, k2);
    }
    forall i | h <= i < h + n && i < 0xffff
      ensures FixImage(last)[i] == after[i]
    {
      assert !WrittenBy(d, Later(k), i);
      NotWritten(d, after, Later(k), i);
    }
  }

  lemma NotWritten(d: Image, after: Image, ks: seq<Kind>, i: nat)
    requires (forall k :: Headers(after, k) == Headers(d, k)) && FixAll(after, ks).Fixed?
    requires i < 0xffff && !WrittenBy(d, ks, i)
    ensures FixImage(FixAll(after, ks).d)[i] == after[i]
  {
    assert !WrittenBy(after, ks, i);
    FixAllWrites(after, ks, i);
  }

  // ---------- when a run succeeds ----------

  /** No checksum is written into a header other than its own. */
  ghost predicate HeadersApart(d: Image) {
    forall k, h :: h in Headers(d, k) ==> Untouched(d, k, h, HEADER)
  }

  /** The header at h lies in the image with its table, and claims no extension. */
  predicate Sound(d: Image, k: Kind, h: nat) {
    h + 16 <= |d| && Whole(d, k, h) && h + Bytes(d, k, h) <= 0xffff
  }

  lemma ApartKept(d: Image, k2: Kind)
    requires Fix(d, k2).Fixed? && HeadersApart(d)
    ensures HeadersApart(Fix(d, k2).d)
  {
    var e := Fix(d, k2).d;
    forall k, h | h in Headers(e, k)
      ensures Untouched(e, k, h, HEADER)
    {
      FixKeepsHeaders(d, k2, k);
      PassKeepsHeader(d, k2, k, h);
    }
  }

  lemma InImage(d: Image, k: Kind, h: nat)
    requires h in Headers(d, k)
    ensures h % 16 == 0 && h + 16 <= |d|
  {
    HeadersExactly(d, k, |d| / 16 - 1, h);
  }

  lemma ChecksKept(d: Image, k2: Kind, k: Kind, h: nat)
    requires Fix(d, k2).Fixed? && HeadersApart(d) && h in Headers(d, k)
    ensures ChecksPass(Fix(d, k2).d, k, h) <==> ChecksPass(d, k, h)
  {
    InImage(d, k, h);
    assert Untouched(d, k, h, HEADER);
    PassKeepsHeader(d, k2, k, h);
    ChecksLocal(d, Fix(d, k2).d, k, h);
  }

  lemma PassesKept(d: Image, k2: Kind, k: Kind)
    requires Fix(d, k2).Fixed? && HeadersApart(d)
    ensures AllPass(Fix(d, k2).d, k, Headers(d, k)) <==> AllPass(d, k, Headers(d, k))
  {
    var hs := Headers(d, k);
    forall i | 0 <= i < |hs|
      ensures ChecksPass(Fix(d, k2).d, k, hs[i]) <==> ChecksPass(d, k, hs[i])
    {
      ChecksKept(d, k2, k, hs[i]);
    }
  }

  lemma {:induction false} FixAllSucceeds(d: Image, ks: seq<Kind>)
    requires HeadersApart(d)
    ensures FixAll(d, ks).Fixed? <==> forall k :: k in ks ==> AllPass(d, k, Headers(d, k))
    decreases |ks|
  {
    if ks != [] && Fix(d, ks[0]).Fixed? {
      var e := Fix(d, ks[0]).d;
      forall k
        ensures AllPass(e, k, Headers(e, k)) <==> AllPass(d, k, Headers(d, k))
      {
        PassesKept(d, ks[0], k);
        FixKeepsHeaders(d, ks[0], k);
      }
      ApartKept(d, ks[0]);
      FixAllSucceeds(e, ks[1..]);
      assert forall k :: k in ks <==> k == ks[0] || k in ks[1..];
    }
  }

  lemma AllSound(d: Image, k: Kind)
    ensures AllPass(d, k, Headers(d, k)) <==> forall h :: h in Headers(d, k) ==> Sound(d, k, h)
  {
    HeadersAligned(d, k, |d| / 16 - 1);
    forall h | h in Headers(d, k)
      ensures ChecksPass(d, k, h) <==> Sound(d, k, h)
    {
      LayoutRead(d, k, h, Signature(k), ChecksumAt(k));
    }
  }

  /** Where the headers are apart, the run succeeds exactly when every one of them is sound. */
  lemma RunSucceeds(d: Image)
    requires HeadersApart(d)
    ensures Run(d).Fixed? <==> forall k, h :: h in Headers(d, k) ==> Sound(d, k, h)
  {
    FixAllSucceeds(d, Order());
    forall k
      ensures k in Order()
      ensures AllPass(d, k, Headers(d, k)) <==> forall h :: h in Headers(d, k) ==> Sound(d, k, h)
    {
      OrderComplete(k);
      AllSound(d, k);
    }
  }
}
