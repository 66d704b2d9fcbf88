/**
 What a run of the checksum fixer comes to, table by table: exactly when a table sums
 to zero afterwards, and when a second run changes nothing.
 */
module BiosTables {
  import opened Words
  import opened BiosSums

  // ---------- which headers are found ----------

  /** A header is found exactly where its signature is, from paragraph 1 on. */
  lemma {:induction false} HeadersExactly(d: Image, k: Kind, j: nat, h: nat)
    requires 16 * j + 16 <= |d|
    ensures h in HeadersUpTo(d, k, j) <==> h % 16 == 0 && 16 <= h <= 16 * j && HasSignature(d, k, h)
    decreases j
  {
    if j > 0 {
      HeadersExactly(d, k, j - 1, h);
    }
  }

  lemma HeaderFound(d: Image, k: Kind, h: nat)
    requires h % 16 == 0 && h + 16 <= |d|
    ensures h in Headers(d, k) <==> 16 <= h && HasSignature(d, k, h)
  {
    HeadersExactly(d, k, |d| / 16 - 1, h);
  }

  // ---------- exactly when a table sums to zero ----------

  /** No checksum but its own is written into the n bytes of the table at h. */
  ghost predicate Untouched(d: Image, k: Kind, h: nat, n: nat) {
    forall k2 :: Single(d, k2) && !(k2 == k && At(d, k2) == h) ==> !(h <= At(d, k2) + ChecksumAt(k2) < h + n)
  }

  /** The checksum of the table at h is set: its header is found, is the only one of
      its kind, and the table is long enough to hold its checksum. */
  predicate Corrected(d: Image, k: Kind, h: nat, n: nat) {
    h in Headers(d, k) && Single(d, k) && ChecksumAt(k) < n
  }

  /** A table sums to zero in the end exactly if its checksum is set or it did before. */
  lemma TableSums(d: Image, k: Kind, h: nat)
    requires Run(d).Fixed? && h % 16 == 0 && h + 16 <= |d|
    requires h + TableLength(d, k, h) <= MAX_OFFSET && Untouched(d, k, h, TableLength(d, k, h))
    ensures var n := TableLength(d, k, h);
      Sum(Run(d).d, h, n) % 256 == 0 <==> Corrected(d, k, h, n) || Sum(d, h, n) % 256 == 0
  {
    var n := TableLength(d, k, h);
    if Corrected(d, k, h, n) {
      CorrectedSums(d, k, h, n);
    } else {
      LeftAlone(d, k, h, n);
    }
  }

  lemma OnlyHeader(d: Image, k: Kind, h: nat)
    requires Single(d, k) && h in Headers(d, k)
    ensures At(d, k) == h
  {
  }

  lemma CorrectedSums(d: Image, k: Kind, h: nat, n: nat)
    requires Run(d).Fixed? && Corrected(d, k, h, n) && h + 16 <= |d|
    requires n == TableLength(d, k, h) && h + n <= MAX_OFFSET && Untouched(d, k, h, n)
    ensures Sum(Run(d).d, h, n) % 256 == 0
  {
    var e := Run(d).d;
    OnlyHeader(d, k, h);
    assert Prepared(d, k);
    RunSums(d);
    forall i | h <= i < h + ChecksumAt(k)
      ensures d[i] == e[i]
    {
      RunWrites(d, i);
    }
    LengthLocal(d, e, k, h);
    assert At(e, k) == h;
  }

  lemma LeftAlone(d: Image, k: Kind, h: nat, n: nat)
    requires Run(d).Fixed? && !Corrected(d, k, h, n) && h + n <= MAX_OFFSET && Untouched(d, k, h, n)
    ensures Sum(Run(d).d, h, n) == Sum(d, h, n)
  {
    forall i | h <= i < h + n
      ensures d[i] == Run(d).d[i]
    {
      RunWrites(d, i);
    }
    SumLocal(d, Run(d).d, h, n);
  }

  // ---------- tables that are not corrected ----------

  /** A Plug and Play header that claims n bytes. */
  function PnpHeader(n: byte): seq<byte> { [0x24, 0x50, 0x6e, 0x50, 0, n] }

  /** An image of zeros with such headers in some paragraphs. */
  function Sample(ats: set<nat>, n: byte): Image {
    seq(LEN_BIOS_DATA, i requires 0 <= i =>
      if i - i % 16 in ats && i % 16 < 6 then PnpHeader(n)[i % 16] else 0)
  }

  predicate Placed(ats: set<nat>) {
    forall h :: h in ats ==> h % 16 == 0 && h < 1024
  }

  lemma SampleByte(ats: set<nat>, n: byte, h: nat, i: nat)
    requires h % 16 == 0 && h + 16 <= LEN_BIOS_DATA && i < 16
    ensures Sample(ats, n)[h + i] == if h in ats && i < 6 then PnpHeader(n)[i] else 0
  {
  }

  /** The first six bytes of a paragraph. */
  predicate Starts(d: Image, h: nat, b: seq<byte>)
    requires h + 16 <= |d| && |b| == 6
  {
    d[h] == b[0] && d[h + 1] == b[1] && d[h + 2] == b[2] && d[h + 3] == b[3] && d[h + 4] == b[4] && d[h + 5] == b[5]
  }

  lemma SampleStarts(ats: set<nat>, n: byte, h: nat)
    requires h % 16 == 0 && h + 16 <= LEN_BIOS_DATA
    ensures Starts(Sample(ats, n), h, if h in ats then PnpHeader(n) else [0, 0, 0, 0, 0, 0])
  {
    SampleByte(ats, n, h, 0);
    SampleByte(ats, n, h, 1);
    SampleByte(ats, n, h, 2);
    SampleByte(ats, n, h, 3);
    SampleByte(ats, n, h, 4);
    SampleByte(ats, n, h, 5);
  }

  lemma SignatureOf(d: Image, k: Kind, h: nat, n: byte)
    requires h + 16 <= |d|
    ensures Starts(d, h, PnpHeader(n)) ==> (HasSignature(d, k, h) <==> k == Pnp) && TableLength(d, Pnp, h) == n
    ensures Starts(d, h, [0, 0, 0, 0, 0, 0]) ==> !HasSignature(d, k, h)
  {
  }

  lemma SampleHeader(ats: set<nat>, n: byte, k: Kind, h: nat)
    requires h % 16 == 0 && h + 16 <= LEN_BIOS_DATA
    ensures HasSignature(Sample(ats, n), k, h) <==> k == Pnp && h in ats
    ensures h in Headers(Sample(ats, n), k) <==> k == Pnp && h in ats && 16 <= h
    ensures h in ats ==> TableLength(Sample(ats, n), Pnp, h) == n
  {
    SampleStarts(ats, n, h);
    SignatureOf(Sample(ats, n), k, h, n);
    HeaderFound(Sample(ats, n), k, h);
  }

  lemma {:induction false} SampleSum(ats: set<nat>, n: byte, h: nat, m: nat)
    requires h in ats && h % 16 == 0 && h + 16 <= LEN_BIOS_DATA && 6 <= m <= 16
    ensures Sum(Sample(ats, n), h, m) == 306 + n
    decreases m
  {
    if m > 6 {
      SampleSum(ats, n, h, m - 1);
      SampleByte(ats, n, h, m - 1);
    } else {
      SampleStarts(ats, n, h);
      StartSum(Sample(ats, n), n, h, m);
    }
  }

  lemma StartSum(d: Image, n: byte, h: nat, m: nat)
    requires h + 16 <= |d| && m == 6 && Starts(d, h, PnpHeader(n))
    ensures Sum(d, h, m) == 306 + n
  {
    assert Sum(d, h, m - 6) == 0;
    assert Sum(d, h, m - 5) == 0x24;
    assert Sum(d, h, m - 4) == 0x74;
    assert Sum(d, h, m - 3) == 0xe2;
    assert Sum(d, h, m - 2) == 0x132;
    assert Sum(d, h, m - 1) == 0x132;
  }

  lemma OthersAbsent(ats: set<nat>, n: byte, k: Kind)
    requires k != Pnp
    ensures Headers(Sample(ats, n), k) == []
  {
    var d := Sample(ats, n);
    if Headers(d, k) != [] {
      HeadersAligned(d, k, |d| / 16 - 1);
      SampleHeader(ats, n, k, Headers(d, k)[0]);
    }
  }

  /** Kinds without headers are passed over. */
  lemma {:induction false} PassedOver(d: Image, ks: seq<Kind>)
    requires ks != [] && (forall i :: 0 <= i < |ks| - 1 ==> Headers(d, ks[i]) == []) && Fix(d, ks[|ks| - 1]).Fixed?
    ensures FixAll(d, ks).Fixed?
    decreases |ks|
  {
    if |ks| > 1 {
      assert Fix(d, ks[0]) == Fixed(d);
      PassedOver(d, ks[1..]);
    } else {
      assert ks[1..] == [];
    }
  }

  lemma SampleRuns(ats: set<nat>, n: byte)
    requires Placed(ats)
    ensures Run(Sample(ats, n)).Fixed?
  {
    var d := Sample(ats, n);
    var hs := Headers(d, Pnp);
    HeadersAligned(d, Pnp, |d| / 16 - 1);
    forall i | 0 <= i < |hs|
      ensures ChecksPass(d, Pnp, hs[i])
    {
      SampleHeader(ats, n, Pnp, hs[i]);
    }
    forall i | 0 <= i < 4
      ensures Headers(d, Order()[i]) == []
    {
      OthersAbsent(ats, n, Order()[i]);
    }
    PassedOver(d, Order());
  }

  /** Two headers of a kind: neither is corrected. */
  lemma TwoHeaders(d: Image)
    requires d == Sample({16, 32}, 9)
    ensures Run(d).Fixed? && HasSignature(d, Pnp, 16) && TableLength(d, Pnp, 16) == 9
    ensures Sum(Run(d).d, 16, 9) % 256 != 0
  {
    SampleRuns({16, 32}, 9);
    TwoFound({16, 32}, 9, 16, 32);
    WrongTable({16, 32}, 9, 16);
    StillWrong(d, Pnp, 16, 9);
  }

  /** A header in paragraph 0 is not found. */
  lemma FirstParagraph(d: Image)
    requires d == Sample({0}, 9)
    ensures Run(d).Fixed? && HasSignature(d, Pnp, 0) && TableLength(d, Pnp, 0) == 9
    ensures Sum(Run(d).d, 0, 9) % 256 != 0
  {
    SampleRuns({0}, 9);
    NoneFound(9);
    WrongTable({0}, 9, 0);
    StillWrong(d, Pnp, 0, 9);
  }

  /** A table that ends before its checksum is not corrected. */
  lemma TooShort(d: Image)
    requires d == Sample({16}, 6)
    ensures Run(d).Fixed? && HasSignature(d, Pnp, 16) && TableLength(d, Pnp, 16) == 6
    ensures Sum(Run(d).d, 16, 6) % 256 != 0
  {
    SampleRuns({16}, 6);
    if Single(d, Pnp) {
      SampleHeader({16}, 6, Pnp, At(d, Pnp));
    }
    WrongTable({16}, 6, 16);
    StillWrong(d, Pnp, 16, 6);
  }

  lemma TwoFound(ats: set<nat>, n: byte, g: nat, h: nat)
    requires g in ats && h in ats && g != h && Placed(ats) && 16 <= g && 16 <= h
    ensures !Single(Sample(ats, n), Pnp)
  {
    SampleHeader(ats, n, Pnp, g);
    SampleHeader(ats, n, Pnp, h);
  }

  lemma NoneFound(n: byte)
    ensures Headers(Sample({0}, n), Pnp) == []
  {
    var d := Sample({0}, n);
    if Headers(d, Pnp) != [] {
      HeadersAligned(d, Pnp, |d| / 16 - 1);
      SampleHeader({0}, n, Pnp, Headers(d, Pnp)[0]);
    }
  }

  lemma NotZero(s: nat, n: nat)
    requires 6 <= n <= 16 && s == 306 + n
    ensures s % 256 != 0
  {
  }

  /** What the sample images have in common: the table at h is wrong, and only its own
      checksum could be written into it. */
  lemma WrongTable(ats: set<nat>, n: nat, h: nat)
    requires 6 <= n <= 16 && Placed(ats) && h in ats
    requires Single(Sample(ats, n), Pnp) ==> At(Sample(ats, n), Pnp) == h
    ensures var d := Sample(ats, n);
      && HasSignature(d, Pnp, h) && TableLength(d, Pnp, h) == n && h + n <= MAX_OFFSET
      && Untouched(d, Pnp, h, n) && Sum(d, h, n) % 256 != 0
  {
    SampleHeader(ats, n, Pnp, h);
    SampleSum(ats, n, h, n);
    OnlyPnp(ats, n, h);
    NotZero(Sum(Sample(ats, n), h, n), n);
  }

  lemma StillWrong(d: Image, k: Kind, h: nat, n: nat)
    requires Run(d).Fixed? && h % 16 == 0 && h + 16 <= |d| && TableLength(d, k, h) == n
    requires h + n <= MAX_OFFSET && Untouched(d, k, h, n) && !Corrected(d, k, h, n) && Sum(d, h, n) % 256 != 0
    ensures Sum(Run(d).d, h, n) % 256 != 0
  {
    TableSums(d, k, h);
  }

  lemma OnlyPnp(ats: set<nat>, n: byte, h: nat)
    requires Single(Sample(ats, n), Pnp) ==> At(Sample(ats, n), Pnp) == h
    ensures Untouched(Sample(ats, n), Pnp, h, n as nat)
  {
    forall k2 | Single(Sample(ats, n), k2)
      ensures k2 == Pnp
    {
      if k2 != Pnp {
        OthersAbsent(ats, n, k2);
      }
    }
  }

  // ---------- a second run ----------

  // the checks and lengths of a header are read from its first 43 bytes
  const HEADER := 43

  /** No other checksum is written into a header, and the checksum of a single table
      stands in it. */
  ghost predicate Settled(d: Image, k: Kind) {
    (forall h :: h in Headers(d, k) ==> Untouched(d, k, h, HEADER)) && (Single(d, k) ==> Prepared(d, k))
  }

  ghost predicate SameHeader(d: Image, e: Image, k: Kind, h: nat) {
    forall i :: h <= i < h + HEADER && i < MAX_OFFSET && i != h + ChecksumAt(k) ==> d[i] == e[i]
  }

  lemma ChecksLocal(d: Image, e: Image, k: Kind, h: nat)
    requires h % 16 == 0 && h + 16 <= |d| && SameHeader(d, e, k, h)
    ensures TableLength(d, k, h) == TableLength(e, k, h) && (ChecksPass(d, k, h) <==> ChecksPass(e, k, h))
  {
  }

  lemma PassKeepsHeader(d: Image, k2: Kind, k: Kind, h: nat)
    requires Fix(d, k2).Fixed? && h in Headers(d, k) && Untouched(d, k, h, HEADER)
    ensures SameHeader(d, Fix(d, k2).d, k, h)
    ensures h in Headers(Fix(d, k2).d, k) && Untouched(Fix(d, k2).d, k, h, HEADER)
  {
    FixWrites(d, k2);
    forall k3
      ensures Headers(Fix(d, k2).d, k3) == Headers(d, k3)
    {
      FixKeepsHeaders(d, k2, k3);
    }
  }

  /** A run that succeeds found every header in order. */
  lemma {:induction false} PassedChecks(d: Image, ks: seq<Kind>, k: Kind, h: nat)
    requires FixAll(d, ks).Fixed? && k in ks && h in Headers(d, k) && Untouched(d, k, h, HEADER)
    ensures h % 16 == 0 && h + 16 <= |d| && ChecksPass(d, k, h)
    decreases |ks|
  {
    HeadersAligned(d, k, |d| / 16 - 1);
    if ks[0] == k {
      assert AllPass(d, k, Headers(d, k));
    } else {
      PassKeepsHeader(d, ks[0], k, h);
      PassedChecks(Fix(d, ks[0]).d, ks[1..], k, h);
      ChecksLocal(d, Fix(d, ks[0]).d, k, h);
    }
  }

  lemma {:induction false} PassesKeepHeaders(d: Image, ks: seq<Kind>, k: Kind)
    requires FixAll(d, ks).Fixed?
    ensures Headers(FixAll(d, ks).d, k) == Headers(d, k)
    decreases |ks|
  {
    if ks != [] {
      FixKeepsHeaders(d, ks[0], k);
      PassesKeepHeaders(Fix(d, ks[0]).d, ks[1..], k);
    }
  }

  /** A run leaves every header where it is. */
  lemma RunKeepsHeaders(d: Image, k: Kind)
    requires Run(d).Fixed?
    ensures Headers(Run(d).d, k) == Headers(d, k)
  {
    var f := FixAll(d, Order()).d;
    PassesKeepHeaders(d, Order(), k);
    HeadersSame(f, MAX_OFFSET, Negate(Sum(f, 0, |f| - 1)), k);
  }

  /** After the run every header passes its checks. */
  lemma StillPasses(d: Image, k: Kind, h: nat)
    requires Run(d).Fixed? && Settled(d, k) && h in Headers(d, k)
    ensures h % 16 == 0 && h + 16 <= |d| && ChecksPass(Run(d).d, k, h)
    ensures TableLength(Run(d).d, k, h) == TableLength(d, k, h)
  {
    var e := Run(d).d;
    OrderComplete(k);
    PassedChecks(d, Order(), k, h);
    forall i | h <= i < h + HEADER && i < MAX_OFFSET && i != h + ChecksumAt(k)
      ensures d[i] == e[i]
    {
      RunWrites(d, i);
    }
    ChecksLocal(d, e, k, h);
  }

  /** A second pass finds nothing to correct. */
  lemma PassAgain(d: Image, k: Kind)
    requires Run(d).Fixed? && Settled(d, k)
    ensures Fix(Run(d).d, k) == Fixed(Run(d).d)
  {
    var e := Run(d).d;
    RunKeepsHeaders(d, k);
    forall i | 0 <= i < |Headers(e, k)|
      ensures ChecksPass(e, k, Headers(e, k)[i])
    {
      StillPasses(d, k, Headers(d, k)[i]);
    }
    if Single(d, k) {
      StillPasses(d, k, At(d, k));
      RunSums(d);
      FixTidy(e, k);
    }
  }

  lemma {:induction false} PassesAgain(e: Image, ks: seq<Kind>)
    requires forall k :: Fix(e, k) == Fixed(e)
    ensures FixAll(e, ks) == Fixed(e)
    decreases |ks|
  {
    if ks != [] {
      PassesAgain(e, ks[1..]);
    }
  }

  /** A second run changes nothing. */
  lemma RunAgain(d: Image)
    requires Run(d).Fixed? && forall k :: Settled(d, k)
    ensures Run(Run(d).d) == Run(d)
  {
    var e := Run(d).d;
    forall k
      ensures Fix(e, k) == Fixed(e)
    {
      PassAgain(d, k);
    }
    PassesAgain(e, Order());
    RunSums(d);
    ImageSums(e);
  }
}
