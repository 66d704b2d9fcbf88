/**
 The checksum fixer for a BIOS image: one pass for each kind of table, then the
 image itself, all writing into one buffer.
 */
module BiosSums {
  import opened Words

  const LEN_BIOS_DATA := 0x1_0000
  const MAX_OFFSET := 0xffff

  datatype Kind = Pci32 | Mp | Pcmp | Pir | Pnp

  type Image = d: seq<byte> | |d| == LEN_BIOS_DATA witness seq(LEN_BIOS_DATA, i => 0)

  // ---------- the layout of each kind of table ----------

  function Signature(k: Kind): seq<byte> {
    match k
    case Pci32 => [0x5f, 0x33, 0x32, 0x5f]  // _32_
    case Mp => [0x5f, 0x4d, 0x50, 0x5f]     // _MP_
    case Pcmp => [0x50, 0x43, 0x4d, 0x50]   // PCMP
    case Pir => [0x24, 0x50, 0x49, 0x52]    // $PIR
    case Pnp => [0x24, 0x50, 0x6e, 0x50]    // $PnP
  }

  function ChecksumAt(k: Kind): nat {
    match k
    case Pci32 => 10
    case Mp => 10
    case Pcmp => 7
    case Pir => 31
    case Pnp => 8
  }

  function MinHeader(k: Kind): nat {
    match k
    case Pci32 => 16
    case Mp => 16
    case Pcmp => 42
    case Pir => 32
    case Pnp => 32
  }

  function Word(lo: byte, hi: byte): nat { lo + (hi as int) * 256 }

  function TableLength(d: Image, k: Kind, at: nat): nat
    requires at + 10 <= |d|
  {
    match k
    case Pci32 => (d[at + 9] as int) * 16
    case Mp => (d[at + 8] as int) * 16
    case Pcmp => Word(d[at + 4], d[at + 5])
    case Pir => Word(d[at + 6], d[at + 7])
    case Pnp => d[at + 5]
  }

  /** The bounds checks of a header; a failed one ends the program. */
  predicate ChecksPass(d: Image, k: Kind, at: nat) {
    && at + ChecksumAt(k) <= MAX_OFFSET
    && at + MinHeader(k) <= MAX_OFFSET
    && at + TableLength(d, k, at) <= MAX_OFFSET
    && (k == Pcmp ==> d[at + 40] == d[at + 41] == d[at + 42] == 0)
  }

  // ---------- finding headers ----------

  predicate HasSignature(d: Image, k: Kind, at: nat)
    requires at + 4 <= |d|
  {
    d[at] == Signature(k)[0] && d[at + 1] == Signature(k)[1] &&
    d[at + 2] == Signature(k)[2] && d[at + 3] == Signature(k)[3]
  }

  /** The headers of a kind in paragraphs 1 .. j, in order.  The scan steps before
      it looks, so paragraph 0 is not examined. */
  function HeadersUpTo(d: Image, k: Kind, j: nat): seq<nat>
    requires 16 * j + 16 <= |d|
    decreases j
  {
    if j == 0 then []
    else HeadersUpTo(d, k, j - 1) + (if HasSignature(d, k, 16 * j) then [16 * j] else [])
  }

  function Headers(d: Image, k: Kind): seq<nat> { HeadersUpTo(d, k, |d| / 16 - 1) }

  // ---------- sums ----------

  function Sum(d: seq<byte>, at: nat, n: nat): nat
    requires at + n <= |d|
    decreases n
  {
    if n == 0 then 0 else Sum(d, at, n - 1) + d[at + n - 1]
  }

  /** The sum of a table without its byte at index c. */
  function SumWithout(d: seq<byte>, at: nat, n: nat, c: nat): nat
    requires at + n <= |d|
    decreases n
  {
    if n == 0 then 0
    else SumWithout(d, at, n - 1, c) + (if n - 1 == c then 0 else d[at + n - 1])
  }

  function Negate(sum: nat): byte { (256 - sum % 256) % 256 }

  lemma {:induction false} SumSplit(d: seq<byte>, at: nat, n: nat, c: nat)
    requires at + n <= |d|
    ensures Sum(d, at, n) == SumWithout(d, at, n, c) + (if c < n then d[at + c] as nat else 0)
    decreases n
  {
    if n > 0 {
      SumSplit(d, at, n - 1, c);
    }
  }

  lemma {:induction false} SumLocal(d: seq<byte>, e: seq<byte>, at: nat, n: nat)
    requires at + n <= |d| == |e| && forall i :: at <= i < at + n ==> d[i] == e[i]
    ensures Sum(d, at, n) == Sum(e, at, n)
    decreases n
  {
    if n > 0 {
      SumLocal(d, e, at, n - 1);
    }
  }

  lemma {:induction false} SumWithoutLocal(d: seq<byte>, e: seq<byte>, at: nat, n: nat, c: nat)
    requires at + n <= |d| == |e| && forall i :: at <= i < at + n && i != at + c ==> d[i] == e[i]
    ensures SumWithout(d, at, n, c) == SumWithout(e, at, n, c)
    decreases n
  {
    if n > 0 {
      SumWithoutLocal(d, e, at, n - 1, c);
    }
  }

  lemma NegateCancels(s: nat)
    ensures (s + Negate(s)) % 256 == 0
  {
  }

  lemma NegateUnique(s: nat, x: byte)
    requires (s + x) % 256 == 0
    ensures x == Negate(s)
  {
  }

  // ---------- the passes as functions ----------

  function ExpectedChecksum(d: Image, k: Kind, at: nat): byte
    requires ChecksPass(d, k, at)
  {
    Negate(SumWithout(d, at, TableLength(d, k, at), ChecksumAt(k)))
  }

  predicate AllPass(d: Image, k: Kind, hs: seq<nat>) {
    forall i :: 0 <= i < |hs| ==> ChecksPass(d, k, hs[i])
  }

  datatype Outcome = Fixed(d: Image) | Aborted

  /** One pass: every header is checked, and a single one is corrected. */
  function Fix(d: Image, k: Kind): Outcome {
    var hs := Headers(d, k);
    if !AllPass(d, k, hs) then Aborted
    else if |hs| == 1 then Fixed(d[hs[0] + ChecksumAt(k) := ExpectedChecksum(d, k, hs[0])])
    else Fixed(d)
  }

  function FixAll(d: Image, ks: seq<Kind>): Outcome
    decreases |ks|
  {
    if ks == [] then Fixed(d)
    else
      match Fix(d, ks[0])
      case Aborted => Aborted
      case Fixed(e) => FixAll(e, ks[1..])
  }

  function FixImage(d: Image): Image {
    d[MAX_OFFSET := Negate(Sum(d, 0, |d| - 1))]
  }

  function Order(): seq<Kind> { [Pci32, Mp, Pcmp, Pir, Pnp] }

  function RunOn(d: Image, ks: seq<Kind>): Outcome {
    match FixAll(d, ks)
    case Aborted => Aborted
    case Fixed(e) => Fixed(FixImage(e))
  }

  function Run(d: Image): Outcome { RunOn(d, Order()) }

  // ---------- signatures are never created or destroyed ----------

  lemma {:induction false} HeadersAligned(d: Image, k: Kind, j: nat)
    requires 16 * j + 16 <= |d|
    ensures forall i :: 0 <= i < |HeadersUpTo(d, k, j)| ==>
              var h := HeadersUpTo(d, k, j)[i]; h % 16 == 0 && 0 < h && h + 16 <= |d| && HasSignature(d, k, h)
    decreases j
  {
    if j > 0 {
      HeadersAligned(d, k, j - 1);
    }
  }

  /** A write into bytes 4..15 of a paragraph leaves every list of headers alone. */
  lemma {:induction false} HeadersStable(d: Image, at: nat, v: byte, k: Kind, j: nat)
    requires at < |d| && at % 16 >= 4 && 16 * j + 16 <= |d|
    ensures HeadersUpTo(d[at := v], k, j) == HeadersUpTo(d, k, j)
    decreases j
  {
    if j > 0 {
      assert !(16 * j <= at < 16 * j + 4);
      HeadersStable(d, at, v, k, j - 1);
    }
  }

  /** The position one pass writes to is not in the signature bytes of any paragraph. */
  lemma ChecksumPosition(d: Image, k: Kind)
    requires |Headers(d, k)| == 1
    ensures (Headers(d, k)[0] + ChecksumAt(k)) % 16 >= 4
  {
    HeadersAligned(d, k, |d| / 16 - 1);
  }

  lemma FixKeepsHeaders(d: Image, k: Kind, k2: Kind)
    requires Fix(d, k).Fixed?
    ensures Headers(Fix(d, k).d, k2) == Headers(d, k2)
  {
    var hs := Headers(d, k);
    FixedByte(d, k);
    if |hs| == 1 {
      ChecksumPosition(d, k);
      HeadersSame(d, hs[0] + ChecksumAt(k), ExpectedChecksum(d, k, hs[0]), k2);
    }
  }

  lemma HeadersSame(d: Image, at: nat, v: byte, k: Kind)
    requires at < |d| && at % 16 >= 4
    ensures Headers(d[at := v], k) == Headers(d, k)
  {
    HeadersStable(d, at, v, k, |d| / 16 - 1);
  }

  lemma FixedByte(d: Image, k: Kind)
    requires Fix(d, k).Fixed?
    ensures var hs := Headers(d, k);
      if |hs| == 1 then
        0 <= hs[0] + ChecksumAt(k) < |d| && Fix(d, k).d == d[hs[0] + ChecksumAt(k) := ExpectedChecksum(d, k, hs[0])]
      else Fix(d, k).d == d
  {
  }

  // ---------- every table and the image sum to zero ----------

  predicate Single(d: Image, k: Kind) { |Headers(d, k)| == 1 }

  function At(d: Image, k: Kind): (h: nat)
    requires Single(d, k)
    ensures h % 16 == 0 && h + 16 <= |d|
  {
    HeadersAligned(d, k, |d| / 16 - 1);
    Headers(d, k)[0]
  }

  /** No pass for another kind writes within n bytes of the header. */
  ghost predicate Undisturbed(d: Image, k: Kind, n: nat)
    requires Single(d, k)
  {
    forall k2 :: k2 != k && Single(d, k2) ==> !(At(d, k) <= At(d, k2) + ChecksumAt(k2) < At(d, k) + n)
  }

  /** A kind whose only table holds its checksum and is not written to by others. */
  ghost predicate Prepared(d: Image, k: Kind) {
    Single(d, k) && ChecksumAt(k) < TableLength(d, k, At(d, k)) &&
    Undisturbed(d, k, TableLength(d, k, At(d, k)))
  }

  /** The only table of the kind lies in the image and sums to zero. */
  ghost predicate SumsToZero(d: Image, k: Kind) {
    Single(d, k) && At(d, k) + TableLength(d, k, At(d, k)) <= MAX_OFFSET &&
    Sum(d, At(d, k), TableLength(d, k, At(d, k))) % 256 == 0
  }

  /** A pass changes at most the byte at its checksum position. */
  lemma FixWrites(d: Image, k: Kind)
    requires Fix(d, k).Fixed?
    ensures forall i :: 0 <= i < |d| && !(Single(d, k) && i == At(d, k) + ChecksumAt(k)) ==> Fix(d, k).d[i] == d[i]
  {
  }

  lemma LengthLocal(d: Image, e: Image, k: Kind, h: nat)
    requires h + 10 <= |d| && forall i :: h <= i < h + ChecksumAt(k) && i < h + 10 ==> d[i] == e[i]
    ensures TableLength(d, k, h) == TableLength(e, k, h)
  {
  }

  /** The pass for a kind makes its table sum to zero. */
  lemma FixSums(d: Image, k: Kind)
    requires Fix(d, k).Fixed? && Single(d, k) && ChecksumAt(k) < TableLength(d, k, At(d, k))
    ensures var e := Fix(d, k).d;
      Headers(e, k) == Headers(d, k) && TableLength(e, k, At(d, k)) == TableLength(d, k, At(d, k)) && SumsToZero(e, k)
  {
    var e := Fix(d, k).d;
    var h, c := At(d, k), ChecksumAt(k);
    FixKeepsHeaders(d, k, k);
    FixWrites(d, k);
    LengthLocal(d, e, k, h);
    assert AllPass(d, k, Headers(d, k)) && ChecksPass(d, k, h);
    ChecksumCancels(d, e, h, TableLength(d, k, h), c);
  }

  /** With the negated rest at index c a table sums to zero. */
  lemma ChecksumCancels(d: seq<byte>, e: seq<byte>, h: nat, n: nat, c: nat)
    requires c < n && h + n <= |d| && e == d[h + c := Negate(SumWithout(d, h, n, c))]
    ensures Sum(e, h, n) % 256 == 0
  {
    SumSplit(e, h, n, c);
    SumWithoutLocal(d, e, h, n, c);
    NegateCancels(SumWithout(d, h, n, c));
  }

  /** The pass for another kind leaves the table as it is. */
  lemma FixElsewhere(d: Image, k2: Kind, k: Kind)
    requires k2 != k && Prepared(d, k) && Fix(d, k2).Fixed?
    ensures var e := Fix(d, k2).d;
      && Headers(e, k) == Headers(d, k) && TableLength(e, k, At(d, k)) == TableLength(d, k, At(d, k))
      && (SumsToZero(d, k) ==> SumsToZero(e, k))
  {
    var e := Fix(d, k2).d;
    var h, n := At(d, k), TableLength(d, k, At(d, k));
    FixKeepsHeaders(d, k2, k);
    FixWrites(d, k2);
    if h + n <= |d| {
      assert forall i :: h <= i < h + n ==> d[i] == e[i];
      LengthLocal(d, e, k, h);
      SumLocal(d, e, h, n);
    } else {
      assert forall i :: h <= i < |d| ==> d[i] == e[i];
      LengthLocal(d, e, k, h);
    }
  }

  lemma PreparedStays(d: Image, k2: Kind, k: Kind)
    requires Prepared(d, k) && Fix(d, k2).Fixed?
    ensures Prepared(Fix(d, k2).d, k)
  {
    var e := Fix(d, k2).d;
    forall k3
      ensures Headers(e, k3) == Headers(d, k3)
    {
      FixKeepsHeaders(d, k2, k3);
    }
    if k2 == k {
      FixSums(d, k);
    } else {
      FixElsewhere(d, k2, k);
    }
  }

  lemma {:induction false} FixAllSums(d: Image, ks: seq<Kind>, k: Kind)
    requires Prepared(d, k) && (k in ks || SumsToZero(d, k)) && FixAll(d, ks).Fixed?
    ensures SumsToZero(FixAll(d, ks).d, k) && Headers(FixAll(d, ks).d, k) == Headers(d, k)
    decreases |ks|
  {
    if ks != [] {
      PreparedStays(d, ks[0], k);
      if ks[0] == k {
        FixSums(d, k);
      } else {
        FixElsewhere(d, ks[0], k);
      }
      FixAllSums(Fix(d, ks[0]).d, ks[1..], k);
    }
  }

  lemma SumLast(d: seq<byte>, n: nat)
    requires |d| == n + 1
    ensures Sum(d, 0, n + 1) == Sum(d, 0, n) + d[n]
  {
  }

  lemma ChecksumByte(d: seq<byte>, n: nat)
    requires |d| == n + 1
    ensures Sum(d[n := Negate(Sum(d, 0, n))], 0, n + 1) % 256 == 0
    ensures d[n := Negate(Sum(d, 0, n))] == d <==> Sum(d, 0, n + 1) % 256 == 0
  {
    var s := Sum(d, 0, n);
    var e := d[n := Negate(s)];
    SumLocal(d, e, 0, n);
    SumLast(d, n);
    SumLast(e, n);
    NegateCancels(s);
    if (s + d[n]) % 256 == 0 {
      NegateUnique(s, d[n]);
      assert e == d;
    } else {
      assert e[n] != d[n];
    }
  }

  lemma ImageSums(d: Image)
    ensures Sum(FixImage(d), 0, |d|) % 256 == 0
    ensures FixImage(d) == d <==> Sum(d, 0, |d|) % 256 == 0
  {
    ChecksumByte(d, |d| - 1);
  }

  /** The image checksum, written last, lies outside every table. */
  lemma ImageWriteOutside(d: Image, k: Kind)
    requires SumsToZero(d, k)
    ensures Headers(FixImage(d), k) == Headers(d, k) && SumsToZero(FixImage(d), k)
  {
    var e := FixImage(d);
    var h, n := At(d, k), TableLength(d, k, At(d, k));
    HeadersStable(d, MAX_OFFSET, e[MAX_OFFSET], k, |d| / 16 - 1);
    assert forall i :: 0 <= i < MAX_OFFSET ==> d[i] == e[i];
    LengthLocal(d, e, k, h);
    SumLocal(d, e, h, n);
  }

  lemma RunOnSums(d: Image, ks: seq<Kind>, k: Kind)
    requires RunOn(d, ks).Fixed? && k in ks && Prepared(d, k)
    ensures SumsToZero(RunOn(d, ks).d, k) && Headers(RunOn(d, ks).d, k) == Headers(d, k)
  {
    FixAllSums(d, ks, k);
    ImageWriteOutside(FixAll(d, ks).d, k);
  }

  lemma RunOnImage(d: Image, ks: seq<Kind>)
    requires RunOn(d, ks).Fixed?
    ensures Sum(RunOn(d, ks).d, 0, |d|) % 256 == 0
  {
    ImageSums(FixAll(d, ks).d);
  }

  lemma OrderComplete(k: Kind)
    ensures k in Order()
  {
    match k
    case Pci32 => assert Order()[0] == k;
    case Mp => assert Order()[1] == k;
    case Pcmp => assert Order()[2] == k;
    case Pir => assert Order()[3] == k;
    case Pnp => assert Order()[4] == k;
  }

  /** When the fixer succeeds, the image sums to zero, and so does every table that
      is the only one of its kind, is long enough to hold its checksum and is not
      overwritten by the checksum of another. */
  lemma RunSums(d: Image)
    requires Run(d).Fixed?
    ensures Sum(Run(d).d, 0, |d|) % 256 == 0
    ensures forall k :: Prepared(d, k) ==> SumsToZero(Run(d).d, k) && Headers(Run(d).d, k) == Headers(d, k)
  {
    RunOnImage(d, Order());
    forall k | Prepared(d, k)
      ensures SumsToZero(Run(d).d, k) && Headers(Run(d).d, k) == Headers(d, k)
    {
      OrderComplete(k);
      RunOnSums(d, Order(), k);
    }
  }

  /** A byte that may be rewritten: the checksum of the only table of some kind. */
  ghost predicate ChecksumByteOf(d: Image, i: nat) {
    exists k :: Single(d, k) && i == At(d, k) + ChecksumAt(k)
  }

  /** Some pass of the list may rewrite it. */
  ghost predicate WrittenBy(d: Image, ks: seq<Kind>, i: nat) {
    exists k :: k in ks && Single(d, k) && i == At(d, k) + ChecksumAt(k)
  }

  lemma {:induction false} FixAllWrites(d: Image, ks: seq<Kind>, i: nat)
    requires FixAll(d, ks).Fixed? && i < |d| && !WrittenBy(d, ks, i)
    ensures FixAll(d, ks).d[i] == d[i]
    decreases |ks|
  {
    if ks != [] {
      var e := Fix(d, ks[0]).d;
      forall k
        ensures Headers(e, k) == Headers(d, k)
      {
        FixKeepsHeaders(d, ks[0], k);
      }
      FixWrites(d, ks[0]);
      assert !WrittenBy(e, ks[1..], i);
      FixAllWrites(e, ks[1..], i);
    }
  }

  /** Nothing else in the image changes. */
  lemma RunWrites(d: Image, i: nat)
    requires Run(d).Fixed? && i < MAX_OFFSET && !ChecksumByteOf(d, i)
    ensures Run(d).d[i] == d[i]
  {
    FixAllWrites(d, Order(), i);
  }

  // ---------- images that are in order ----------

  /** No table of the kind, or a single sound one that already sums to zero. */
  ghost predicate Tidy(d: Image, k: Kind) {
    Headers(d, k) == [] ||
    (SumsToZero(d, k) && ChecksPass(d, k, At(d, k)) && ChecksumAt(k) < TableLength(d, k, At(d, k)))
  }

  lemma FixTidy(d: Image, k: Kind)
    requires Tidy(d, k)
    ensures Fix(d, k) == Fixed(d)
  {
    if Single(d, k) {
      var h, c := At(d, k), ChecksumAt(k);
      var n := TableLength(d, k, h);
      SumSplit(d, h, n, c);
      NegateUnique(SumWithout(d, h, n, c), d[h + c]);
      assert d[h + c := d[h + c]] == d;
    }
  }

  lemma {:induction false} FixAllTidy(d: Image, ks: seq<Kind>)
    requires forall k :: Tidy(d, k)
    ensures FixAll(d, ks) == Fixed(d)
    decreases |ks|
  {
    if ks != [] {
      FixTidy(d, ks[0]);
      FixAllTidy(d, ks[1..]);
    }
  }

  /** Where every table is in order the fixer leaves the image alone exactly when it
      sums to zero. */
  lemma RunIdempotent(d: Image)
    requires forall k :: Tidy(d, k)
    ensures Run(d) == Fixed(d) <==> Sum(d, 0, |d|) % 256 == 0
  {
    FixAllTidy(d, Order());
    ImageSums(d);
  }

  // ---------- the code ----------

  lemma Paragraph(o: nat, j: nat)
    requires o == 16 * j
    ensures o % 16 == 0 && o / 16 == j
  {
  }

  lemma RoundUp(offset: nat)
    requires offset % 16 == 0
    ensures (offset + 15) / 16 * 16 == offset == 16 * (offset / 16)
  {
  }

  lemma AllExamined(d: Image, k: Kind, j: nat)
    requires 16 * j + 16 == LEN_BIOS_DATA
    ensures Headers(d, k) == HeadersUpTo(d, k, j)
  {
  }

  lemma NextParagraph(d: Image, k: Kind, j: nat)
    requires 16 * j + 32 <= |d|
    ensures HeadersUpTo(d, k, j + 1)
         == HeadersUpTo(d, k, j) + if HasSignature(d, k, 16 * j + 16) then [16 * j + 16] else []
  {
  }

  /** The next header of a kind behind `offset`, or -1. */
  method GetOffset(data: array<byte>, k: Kind, offset: nat) returns (result: int)
    requires data.Length == LEN_BIOS_DATA && offset % 16 == 0 && offset + 16 <= data.Length
    ensures result == -1 ==> Headers(data[..], k) == HeadersUpTo(data[..], k, offset / 16)
    ensures result != -1 ==>
              && offset < result && result % 16 == 0 && result + 16 <= data.Length
              && HeadersUpTo(data[..], k, result / 16) == HeadersUpTo(data[..], k, offset / 16) + [result]
  {
    result := -1;
    var o := (offset + 15) / 16 * 16;
    RoundUp(offset);
    ghost var j := offset / 16;
    while o + 16 < MAX_OFFSET
      invariant offset <= o == 16 * j && o + 16 <= data.Length
      invariant HeadersUpTo(data[..], k, j) == HeadersUpTo(data[..], k, offset / 16)
    {
      NextParagraph(data[..], k, j);
      o, j := o + 16, j + 1;
      Paragraph(o, j);
      if data[o] == Signature(k)[0] && data[o + 1] == Signature(k)[1] &&
         data[o + 2] == Signature(k)[2] && data[o + 3] == Signature(k)[3] {
        return o;
      }
    }
    AllExamined(data[..], k, j);
  }

  /** The checksum a table should have; fails where the program would exit. */
  method CalcValue(data: array<byte>, k: Kind, at: nat) returns (ok: bool, value: byte)
    requires data.Length == LEN_BIOS_DATA && at + 16 <= data.Length
    ensures ok == ChecksPass(data[..], k, at)
    ensures ok ==> value == ExpectedChecksum(data[..], k, at)
  {
    value := 0;
    if !(at + ChecksumAt(k) <= MAX_OFFSET && at + MinHeader(k) <= MAX_OFFSET) {
      return false, 0;
    }
    var len := TableLength(data[..], k, at);
    if !(at + len <= MAX_OFFSET) {
      return false, 0;
    }
    if k == Pcmp && (data[at + 40] != 0 || data[at + 41] != 0 || data[at + 42] != 0) {
      return false, 0;
    }
    ok := true;
    var sum := AddUp(data, at, len, ChecksumAt(k));
    value := (256 - (sum as int)) % 256;
  }

  lemma AddModulo(s: nat, x: byte)
    ensures (s % 256 + x) % 256 == (s + x) % 256
  {
  }

  /** The byte sum of n bytes, leaving out the one at index c. */
  method AddUp(data: array<byte>, at: nat, n: nat, c: nat) returns (sum: byte)
    requires at + n <= data.Length
    ensures sum as nat == SumWithout(data[..], at, n, c) % 256
  {
    sum := 0;
    for i := 0 to n
      invariant sum as nat == SumWithout(data[..], at, i, c) % 256
    {
      if i != c {
        AddModulo(SumWithout(data[..], at, i, c), data[at + i]);
        sum := ((sum as int) + data[at + i]) % 256;
      }
    }
  }

  /** What the scan knows after the headers up to `offset`: how many there are, that
      they pass their checks, and the checksum of the last as it is and should be. */
  ghost predicate Scanned(d: Image, k: Kind, offset: nat, hits: nat, curVal: byte, newVal: byte) {
    && offset % 16 == 0 && offset + 16 <= |d|
    && |HeadersUpTo(d, k, offset / 16)| == hits && AllPass(d, k, HeadersUpTo(d, k, offset / 16))
    && (hits >= 1 ==>
          && HeadersUpTo(d, k, offset / 16)[hits - 1] == offset && ChecksPass(d, k, offset)
          && curVal == d[offset + ChecksumAt(k)] && newVal == ExpectedChecksum(d, k, offset))
  }

  /** Looks at every header of a kind. */
  method ScanKind(data: array<byte>, k: Kind) returns (ok: bool, hits: nat, offset: nat, curVal: byte, newVal: byte)
    requires data.Length == LEN_BIOS_DATA
    ensures ok <==> AllPass(data[..], k, Headers(data[..], k))
    ensures ok ==> Scanned(data[..], k, offset, hits, curVal, newVal)
    ensures ok ==> Headers(data[..], k) == HeadersUpTo(data[..], k, offset / 16)
  {
    hits, offset, curVal, newVal := 0, 0, 0, 0;
    while true
      invariant Scanned(data[..], k, offset, hits, curVal, newVal)
      decreases data.Length - offset
    {
      var next := GetOffset(data, k, offset);
      if next == -1 {
        break;
      }
      ghost var before := HeadersUpTo(data[..], k, offset / 16);
      offset := next;
      var passed;
      passed, newVal := CalcValue(data, k, offset);
      if !passed {
        HeadersPrefix(data[..], k, offset / 16);
        assert Headers(data[..], k)[|before|] == offset;
        return false, hits, offset, curVal, newVal;
      }
      curVal := data[offset + ChecksumAt(k)];
      hits := hits + 1;
    }
    ok := true;
  }

  /** The pass for one kind of table. */
  method FixKind(data: array<byte>, k: Kind) returns (ok: bool)
    requires data.Length == LEN_BIOS_DATA
    modifies data
    ensures (if ok then Fixed(data[..]) else Aborted) == Fix(old(data[..]), k)
  {
    var hits, offset, curVal, newVal;
    ok, hits, offset, curVal, newVal := ScanKind(data, k);
    ghost var d := data[..];
    if ok && hits == 1 {
      if curVal != newVal {
        data[offset + ChecksumAt(k)] := newVal;
      } else {
        assert d[offset + ChecksumAt(k) := newVal] == d;
      }
    }
  }

  lemma {:induction false} PrefixStep(d: Image, k: Kind, j: nat, n: nat)
    requires j <= n && 16 * n + 16 <= |d|
    ensures HeadersUpTo(d, k, j) <= HeadersUpTo(d, k, n)
    decreases n
  {
    if j < n {
      PrefixStep(d, k, j, n - 1);
    }
  }

  lemma HeadersPrefix(d: Image, k: Kind, j: nat)
    requires 16 * j + 16 <= |d|
    ensures HeadersUpTo(d, k, j) <= Headers(d, k)
  {
    PrefixStep(d, k, j, |d| / 16 - 1);
  }

  method FixTables(data: array<byte>, ks: seq<Kind>) returns (ok: bool)
    requires data.Length == LEN_BIOS_DATA
    modifies data
    ensures (if ok then Fixed(data[..]) else Aborted) == FixAll(old(data[..]), ks)
  {
    for j := 0 to |ks|
      invariant FixAll(data[..], ks[j..]) == FixAll(old(data[..]), ks)
    {
      assert ks[j..][0] == ks[j] && ks[j..][1..] == ks[j + 1..];
      ok := FixKind(data, ks[j]);
      if !ok {
        return;
      }
    }
    ok := true;
  }

  method SetImageChecksum(data: array<byte>)
    requires data.Length == LEN_BIOS_DATA
    modifies data
    ensures data[..] == FixImage(old(data[..]))
  {
    ghost var d := data[..];
    var sum := AddUp(data, 0, data.Length - 1, MAX_OFFSET);
    SumSplit(d, 0, data.Length - 1, MAX_OFFSET);
    var newVal: byte := (256 - (sum as int)) % 256;
    if data[MAX_OFFSET] != newVal {
      data[MAX_OFFSET] := newVal;
    } else {
      assert d[MAX_OFFSET := newVal] == d;
    }
  }

  /** The whole run on an image already read into the buffer. */
  method FixBios(data: array<byte>) returns (ok: bool)
    requires data.Length == LEN_BIOS_DATA
    modifies data
    ensures (if ok then Fixed(data[..]) else Aborted) == Run(old(data[..]))
    ensures ok ==> Sum(data[..], 0, 0x1_0000) % 256 == 0
  {
    ghost var d := data[..];
    ok := FixTables(data, [Pci32, Mp, Pcmp, Pir, Pnp]);
    if ok {
      SetImageChecksum(data);
      RunSums(d);
    }
  }
}
