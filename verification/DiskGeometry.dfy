/**
 The logical geometry the BIOS gives a hard disk, and the sector numbering it implies.
 */
module DiskGeometry {
  import opened Words
  import opened Machine
  import opened Arith

  datatype Translation = None | Lba | Large | Rechs

  function Capacity(g: Geometry): nat {
    g.cylinders * g.heads * g.spt
  }

  /** What ATA allows a drive to report. */
  predicate PhysicalOk(p: Geometry) {
    p.heads <= 16 && p.spt <= 63
  }

  // ---------- the translations as functions ----------

  function AssistHeads(h: nat): word {
    if h > 128 then 255 else if h > 64 then 128 else if h > 32 then 64 else if h > 16 then 32 else 16
  }

  /** Halve cylinders and double heads until they fit or the heads run out. */
  function Shift(c: nat, h: nat): (nat, nat)
    decreases c
  {
    if c <= 1024 then (c, h)
    else if h * 2 > 127 then (c / 2, h * 2)
    else Shift(c / 2, h * 2)
  }

  function Clip(c: nat): word { if c > 1024 then 1024 else c }

  function ShiftedGeometry(c: nat, h: nat, spt: word): Geometry
    requires h <= 127
  {
    ShiftBounds(c, h);
    var (c', h') := Shift(c, h);
    Geometry(Clip(c'), h', spt)
  }

  function Translate(t: Translation, p: Geometry, sectorsLow: nat): Geometry
    requires PhysicalOk(p)
  {
    match t
    case None => Geometry(Clip(p.cylinders), p.heads, p.spt)
    case Lba =>
      var tracks := sectorsLow / 63;
      var heads := AssistHeads(U16(tracks / 1024));
      Geometry(Clip(U16(tracks / heads)), heads, 63)
    case Large => ShiftedGeometry(p.cylinders, p.heads, p.spt)
    case Rechs =>
      if p.heads == 16 then ShiftedGeometry(Min(p.cylinders, 61439) * 16 / 15, 15, p.spt)
      else ShiftedGeometry(p.cylinders, p.heads, p.spt)
  }

  lemma {:induction false} ShiftBounds(c: nat, h: nat)
    requires h <= 127
    ensures var (c', h') := Shift(c, h); c' <= c && h' <= 254 && c' * h' <= c * h
    decreases c
  {
    if c > 1024 {
      Halve(c, h);
      if h * 2 <= 127 {
        ShiftBounds(c / 2, h * 2);
      }
    }
  }

  lemma Halve(c: nat, h: nat)
    ensures (c / 2) * (h * 2) <= c * h
  {
    assert (c / 2) * (h * 2) == (c / 2 * 2) * h;
    MulMono(c / 2 * 2, c, h);
  }

  lemma DivTimes(x: nat, d: nat)
    requires d > 0
    ensures x / d * d <= x
  {
  }

  lemma MulMono3(a: nat, b: nat, c: nat, h: nat, s: nat)
    requires a * b <= c * h
    ensures a * b * s <= c * h * s
  {
    MulMono(a * b, c * h, s);
  }

  lemma ShiftedFits(c: nat, h: nat, spt: word)
    requires h <= 127
    ensures var g := ShiftedGeometry(c, h, spt); Capacity(g) <= c * h * spt && g.heads <= 254
  {
    ShiftBounds(c, h);
    var (c', h') := Shift(c, h);
    MulMono(Clip(c'), c', h');
    MulMono3(Clip(c'), h', c, h, spt);
  }

  lemma RechsFits(c: nat, spt: nat)
    ensures Min(c, 61439) * 16 / 15 <= 65534
    ensures (Min(c, 61439) * 16 / 15) * 15 * spt <= c * 16 * spt
  {
    MulMono((Min(c, 61439) * 16 / 15) * 15, c * 16, spt);
  }

  lemma LbaFits(sectorsLow: nat, heads: nat)
    requires heads > 0
    ensures Clip(U16(sectorsLow / 63 / heads)) * heads * 63 <= sectorsLow
  {
    var tracks := sectorsLow / 63;
    MulMono(Clip(U16(tracks / heads)), tracks / heads, heads);
    DivTimes(tracks, heads);
    DivTimes(sectorsLow, 63);
  }

  /** In every mode the logical geometry is addressable by INT 13h and no larger
      than the drive. */
  lemma TranslateFits(t: Translation, p: Geometry, sectorsLow: nat)
    requires PhysicalOk(p)
    ensures var l := Translate(t, p, sectorsLow);
      && l.cylinders <= 1024 && l.heads <= 255 && l.spt <= 63
      && Capacity(l) <= if t == Lba then sectorsLow else Capacity(p)
  {
    match t
    case None =>
      MulMono(Clip(p.cylinders), p.cylinders, p.heads);
      MulMono3(Clip(p.cylinders), p.heads, p.cylinders, p.heads, p.spt);
    case Lba => LbaFits(sectorsLow, AssistHeads(U16(sectorsLow / 63 / 1024)));
    case Large => ShiftedFits(p.cylinders, p.heads, p.spt);
    case Rechs =>
      if p.heads == 16 {
        RechsFits(p.cylinders, p.spt);
        ShiftedFits(Min(p.cylinders, 61439) * 16 / 15, 15, p.spt);
      } else {
        ShiftedFits(p.cylinders, p.heads, p.spt);
      }
  }

  // ---------- how far the shift goes ----------

  function Pow2(j: nat): (p: nat)
    ensures p >= 1
  {
    if j == 0 then 1 else 2 * Pow2(j - 1)
  }

  lemma SmallPowers()
    ensures Pow2(0) == 1 && Pow2(1) == 2 && Pow2(2) == 4 && Pow2(3) == 8 && Pow2(4) == 16
    ensures Pow2(5) == 32 && Pow2(6) == 64
  {
    assert Pow2(3) == 8;
    assert Pow2(5) == 32;
  }

  /** The cylinders fit after j halvings, or the heads have run out. */
  predicate Stops(c: nat, h: nat, j: nat) {
    c / Pow2(j) <= 1024 || h * Pow2(j) > 127
  }

  predicate FirstStop(c: nat, h: nat, j: nat) {
    Stops(c, h, j) && forall i: nat :: i < j ==> !Stops(c, h, i)
  }

  /** Half of x divided by p is x divided by twice p, and twice h times p is h times that. */
  lemma HalfFirst(x: nat, p: nat, h: nat)
    requires p > 0
    ensures x / 2 / p == x / (2 * p) && (h * 2) * p == h * (2 * p)
  {
    var q, r := x / 2 / p, x / 2 % p;
    assert x == 2 * (p * q + r) + x % 2;
    Distribute(2, p * q, r);
    assert 2 * (p * q) == (2 * p) * q;
    DivUnique(x, 2 * p, q, 2 * r + x % 2);
  }

  lemma StopsLater(c: nat, h: nat, i: nat)
    ensures Stops(c / 2, h * 2, i) <==> Stops(c, h, i + 1)
  {
    HalfFirst(c, Pow2(i), h);
  }

  /** The shift stops at the first j at which it may. */
  lemma {:induction false} ShiftStops(c: nat, h: nat) returns (j: nat)
    requires h <= 127
    ensures FirstStop(c, h, j) && Shift(c, h) == (c / Pow2(j), h * Pow2(j))
    decreases c
  {
    j := 0;
    if c > 1024 {
      if h * 2 > 127 {
        j := j + 1;
        StopsLater(c, h, j - 1);
      } else {
        j := ShiftStops(c / 2, h * 2);
        HalfFirst(c, Pow2(j), h);
        j := j + 1;
        forall i: nat | i < j
          ensures !Stops(c, h, i)
        {
          if i > 0 {
            StopsLater(c, h, i - 1);
          }
        }
        StopsLater(c, h, j - 1);
      }
    }
  }

  /** The geometry l is c cylinders of h heads, j times halved and doubled. */
  predicate Halved(l: Geometry, c: nat, h: nat, spt: nat, j: nat) {
    && l.cylinders == (if c / Pow2(j) > 1024 then 1024 else c / Pow2(j)) && l.heads == h * Pow2(j) && l.spt == spt
    // unless the heads run out, what is lost is the remainder of the division
    && (l.heads <= 127 ==> l.cylinders * Pow2(j) <= c < l.cylinders * Pow2(j) + Pow2(j))
  }

  lemma HalvedBy(c: word, h: nat, spt: word) returns (j: nat)
    requires h <= 127
    ensures j <= 6 && FirstStop(c, h, j) && Halved(ShiftedGeometry(c, h, spt), c, h, spt, j)
  {
    j := ShiftStops(c, h);
    DivRest(c, Pow2(j));
    SmallPowers();
    assert Stops(c, h, 6);
  }

  lemma DivRest(x: nat, p: nat)
    requires p > 0
    ensures x / p * p <= x < x / p * p + p
  {
  }

  /** In mode large the cylinders are halved just until they fit or the heads run out. */
  lemma LargeHalves(p: Geometry, sectorsLow: nat) returns (j: nat)
    requires PhysicalOk(p)
    ensures j <= 6 && FirstStop(p.cylinders, p.heads, j)
    ensures Halved(Translate(Large, p, sectorsLow), p.cylinders, p.heads, p.spt, j)
  {
    j := HalvedBy(p.cylinders, p.heads, p.spt);
  }

  /** Mode r-echs does the same, after turning 16 heads into 15. */
  lemma RechsHalves(p: Geometry, sectorsLow: nat) returns (j: nat)
    requires PhysicalOk(p)
    ensures var c, h := if p.heads == 16 then Min(p.cylinders, 61439) * 16 / 15 else p.cylinders,
                        if p.heads == 16 then 15 else p.heads;
      j <= 6 && FirstStop(c, h, j) && Halved(Translate(Rechs, p, sectorsLow), c, h, p.spt, j)
  {
    if p.heads == 16 {
      RechsFits(p.cylinders, p.spt);
      j := HalvedBy(Min(p.cylinders, 61439) * 16 / 15, 15, p.spt);
    } else {
      j := HalvedBy(p.cylinders, p.heads, p.spt);
    }
  }

  /** Mode lba takes the least head count of its list that is no less than the estimate,
      and 255 for larger ones; without translation only the cylinders are clipped. */
  lemma LbaHeads(p: Geometry, sectorsLow: nat)
    requires PhysicalOk(p)
    ensures var tracks, l := sectorsLow / 63, Translate(Lba, p, sectorsLow);
      var estimate := tracks / 1024 % 0x1_0000;
      && l.heads in {16, 32, 64, 128, 255} && (l.heads == 255 <==> estimate > 128)
      && (estimate <= 128 ==> estimate <= l.heads)
      && (l.heads in {32, 64, 128} ==> estimate > l.heads / 2)
      && l.cylinders == Min(tracks / l.heads % 0x1_0000, 1024) && l.spt == 63
    ensures Translate(None, p, sectorsLow) == Geometry(Min(p.cylinders, 1024), p.heads, p.spt)
  {
  }

  // ---------- what 16-bit arithmetic costs in lba mode ----------

  /** The lba-assist geometry without truncation. */
  function IdealLba(sectorsLow: nat): Geometry {
    var tracks := sectorsLow / 63;
    var heads := AssistHeads(tracks / 1024);
    Geometry(Clip(tracks / heads), heads, 63)
  }

  /** Truncation shows exactly when the head estimate loses bits and comes out at
      128 or less, or the cylinder count does and comes out below 1024. */
  lemma LbaExact(p: Geometry, sectorsLow: nat)
    requires PhysicalOk(p)
    ensures var tracks := sectorsLow / 63;
      var estimate := tracks / 1024;
      var full := tracks / AssistHeads(estimate);
      Translate(Lba, p, sectorsLow) == IdealLba(sectorsLow) <==>
        (estimate < 0x1_0000 || estimate % 0x1_0000 > 128) && (full < 0x1_0000 || full % 0x1_0000 >= 1024)
  {
  }

  /** A drive just over 500 GB gets no cylinders at all. */
  lemma LbaTruncates(p: Geometry)
    requires PhysicalOk(p)
    ensures Translate(Lba, p, 1052835840) == Geometry(0, 255, 63)
    ensures IdealLba(1052835840) == Geometry(1024, 255, 63)
  {
  }

  // ---------- the code ----------

  method DetectGeometry(t: Translation, p: Geometry, sectorsLow: nat) returns (l: Geometry)
    requires PhysicalOk(p) && sectorsLow < 0x1_0000_0000
    ensures l == Translate(t, p, sectorsLow)
  {
    var cylinders, heads, spt := p.cylinders, p.heads, p.spt;
    match t {
      case None =>
      case Lba =>
        spt := 63;
        cylinders, heads := AssistLba(sectorsLow / 63);
      case Large => cylinders, heads := ShiftLarge(cylinders, heads);
      case Rechs =>
        if heads == 16 {
          RechsFits(cylinders, spt);
          if cylinders > 61439 { cylinders := 61439; }
          heads := 15;
          cylinders := U16((cylinders as int) * 16 / 15);
        }
        cylinders, heads := ShiftLarge(cylinders, heads);
    }
    if cylinders > 1024 { cylinders := 1024; }
    l := Geometry(cylinders, heads, spt);
  }

  method AssistLba(tracks: nat) returns (cylinders: word, heads: word)
    ensures heads == AssistHeads(U16(tracks / 1024)) && cylinders == U16(tracks / heads)
  {
    heads := U16(tracks / 1024);
    if heads > 128 { heads := 255; }
    else if heads > 64 { heads := 128; }
    else if heads > 32 { heads := 64; }
    else if heads > 16 { heads := 32; }
    else { heads := 16; }
    cylinders := U16(tracks / heads);
  }

  method ShiftLarge(c: word, h: word) returns (cylinders: word, heads: word)
    requires h <= 127
    ensures (cylinders as nat, heads as nat) == Shift(c, h)
  {
    cylinders, heads := c, h;
    while cylinders > 1024
      invariant heads <= 127 && Shift(c, h) == Shift(cylinders, heads)
      decreases cylinders
    {
      cylinders := cylinders / 2;
      heads := U16(heads * 2);
      if heads > 127 { break; }
    }
  }

  // ---------- sector numbering ----------

  /** A cylinder/head/sector address, sectors counted from 1. */
  datatype Chs = Chs(c: nat, h: nat, s: nat)

  predicate InGeometry(g: Geometry, a: Chs) {
    a.c < g.cylinders && a.h < g.heads && 1 <= a.s <= g.spt
  }

  function SectorIndex(g: Geometry, a: Chs): int {
    (a.c * g.heads + a.h) * g.spt + a.s - 1
  }

  function SectorAddress(g: Geometry, i: nat): Chs
    requires g.heads > 0 && g.spt > 0
  {
    var track: nat := i / g.spt;
    Chs(track / g.heads, track % g.heads, i % g.spt + 1)
  }

  lemma IndexBound(x: nat, n: nat, r: nat, m: nat)
    requires x < n && r < m
    ensures x * m + r < n * m
  {
    MulMono(x + 1, n, m);
    Distribute(m, x, 1);
  }

  /** Addresses within the geometry are numbered below its capacity ... */
  lemma IndexInCapacity(g: Geometry, a: Chs)
    requires InGeometry(g, a)
    ensures 0 <= SectorIndex(g, a) < Capacity(g)
  {
    IndexBound(a.c, g.cylinders, a.h, g.heads);
    IndexBound(a.c * g.heads + a.h, g.cylinders * g.heads, a.s - 1, g.spt);
  }

  /** ... each by a number that gives it back ... */
  lemma AddressOfIndex(g: Geometry, a: Chs)
    requires InGeometry(g, a)
    ensures SectorIndex(g, a) >= 0 && SectorAddress(g, SectorIndex(g, a)) == a
  {
    IndexInCapacity(g, a);
    var t := a.c * g.heads + a.h;
    assert SectorIndex(g, a) == g.spt * t + (a.s - 1);
    DivUnique(SectorIndex(g, a), g.spt, t, a.s - 1);
    assert t == g.heads * a.c + a.h;
    DivUnique(t, g.heads, a.c, a.h);
  }

  /** ... and every number below the capacity is the number of an address. */
  lemma IndexOfAddress(g: Geometry, i: nat)
    requires i < Capacity(g)
    ensures g.heads > 0 && g.spt > 0
    ensures InGeometry(g, SectorAddress(g, i)) && SectorIndex(g, SectorAddress(g, i)) == i
  {
    NotEmpty(g.cylinders, g.heads, g.spt);
    DivBelow(i, g.cylinders * g.heads, g.spt);
    DivBelow(i / g.spt, g.cylinders, g.heads);
    Recompose(i / g.spt, g.heads);
    Recompose(i, g.spt);
  }

  lemma NotEmpty(c: nat, h: nat, s: nat)
    requires c * h * s > 0
    ensures c > 0 && h > 0 && s > 0
  {
  }

  lemma Recompose(x: nat, m: nat)
    requires m > 0
    ensures x / m * m + x % m == x && 0 <= x % m < m && x / m >= 0
  {
  }

  lemma DivBelow(x: nat, n: nat, m: nat)
    requires m > 0 && x < n * m
    ensures x / m < n
  {
    if x / m >= n {
      MulMono(n, x / m, m);
      DivTimes(x, m);
    }
  }

  // ---------- drive parameters ----------

  /** Function 08: the registers CH, CL and DH that describe a geometry. */
  function ParamCh(l: Geometry): byte { U16(l.cylinders - 1) % 256 }
  function ParamCl(l: Geometry): byte { U16(l.cylinders - 1) / 256 % 4 * 64 + l.spt % 64 }
  function ParamDh(l: Geometry): byte { U16(l.heads - 1) % 256 }

  /** Functions 02 and 03: the address in CH, CL and DH. */
  function DecodeChs(ch: byte, cl: byte, dh: byte): Chs {
    Chs(cl / 64 * 256 + ch, dh, cl % 64)
  }

  /** What function 08 reports is the last sector of the geometry, and functions 02
      and 03 accept it exactly when the geometry is not empty. */
  lemma ParametersDecode(l: Geometry)
    requires l.cylinders <= 1024 && l.heads <= 255 && l.spt <= 63
    ensures var a := DecodeChs(ParamCh(l), ParamCl(l), ParamDh(l));
      && (InGeometry(l, a) <==> Capacity(l) > 0)
      && (Capacity(l) > 0 ==>
            a == Chs(l.cylinders - 1, l.heads - 1, l.spt) && SectorIndex(l, a) == Capacity(l) - 1)
  {
    if l.cylinders > 0 && l.heads > 0 && l.spt > 0 {
      LastSector(l.cylinders, l.heads, l.spt);
      ParametersOf(l);
      IndexInCapacity(l, Chs(l.cylinders - 1, l.heads - 1, l.spt));
    } else {
      assert Capacity(l) == 0;
    }
  }

  lemma LastSector(c: nat, h: nat, s: nat)
    ensures ((c - 1) * h + (h - 1)) * s + s - 1 == c * h * s - 1
  {
    Distribute(h, c - 1, 1);
    Distribute(s, c * h - 1, 1);
  }

  lemma ParametersOf(l: Geometry)
    requires 1 <= l.cylinders <= 1024 && 1 <= l.heads <= 255 && 1 <= l.spt <= 63
    ensures DecodeChs(ParamCh(l), ParamCl(l), ParamDh(l)) == Chs(l.cylinders - 1, l.heads - 1, l.spt)
  {
  }
}
