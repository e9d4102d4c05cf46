/** A mounted FAT12/16 volume: the one-sector write-back window of tff.c over the device, and the FAT behind it. */
module FatVolume {
  import opened Storage
  import opened FatTable

  datatype FatType = Fat12 | Fat16

  /** What auto_mount fixes once and for all. */
  datatype Geometry = Geometry(fatType: FatType, fatbase: nat, sectsFat: nat, nFats: nat, dirbase: nat, nRootdir: nat,
                               database: nat, sectsClust: nat, maxClust: nat)
  {
    ghost predicate Valid(nsects: nat) {
      && fatbase >= 1 && sectsFat >= 1 && nFats >= 1
      && dirbase == fatbase + nFats * sectsFat
      && nRootdir % 16 == 0 && database == dirbase + nRootdir / 16
      && sectsClust in {1, 2, 4, 8, 16, 32, 64, 128}
      && 2 <= maxClust <= (if fatType.Fat12? then 0xFF7 else 0xFFF7)
      && (if fatType.Fat12? then (maxClust * 3 + 1) / 2 else maxClust * 2) <= 512 * sectsFat
      && database + (maxClust - 2) * sectsClust <= nsects
    }

    ghost predicate InFat(s: nat) { fatbase <= s < fatbase + sectsFat }

    /** The sectors of the second and further FAT copies. */
    ghost predicate Mirror(s: nat) { fatbase + sectsFat <= s < dirbase }

    ghost function Copy(s: nat, k: nat): nat { s + k * sectsFat }

    function EndMark(): nat { if fatType.Fat12? then 0xFFF else 0xFFFF }

    function Width(): nat { if fatType.Fat12? then 0x1000 else 0x10000 }

    /** Byte `k` of the first FAT. */
    ghost function FatByte(img: seq<Sector>, k: nat): Byte
      requires Valid(|img|) && k < 512 * sectsFat
    {
      FatFits(|img|);
      img[fatbase + k / 512][k % 512]
    }

    lemma FatFits(nsects: nat)
      requires Valid(nsects)
      ensures fatbase + sectsFat <= dirbase <= database <= nsects
    {
      assert nFats * sectsFat >= sectsFat;
      assert (maxClust - 2) * sectsClust >= 0;
    }

    lemma Marks(nsects: nat)
      requires Valid(nsects)
      ensures 2 <= maxClust <= EndMark() < Width() && 0xFFFF % Width() == EndMark() && maxClust <= 0xFFF7
    {
    }

    lemma Sizes(nsects: nat)
      requires Valid(nsects)
      ensures sectsClust in {1, 2, 4, 8, 16, 32, 64, 128} && nRootdir % 16 == 0
    {
    }

    lemma Cut(nsects: nat, v: nat)
      requires Valid(nsects) && v < maxClust
      ensures v % Width() == v
    {
    }

    /** The FAT entry of cluster `c` ("FAT Data Structure": 12-bit entries lie packed, two in three bytes). */
    ghost function Entry(img: seq<Sector>, c: nat): nat
      requires Valid(|img|) && c < maxClust
    {
      if fatType.Fat16? then FatByte(img, 2 * c) + 256 * FatByte(img, 2 * c + 1)
      else
        Packed(c, FatByte(img, c * 3 / 2), FatByte(img, c * 3 / 2 + 1))
    }

    /** The sector with the first byte of an entry. */
    ghost function EntrySector(c: nat): nat {
      fatbase + (if fatType.Fat12? then c * 3 / 2 else 2 * c) / 512
    }

    ghost function TableOf(img: seq<Sector>): (t: Table)
      requires Valid(|img|)
      ensures |t| == maxClust
    {
      seq(maxClust, c requires 0 <= c < maxClust => Entry(img, c))
    }
  }

  /** Entry `c` out of its two bytes: the odd entry of a pair starts in the upper half of the shared byte. */
  function Packed(c: nat, lo: nat, hi: nat): nat {
    if c % 2 == 1 then lo / 16 + 16 * hi else lo + 256 * (hi % 16)
  }

  /** As the standard draws it: three bytes hold the even entry and the odd one behind it. */
  lemma PackedPair(geo: Geometry, img: seq<Sector>, pair: nat)
    requires geo.Valid(|img|) && geo.fatType.Fat12? && 2 * pair + 1 < geo.maxClust
    ensures 3 * pair + 2 < 512 * geo.sectsFat
    ensures var b0, b1 := geo.FatByte(img, 3 * pair), geo.FatByte(img, 3 * pair + 1);
            var b2 := geo.FatByte(img, 3 * pair + 2);
            geo.Entry(img, 2 * pair) == b0 + 256 * (b1 % 16) && geo.Entry(img, 2 * pair + 1) == b1 / 16 + 16 * b2
  {
    PairBytes(pair);
    EntryFits(geo, |img|, 2 * pair + 1);
    PackedHalves(2 * pair, geo.FatByte(img, 3 * pair), geo.FatByte(img, 3 * pair + 1));
    PackedHalves(2 * pair + 1, geo.FatByte(img, 3 * pair + 1), geo.FatByte(img, 3 * pair + 2));
    hide Packed;
  }

  lemma PairBytes(pair: nat)
    ensures 2 * pair * 3 / 2 == 3 * pair && (2 * pair + 1) * 3 / 2 == 3 * pair + 1
    ensures 2 * pair % 2 == 0 && (2 * pair + 1) % 2 == 1
  {
  }

  lemma PackedHalves(c: nat, lo: nat, hi: nat)
    ensures c % 2 == 0 ==> Packed(c, lo, hi) == lo + 256 * (hi % 16)
    ensures c % 2 == 1 ==> Packed(c, lo, hi) == lo / 16 + 16 * hi
  {
  }

  /** A 16-bit entry is two bytes, low byte first. */
  lemma WordEntry(geo: Geometry, img: seq<Sector>, c: nat)
    requires geo.Valid(|img|) && geo.fatType.Fat16? && c < geo.maxClust
    ensures geo.fatbase + c / 256 < |img|
    ensures var sector := img[geo.fatbase + c / 256];
            geo.Entry(img, c) == sector[2 * (c % 256)] as nat + 256 * sector[2 * (c % 256) + 1] as nat
  {
    geo.FatFits(|img|);
    assert 2 * c / 512 == c / 256 && 2 * c % 512 == 2 * (c % 256);
    assert (2 * c + 1) / 512 == c / 256 && (2 * c + 1) % 512 == 2 * (c % 256) + 1;
  }

  /** The sector an entry begins in: 256 entries of 16 bits go into one, 1024 of 12 bits into three. */
  lemma EntryBegins(geo: Geometry, c: nat)
    ensures geo.fatType.Fat16? ==> geo.EntrySector(c) == geo.fatbase + c / 256
    ensures geo.fatType.Fat12? ==> geo.EntrySector(c) == geo.fatbase + 3 * c / 1024
  {
    assert 2 * c / 512 == c / 256 && c * 3 / 2 / 512 == 3 * c / 1024;
  }

  /** Where byte `k` of the first FAT is. */
  lemma FatByteIs(geo: Geometry, img: seq<Sector>, k: nat)
    requires geo.Valid(|img|) && k < 512 * geo.sectsFat
    ensures geo.fatbase + k / 512 < |img| && geo.FatByte(img, k) == img[geo.fatbase + k / 512][k % 512]
  {
    geo.FatFits(|img|);
  }

  /** Equal but for the further FAT copies. */
  ghost predicate Kept(geo: Geometry, a: seq<Sector>, b: seq<Sector>) {
    |a| == |b| && forall s: nat :: s < |a| && !geo.Mirror(s) ==> a[s] == b[s]
  }

  lemma KeptTable(geo: Geometry, a: seq<Sector>, b: seq<Sector>)
    requires geo.Valid(|a|) && Kept(geo, a, b)
    ensures geo.TableOf(a) == geo.TableOf(b)
  {
    geo.FatFits(|a|);
    assert forall k: nat :: k < 512 * geo.sectsFat ==> geo.FatByte(a, k) == geo.FatByte(b, k);
  }

  /** A FAT byte seen through the window. */
  lemma SeenByte(geo: Geometry, img: seq<Sector>, now: seq<Sector>, w: seq<Byte>, k: nat)
    requires geo.Valid(|img|) && Kept(geo, img, now) && k < 512 * geo.sectsFat
    requires geo.fatbase + k / 512 < |now| && w == now[geo.fatbase + k / 512]
    ensures w[k % 512] == geo.FatByte(img, k)
  {
    geo.FatFits(|img|);
  }

  lemma Unpacked(lo: nat, hi: nat)
    requires lo < 256
    ensures (lo + hi * 256) / 16 == lo / 16 + 16 * hi
    ensures (lo + hi * 256) % 0x1000 == lo + 256 * (hi % 16)
  {
    assert lo + hi * 256 == 16 * (lo / 16 + 16 * hi) + lo % 16;
    assert hi == 16 * (hi / 16) + hi % 16;
    RemainderOf(lo + hi * 256, 0x1000, hi / 16, lo + 256 * (hi % 16));
  }

  lemma WordAt(clust: nat)
    ensures 2 * clust / 512 == clust / 256 && (2 * clust + 1) / 512 == clust / 256
    ensures (clust * 2) % 512 == (2 * clust) % 512 && (2 * clust + 1) % 512 == (2 * clust) % 512 + 1 < 512
  {
  }

  lemma EntryFits(geo: Geometry, nsects: nat, clust: nat)
    requires geo.Valid(nsects) && clust < geo.maxClust
    ensures geo.fatType.Fat12? ==> clust * 3 / 2 + 1 < 512 * geo.sectsFat
    ensures geo.fatType.Fat16? ==> 2 * clust + 1 < 512 * geo.sectsFat
  {
  }

  lemma KeptBytes(geo: Geometry, a: seq<Sector>, b: seq<Sector>)
    requires geo.Valid(|a|) && Kept(geo, a, b)
    ensures forall k: nat {:trigger geo.FatByte(b, k)} :: k < 512 * geo.sectsFat ==>
              geo.FatByte(b, k) == geo.FatByte(a, k)
  {
    geo.FatFits(|a|);
  }

  lemma KeptTwice(geo: Geometry, a: seq<Sector>, b: seq<Sector>, c: seq<Sector>)
    requires Kept(geo, a, b) && Kept(geo, b, c)
    ensures Kept(geo, a, c)
  {
  }

  // ------------------------------------------------------------ changing FAT bytes

  /** Equal outside the FATs: directories and file data. */
  ghost predicate DataKept(geo: Geometry, a: seq<Sector>, b: seq<Sector>) {
    |a| == |b| && forall s: nat :: s < |a| && !geo.InFat(s) && !geo.Mirror(s) ==> a[s] == b[s]
  }

  /** The first FATs of `a` and `b` agree but for byte `k`, which is `v` in `b`. */
  ghost predicate ByteChanged(geo: Geometry, a: seq<Sector>, b: seq<Sector>, k: nat, v: Byte)
    requires geo.Valid(|a|) && |a| == |b| && k < 512 * geo.sectsFat
  {
    && geo.FatByte(b, k) == v
    && forall j: nat {:trigger geo.FatByte(b, j)} :: j < 512 * geo.sectsFat && j != k ==>
        geo.FatByte(b, j) == geo.FatByte(a, j)
  }

  lemma KeptThenChanged(geo: Geometry, a: seq<Sector>, b: seq<Sector>, c: seq<Sector>, k: nat, v: Byte)
    requires geo.Valid(|a|) && Kept(geo, a, b) && |b| == |c| && k < 512 * geo.sectsFat
    requires ByteChanged(geo, b, c, k, v) && DataKept(geo, b, c)
    ensures ByteChanged(geo, a, c, k, v) && DataKept(geo, a, c)
  {
    KeptBytes(geo, a, b);
  }

  lemma NothingChanged(geo: Geometry, a: seq<Sector>)
    ensures Kept(geo, a, a) && DataKept(geo, a, a)
  {
  }

  lemma KeptIsData(geo: Geometry, a: seq<Sector>, b: seq<Sector>)
    requires Kept(geo, a, b)
    ensures DataKept(geo, a, b) && |a| == |b|
  {
  }

  lemma DataKeptTwice(geo: Geometry, a: seq<Sector>, b: seq<Sector>, c: seq<Sector>)
    requires DataKept(geo, a, b) && (DataKept(geo, b, c) || Kept(geo, b, c))
    ensures DataKept(geo, a, c)
  {
  }

  /** Byte 0 and byte 1 of a changed 12-bit entry, given what was there. */
  function Low12(clust: nat, val: nat, was: nat): nat {
    if clust % 2 == 1 then was % 16 + (val * 16) % 256 else val % 256
  }

  function High12(clust: nat, val: nat, was: nat): nat {
    if clust % 2 == 1 then (val / 16) % 256 else was / 16 * 16 + (val / 256) % 16
  }

  lemma Low12Fits(clust: nat, val: nat, was: Byte)
    ensures Low12(clust, val, was) < 256 && High12(clust, val, was) < 256
    ensures clust % 2 == 1 ==> Low12(clust, val, was) % 16 == was % 16 && Low12(clust, val, was) / 16 == val % 16
    ensures clust % 2 == 0 ==>
              High12(clust, val, was) / 16 == was / 16 && High12(clust, val, was) % 16 == (val / 256) % 16
  {
    assert val * 16 == 256 * (val / 16) + 16 * (val % 16);
    assert (val * 16) % 256 == 16 * (val % 16);
    assert was == 16 * (was / 16) + was % 16;
  }

  lemma Joined12(val: nat)
    ensures val % 16 + 16 * ((val / 16) % 256) == val % 0x1000
    ensures val % 256 + 256 * ((val / 256) % 16) == val % 0x1000
  {
    RemainderOf(val, 0x1000, val / 16 / 256, val % 16 + 16 * ((val / 16) % 256));
    RemainderOf(val, 0x1000, val / 256 / 16, val % 256 + 256 * ((val / 256) % 16));
  }

  lemma RemainderOf(val: nat, base: nat, q: nat, r: nat)
    requires r < base && val == q * base + r
    ensures val % base == r
  {
    var d := val / base - q;
    assert val == (val / base) * base + val % base;
    assert d * base == (val / base) * base - q * base;
    if d > 0 {
      Apart(0, d, base);
    } else if d < 0 {
      Apart(0, -d, base);
    }
  }

  /** Entries overlap only in pairs, in the second byte of the even one. */
  lemma Overlap(c: nat, d: nat)
    requires c != d
    ensures c * 3 / 2 != d * 3 / 2 && c * 3 / 2 + 1 != d * 3 / 2 + 1
    ensures c * 3 / 2 == d * 3 / 2 + 1 ==> d % 2 == 0 && c % 2 == 1
  {
    assert c * 3 / 2 == c + c / 2 && d * 3 / 2 == d + d / 2;
  }

  /** After the first of the two bytes only the entry itself has changed, the neighbour that shares the byte has not. */
  lemma HalfPut12(geo: Geometry, a: seq<Sector>, b: seq<Sector>, clust: nat, val: nat, d: nat)
    requires geo.Valid(|a|) && |a| == |b| && geo.fatType.Fat12? && clust < geo.maxClust && d < geo.maxClust
    requires d != clust
    requires clust * 3 / 2 + 1 < 512 * geo.sectsFat
    requires Low12(clust, val, geo.FatByte(a, clust * 3 / 2)) < 256
    requires ByteChanged(geo, a, b, clust * 3 / 2, Low12(clust, val, geo.FatByte(a, clust * 3 / 2)))
    ensures geo.Entry(b, d) == geo.Entry(a, d)
  {
    EntryFits(geo, |a|, d);
    Overlap(clust, d);
    Low12Fits(clust, val, geo.FatByte(a, clust * 3 / 2));
  }

  lemma OtherHalf12(geo: Geometry, b: seq<Sector>, c: seq<Sector>, clust: nat, val: nat, was: Byte, d: nat)
    requires geo.Valid(|b|) && |b| == |c| && geo.fatType.Fat12? && clust < geo.maxClust && d < geo.maxClust
    requires d != clust
    requires clust * 3 / 2 + 1 < 512 * geo.sectsFat
    requires High12(clust, val, was) < 256 && was == geo.FatByte(b, clust * 3 / 2 + 1)
    requires ByteChanged(geo, b, c, clust * 3 / 2 + 1, High12(clust, val, was))
    ensures geo.Entry(c, d) == geo.Entry(b, d)
  {
    EntryFits(geo, |b|, d);
    Overlap(d, clust);
    Low12Fits(clust, val, was);
  }

  lemma OwnEntry12(clust: nat, val: nat, lo: Byte, hi: Byte)
    ensures Packed(clust, Low12(clust, val, lo), High12(clust, val, hi)) == val % 0x1000
  {
    Low12Fits(clust, val, lo);
    Low12Fits(clust, val, hi);
    Joined12(val);
  }

  /** One of the two bytes of entry `clust` has been changed towards `val`, given what it was. */
  ghost predicate HalfChanged(geo: Geometry, a: seq<Sector>, b: seq<Sector>, clust: nat, val: nat, upper: bool)
    requires geo.Valid(|a|) && |a| == |b| && clust * 3 / 2 + 1 < 512 * geo.sectsFat
  {
    var k := clust * 3 / 2 + if upper then 1 else 0;
    var v := if upper then High12(clust, val, geo.FatByte(a, k)) else Low12(clust, val, geo.FatByte(a, k));
    v < 256 && ByteChanged(geo, a, b, k, v)
  }

  /** A 12-bit entry of which only the first byte has been written: the low 4 bits of an odd one, the low 8 of
      an even. */
  function HalfWritten(clust: nat, val: nat, was: nat): nat {
    if clust % 2 == 1 then val % 16 + was / 16 * 16 else val % 256 + was / 256 * 256
  }

  lemma OwnHalf12(clust: nat, val: nat, lo: Byte, hi: Byte)
    ensures Packed(clust, Low12(clust, val, lo), hi) == HalfWritten(clust, val, Packed(clust, lo, hi))
  {
    Low12Fits(clust, val, lo);
    if clust % 2 == 1 {
      assert (lo / 16 + 16 * hi) / 16 == hi;
    } else {
      assert (lo + 256 * (hi % 16)) / 256 == hi % 16;
    }
  }

  /** The table after the first byte. */
  lemma HalfTable12(geo: Geometry, a: seq<Sector>, b: seq<Sector>, clust: nat, val: nat)
    requires geo.Valid(|a|) && |a| == |b| && geo.fatType.Fat12? && clust < geo.maxClust
    requires clust * 3 / 2 + 1 < 512 * geo.sectsFat && HalfChanged(geo, a, b, clust, val, false)
    ensures geo.TableOf(b) == geo.TableOf(a)[clust := HalfWritten(clust, val, geo.TableOf(a)[clust])]
  {
    hide Low12, HalfWritten, Packed;
    OwnHalf12(clust, val, geo.FatByte(a, clust * 3 / 2), geo.FatByte(a, clust * 3 / 2 + 1));
    forall d | 0 <= d < geo.maxClust
      ensures geo.Entry(b, d) == if d == clust then HalfWritten(clust, val, geo.Entry(a, d)) else geo.Entry(a, d)
    {
      if d != clust { HalfPut12(geo, a, b, clust, val, d); }
    }
  }

  lemma Put12(geo: Geometry, a: seq<Sector>, b: seq<Sector>, c: seq<Sector>, clust: nat, val: nat)
    requires geo.Valid(|a|) && |a| == |b| == |c| && geo.fatType.Fat12? && clust < geo.maxClust
    requires clust * 3 / 2 + 1 < 512 * geo.sectsFat
    requires HalfChanged(geo, a, b, clust, val, false) && HalfChanged(geo, b, c, clust, val, true)
    ensures geo.TableOf(c) == geo.TableOf(a)[clust := val % 0x1000]
  {
    hide High12, Low12;
    assert geo.FatByte(c, clust * 3 / 2) == geo.FatByte(b, clust * 3 / 2);
    assert geo.FatByte(b, clust * 3 / 2 + 1) == geo.FatByte(a, clust * 3 / 2 + 1);
    OwnEntry12(clust, val, geo.FatByte(a, clust * 3 / 2), geo.FatByte(a, clust * 3 / 2 + 1));
    forall d | 0 <= d < geo.maxClust
      ensures geo.Entry(c, d) == if d == clust then val % 0x1000 else geo.Entry(a, d)
    {
      if d != clust {
        HalfPut12(geo, a, b, clust, val, d);
        assert High12(clust, val, geo.FatByte(b, clust * 3 / 2 + 1)) < 256;
        OtherHalf12(geo, b, c, clust, val, geo.FatByte(b, clust * 3 / 2 + 1), d);
      }
    }
  }

  lemma Joined16(val: nat)
    ensures val % 256 + 256 * ((val / 256) % 256) == val % 0x10000
  {
    RemainderOf(val, 0x10000, val / 256 / 256, val % 256 + 256 * ((val / 256) % 256));
  }

  lemma Put16(geo: Geometry, a: seq<Sector>, b: seq<Sector>, c: seq<Sector>, clust: nat, val: nat)
    requires geo.Valid(|a|) && |a| == |b| == |c| && geo.fatType.Fat16? && 2 <= clust < geo.maxClust
    requires 2 * clust + 1 < 512 * geo.sectsFat
    requires ByteChanged(geo, a, b, 2 * clust, val % 256)
    requires ByteChanged(geo, b, c, 2 * clust + 1, (val / 256) % 256)
    ensures geo.TableOf(c) == geo.TableOf(a)[clust := val % 0x10000]
  {
    Joined16(val);
    assert geo.FatByte(c, 2 * clust) == geo.FatByte(b, 2 * clust);
    forall d | 0 <= d < geo.maxClust
      ensures geo.Entry(c, d) == if d == clust then val % 0x10000 else geo.Entry(a, d)
    {
      if d != clust {
        Elsewhere16(geo, a, b, c, clust, d, val % 256, (val / 256) % 256);
      }
    }
  }

  lemma Elsewhere16(geo: Geometry, a: seq<Sector>, b: seq<Sector>, c: seq<Sector>, clust: nat, d: nat, lo: Byte,
                    hi: Byte)
    requires geo.Valid(|a|) && |a| == |b| == |c| && geo.fatType.Fat16? && d < geo.maxClust && d != clust
    requires 2 * clust + 1 < 512 * geo.sectsFat
    requires ByteChanged(geo, a, b, 2 * clust, lo) && ByteChanged(geo, b, c, 2 * clust + 1, hi)
    ensures geo.Entry(c, d) == geo.Entry(a, d)
  {
    EntryFits(geo, |a|, d);
    assert geo.FatByte(c, 2 * d) == geo.FatByte(b, 2 * d) == geo.FatByte(a, 2 * d);
    assert geo.FatByte(c, 2 * d + 1) == geo.FatByte(b, 2 * d + 1) == geo.FatByte(a, 2 * d + 1);
  }

  /** Two multiples of `f`. */
  lemma Apart(k1: nat, k2: nat, f: nat)
    requires k1 < k2
    ensures k1 * f + f <= k2 * f
  {
    var d := k2 - k1 - 1;
    Distribute(k1, 1 + d, f);
    Distribute(1, d, f);
    Positive(d, f);
  }

  lemma Distribute(a: nat, b: nat, f: nat)
    ensures (a + b) * f == a * f + b * f
  {
  }

  lemma Positive(a: nat, b: nat)
    ensures a * b >= 0
  {
  }

  lemma CopyInjective(geo: Geometry, s1: nat, k1: nat, s2: nat, k2: nat)
    requires geo.InFat(s1) && geo.InFat(s2) && geo.Copy(s1, k1) == geo.Copy(s2, k2)
    ensures s1 == s2 && k1 == k2
  {
    if k1 < k2 {
      Apart(k1, k2, geo.sectsFat);
    } else if k2 < k1 {
      Apart(k2, k1, geo.sectsFat);
    }
  }

  lemma CopyInMirror(geo: Geometry, nsects: nat, s: nat, k: nat)
    requires geo.Valid(nsects) && geo.InFat(s) && 1 <= k < geo.nFats
    ensures geo.Mirror(geo.Copy(s, k)) && geo.Copy(s, k) < nsects
  {
    geo.FatFits(nsects);
    Apart(0, k, geo.sectsFat);
    Apart(k, geo.nFats, geo.sectsFat);
  }

  /** How a call leaves the window: right, or stale on the sector it was stale on. */
  ghost predicate Steady(right: bool, sect: nat, right': bool, sect': nat) {
    right' || (!right && sect' == sect)
  }

  lemma StaysSteady(right: bool, sect: nat, right': bool, sect': nat, right'': bool, sect'': nat)
    ensures Steady(right, sect, right, sect)
    ensures Steady(right, sect, right', sect') && Steady(right', sect', right'', sect'') ==>
              Steady(right, sect, right'', sect'')
  {
  }

  class Volume {
    const disk: Disk
    const win: array<Byte>
    const geo: Geometry
    var winsect: nat
    var winflag: bool
    var lastClust: nat
    var freeClust: nat
    /** The mount this object belongs to; files and directories remember theirs. */
    var id: nat

    ghost predicate Shape()
      reads `winsect, `winflag, disk`sects, win
    {
      && win.Length == 512
      && geo.Valid(|disk.sects|)
      && (winflag ==> geo.fatbase <= winsect < |disk.sects| && !geo.Mirror(winsect))
    }

    /** A clean window shows the sector it names. */
    ghost predicate Coherent()
      reads `winsect, `winflag, disk`sects, win
    {
      winsect == 0 || winflag || (winsect < |disk.sects| && win[..] == disk.sects[winsect])
    }

    /** If the window shows `sector`, it shows it right. */
    ghost predicate Trusts(sector: nat)
      reads `winsect, `winflag, disk`sects, win
    {
      Coherent() || winsect != sector
    }

    /** The volume as its user sees it: the device with a dirty window laid over it. */
    ghost function Image(): (img: seq<Sector>)
      requires Shape()
      reads `winsect, `winflag, disk`sects, win
      ensures |img| == |disk.sects|
    {
      if winflag then disk.sects[winsect := win[..]] else disk.sects
    }

    /** All copies of every FAT sector agree, except those of a sector still dirty in the window. */
    ghost predicate MirrorsAgree()
      requires Shape()
      reads `winsect, `winflag, disk`sects, win
    {
      forall s: nat, k: nat {:trigger geo.Copy(s, k)} ::
        geo.InFat(s) && 1 <= k < geo.nFats && !(winflag && s == winsect) && geo.Copy(s, k) < |disk.sects| ==>
          s < |disk.sects| && disk.sects[geo.Copy(s, k)] == disk.sects[s]
    }

    /** The same, whatever the copies of sector `except` hold. */
    ghost predicate OthersAgree(except: nat)
      requires Shape()
      reads `winsect, `winflag, disk`sects, win
    {
      forall s: nat, k: nat {:trigger geo.Copy(s, k)} ::
        geo.InFat(s) && 1 <= k < geo.nFats && s != except && geo.Copy(s, k) < |disk.sects| ==>
          s < |disk.sects| && disk.sects[geo.Copy(s, k)] == disk.sects[s]
    }

    /** As auto_mount leaves it: nothing in the window yet, no free count. */
    constructor (disk: Disk, geo: Geometry, id: nat)
      requires geo.Valid(|disk.sects|)
      ensures Shape() && Coherent() && Image() == disk.sects
      ensures this.disk == disk && this.geo == geo && fresh(win)
      ensures lastClust == 0 && freeClust == UNKNOWN && this.id == id
    {
      this.disk, this.geo := disk, geo;
      win := new Byte[512](_ => 0);
      winsect, winflag := 0, false;
      lastClust, freeClust, this.id := 0, UNKNOWN, id;
    }

    /** The copies `lost` of the sector in the window hold what it holds all the same. */
    ghost predicate Recovered(lost: set<nat>)
      reads `winsect, disk`sects, win
    {
      forall k {:trigger geo.Copy(winsect, k)} :: k in lost ==>
          geo.Copy(winsect, k) < |disk.sects| && disk.sects[geo.Copy(winsect, k)] == win[..]
    }

    /** The first `done` further copies of the sector in the window have been written, but for those in `lost`, and
        nothing else has changed. */
    ghost predicate CopiedTo(before: seq<Sector>, done: nat, lost: set<nat>)
      reads `winsect, disk`sects, win
    {
      && |disk.sects| == |before|
      && (forall k :: k in lost ==> 1 <= k <= done)
      && (forall k {:trigger geo.Copy(winsect, k)} ::
            1 <= k <= done && geo.Copy(winsect, k) in disk.worn ==> k in lost)
      && (forall s :: 0 <= s < |before| && s in disk.worn ==> disk.sects[s] == before[s])
      && (forall k {:trigger geo.Copy(winsect, k)} ::
            1 <= k <= done && k !in lost && geo.Copy(winsect, k) < |disk.sects| ==>
              disk.sects[geo.Copy(winsect, k)] == win[..])
      && (forall t :: 0 <= t < |before| && disk.sects[t] != before[t] ==>
            exists k :: 1 <= k <= done && t == geo.Copy(winsect, k))
    }

    /** One round of the loop over the copies. */
    method WriteCopy(wsect: nat, ghost before: seq<Sector>, ghost done: nat, ghost lost: set<nat>)
      returns (ghost lost': set<nat>)
      requires Shape() && !winflag && geo.InFat(winsect) && winsect < |disk.sects| && disk.sects[winsect] == win[..]
      requires done + 1 < geo.nFats && wsect == geo.Copy(winsect, done + 1) && CopiedTo(before, done, lost)
      modifies disk
      ensures |disk.sects| == |old(disk.sects)| && disk.sects[winsect] == win[..] && Shape()
      ensures disk.faults >= old(disk.faults)
      ensures lost' == if disk.faults == old(disk.faults) then lost else lost + {done + 1}
      ensures CopiedTo(before, done + 1, lost')
    {
      CopyInMirror(geo, |disk.sects|, winsect, done + 1);
      hide Geometry.Valid;
      ghost var was := disk.sects;
      var copied := disk.Write(win, 0, wsect, 1);
      lost' := if copied then lost else lost + {done + 1};
      assert forall t :: 0 <= t < |disk.sects| && t != wsect ==> disk.sects[t] == was[t];
      forall k | 1 <= k <= done && geo.Copy(winsect, k) == geo.Copy(winsect, done + 1) ensures false {
        CopyInjective(geo, winsect, k, winsect, done + 1);
      }
    }

    /** The part of move_window that repeats a flushed FAT sector in the further copies, whatever becomes of them.
        `lost` are the copies whose write has failed: all copies agree afterwards if and only if these hold the right
        bytes by chance. */
    method WriteCopies() returns (ghost lost: set<nat>)
      requires Shape() && !winflag && geo.InFat(winsect) && winsect < |disk.sects| && disk.sects[winsect] == win[..]
      modifies disk
      ensures Shape() && disk.faults >= old(disk.faults) && (disk.faults == old(disk.faults) <==> lost == {})
      ensures Kept(geo, old(disk.sects), disk.sects)
      ensures forall k :: k in lost ==> 1 <= k < geo.nFats
      ensures forall k :: 1 <= k < geo.nFats && geo.Copy(winsect, k) in disk.worn ==> k in lost
      ensures forall s :: 0 <= s < |disk.sects| && s in disk.worn ==> disk.sects[s] == old(disk.sects[s])
      ensures old(OthersAgree(winsect)) ==> (MirrorsAgree() <==> Recovered(lost))
    {
      var wsect := winsect;
      var n := geo.nFats;
      lost := {};
      ghost var before, done := disk.sects, 0;
      while n >= 2
        invariant 1 <= n <= geo.nFats && done == geo.nFats - n && wsect == geo.Copy(winsect, done)
        invariant Shape() && winsect < |disk.sects| == |before| && disk.sects[winsect] == win[..]
        invariant disk.faults >= old(disk.faults) && (disk.faults == old(disk.faults) <==> lost == {})
        invariant CopiedTo(before, done, lost)
      {
        hide CopiedTo, Geometry.Valid;
        NextCopy(done);
        wsect := wsect + geo.sectsFat;
        lost := WriteCopy(wsect, before, done, lost);
        done := done + 1;
        n := n - 1;
      }
      OnlyCopies(before, lost);
      if old(OthersAgree(winsect)) {
        OthersStillAgree(before, winsect, done);
        AgreeExactly(lost);
      }
    }

    lemma NextCopy(done: nat)
      ensures geo.Copy(winsect, done) + geo.sectsFat == geo.Copy(winsect, done + 1)
    {
      Distribute(done, 1, geo.sectsFat);
    }

    lemma OnlyCopies(before: seq<Sector>, lost: set<nat>)
      requires Shape() && geo.InFat(winsect) && geo.nFats >= 1 && CopiedTo(before, geo.nFats - 1, lost)
      ensures Kept(geo, before, disk.sects)
    {
      forall t: nat | t < |before| && disk.sects[t] != before[t] ensures geo.Mirror(t) {
        var k :| 1 <= k <= geo.nFats - 1 && t == geo.Copy(winsect, k);
        CopyInMirror(geo, |disk.sects|, winsect, k);
      }
    }

    /** Changing copies of one sector leaves those of the others alone. */
    lemma OthersStillAgree(before: seq<Sector>, sector: nat, done: nat)
      requires Shape() && |before| == |disk.sects| && geo.InFat(sector) && done < geo.nFats
      requires Kept(geo, before, disk.sects)
      requires forall s: nat, k: nat {:trigger geo.Copy(s, k)} ::
                 geo.InFat(s) && 1 <= k < geo.nFats && s != sector && geo.Copy(s, k) < |before| ==>
                   s < |before| && before[geo.Copy(s, k)] == before[s]
      requires forall t :: 0 <= t < |disk.sects| && disk.sects[t] != before[t] ==>
                 exists k :: 1 <= k <= done && t == geo.Copy(sector, k)
      ensures OthersAgree(sector)
    {
      forall s: nat, k: nat | geo.InFat(s) && 1 <= k < geo.nFats && s != sector && geo.Copy(s, k) < |disk.sects|
        ensures s < |disk.sects| && disk.sects[geo.Copy(s, k)] == disk.sects[s]
      {
        geo.FatFits(|disk.sects|);
        if i :| 1 <= i <= done && geo.Copy(s, k) == geo.Copy(sector, i) {
          CopyInjective(geo, s, k, sector, i);
        }
      }
    }

    lemma AgreeExactly(lost: set<nat>)
      requires Shape() && !winflag && geo.InFat(winsect) && winsect < |disk.sects| && disk.sects[winsect] == win[..]
      requires OthersAgree(winsect) && forall k :: k in lost ==> 1 <= k < geo.nFats
      requires forall k {:trigger geo.Copy(winsect, k)} ::
                 1 <= k < geo.nFats && k !in lost && geo.Copy(winsect, k) < |disk.sects| ==>
                   disk.sects[geo.Copy(winsect, k)] == win[..]
      ensures MirrorsAgree() <==> Recovered(lost)
    {
      if MirrorsAgree() {
        forall k | k in lost ensures geo.Copy(winsect, k) < |disk.sects| {
          CopyInMirror(geo, |disk.sects|, winsect, k);
        }
      }
    }

    /** The part of move_window that brings a dirty window to the device. It answers for the first FAT only: copies can
        be `lost` in it, and then all agree if and only if these hold the right bytes by chance. */
    method WriteBack() returns (ok: bool, ghost lost: set<nat>)
      requires Shape() && winflag
      modifies this`winflag, disk
      ensures Shape() && disk.faults >= old(disk.faults) && (disk.faults == old(disk.faults) <==> ok && lost == {})
      ensures winflag == !ok && Coherent() && (ok ==> winsect !in disk.worn)
      ensures Kept(geo, old(Image()), Image())
      ensures lost != {} ==> ok && geo.InFat(winsect) && forall k :: k in lost ==> 1 <= k < geo.nFats
      ensures ok && geo.InFat(winsect) ==>
                forall k :: 1 <= k < geo.nFats && geo.Copy(winsect, k) in disk.worn ==> k in lost
      ensures forall s :: 0 <= s < |disk.sects| && s in disk.worn ==> disk.sects[s] == old(disk.sects[s])
      ensures ok && old(MirrorsAgree()) ==> (MirrorsAgree() <==> Recovered(lost))
      ensures !ok && old(MirrorsAgree()) ==> MirrorsAgree()
    {
      lost := {};
      ok := disk.Write(win, 0, winsect, 1);
      assert ok ==> disk.sects[winsect] == win[..];
      geo.FatFits(|disk.sects|);
      forall s: nat, k: nat | geo.InFat(s) && 1 <= k < geo.nFats && s != winsect
        ensures geo.Mirror(geo.Copy(s, k)) && geo.Copy(s, k) < |disk.sects|
        ensures disk.sects[geo.Copy(s, k)] == old(disk.sects)[geo.Copy(s, k)] && disk.sects[s] == old(disk.sects)[s]
      {
        CopyInMirror(geo, |disk.sects|, s, k);
      }
      if !ok {
        assert Image() == old(Image());
        return;
      }
      winflag := false;
      assert Image() == old(Image());
      if winsect < geo.fatbase + geo.sectsFat {
        lost := WriteCopies();
      }
    }

    /** move_window. Once it has succeeded the window shows the sector, unless it was there already and did not: a stale
        window stays stale as long as the same sector is asked for, and is put right by any other. */
    method MoveWindow(sector: nat) returns (ok: bool)
      requires Shape() && sector < |disk.sects|
      modifies this`winsect, this`winflag, win, disk
      ensures Shape()
      ensures disk.faults >= old(disk.faults) && (!ok ==> disk.faults > old(disk.faults))
      ensures Kept(geo, old(Image()), Image())
      ensures winsect == (if ok && sector != 0 then sector else old(winsect))
      ensures ok && sector != 0 ==> (win[..] == Image()[sector] <==> old(Coherent()) || sector != old(winsect))
      ensures ok && sector != 0 && sector != old(winsect) ==> Coherent()
      ensures old(Coherent()) && (ok || sector == 0) ==> Coherent()
      ensures ok && sector != old(winsect) ==> !winflag
      ensures !old(winflag) ==> !winflag && disk.sects == old(disk.sects)
      ensures sector == old(winsect) ==> ok && winflag == old(winflag) && win[..] == old(win[..])
      ensures sector == old(winsect) ==> disk.sects == old(disk.sects) && disk.faults == old(disk.faults)
      ensures ok && sector != 0 && sector != old(winsect) ==> sector !in disk.bad
      ensures ok && old(winflag) && sector != old(winsect) ==> old(winsect) !in disk.worn
      ensures ok || disk.keeps ==> Steady(old(Coherent()), old(winsect), Coherent(), winsect)
      ensures !ok && disk.keeps ==> win[..] == old(win[..])
      ensures disk.faults == old(disk.faults) && old(MirrorsAgree()) ==> MirrorsAgree()
    {
      ok := true;
      if winsect != sector {
        if winflag {
          ghost var lost;
          ok, lost := WriteBack();
          if !ok {
            return;
          }
        }
        if sector != 0 {
          ok := disk.Read(win, 0, sector, 1);
          if !ok {
            return;
          }
          winsect := sector;
          assert win[..] == disk.sects[sector];
        }
      }
    }

    ghost function Tab(): Table
      requires Shape()
      reads `winsect, `winflag, disk`sects, win
    {
      geo.TableOf(Image())
    }

    lemma CleanTab()
      requires Shape() && !winflag
      ensures Image() == disk.sects && Tab() == geo.TableOf(disk.sects)
    {
    }

    /** FAT byte `k` as it is seen now: out of the window if that shows its sector, rightly or not. */
    ghost function ByteSeen(k: nat): Byte
      requires Shape() && k < 512 * geo.sectsFat
      reads `winsect, `winflag, disk`sects, win
    {
      if geo.fatbase + k / 512 == winsect then win[k % 512] else geo.FatByte(Image(), k)
    }

    /** The entry of a cluster as it is seen: what the window has of it, if that shows the sector where it begins. */
    ghost function EntrySeen(c: nat): nat
      requires Shape() && c < geo.maxClust
      reads `winsect, `winflag, disk`sects, win
    {
      EntryFits(geo, |disk.sects|, c);
      if geo.EntrySector(c) != winsect then geo.Entry(Image(), c)
      else if geo.fatType.Fat16? then ByteSeen(2 * c) + 256 * ByteSeen(2 * c + 1)
      else Packed(c, ByteSeen(c * 3 / 2), ByteSeen(c * 3 / 2 + 1))
    }

    /** A window that is right, or on another sector, shows the entry of the table. */
    lemma TrustedIsRight(c: nat)
      requires Shape() && c < geo.maxClust && Trusts(geo.EntrySector(c))
      ensures EntrySeen(c) == geo.Entry(Image(), c)
    {
      EntryFits(geo, |disk.sects|, c);
      geo.FatFits(|disk.sects|);
    }

    /** Bring the sector with FAT byte `k` into the window and read the byte. */
    method FatByteAt(k: nat) returns (ok: bool, b: nat)
      requires Shape() && k < 512 * geo.sectsFat
      modifies this`winsect, this`winflag, win, disk
      ensures Shape() && disk.faults >= old(disk.faults) && (!ok ==> disk.faults > old(disk.faults))
      ensures Kept(geo, old(Image()), Image())
      ensures b < 256 && (ok ==> winsect == geo.fatbase + k / 512 < |Image()|)
      ensures ok ==> b == old(ByteSeen(k))
      ensures ok && old(Trusts(geo.fatbase + k / 512)) ==> b == geo.FatByte(old(Image()), k)
      ensures ok || disk.keeps ==> Steady(old(Coherent()), old(winsect), Coherent(), winsect)
      ensures ok && geo.fatbase + k / 512 == old(winsect) ==> win[..] == old(win[..])
      ensures ok && old(Trusts(geo.fatbase + k / 512)) ==> Coherent() && win[..] == Image()[winsect]
      ensures ok && geo.fatbase + k / 512 != old(winsect) ==> geo.fatbase + k / 512 !in disk.bad
      ensures winsect == old(winsect) || geo.InFat(winsect)
      ensures !old(winflag) ==> !winflag && disk.sects == old(disk.sects)
      ensures disk.faults == old(disk.faults) && old(MirrorsAgree()) ==> MirrorsAgree()
    {
      hide MirrorsAgree;
      geo.FatFits(|disk.sects|);
      b := 0;
      ok := MoveWindow(geo.fatbase + k / 512);
      if ok {
        if old(Trusts(geo.fatbase + k / 512)) {
          SeenByte(geo, old(Image()), Image(), win[..], k);
        }
        b := win[k % 512];
      }
    }

    /** The 12-bit case of get_cluster, two bytes that may lie in two sectors. */
    method GetCluster12(clust: nat) returns (r: nat)
      requires Shape() && geo.fatType.Fat12? && 2 <= clust < geo.maxClust
      modifies this`winsect, this`winflag, win, disk
      ensures Shape() && disk.faults >= old(disk.faults) && Kept(geo, old(Image()), Image())
      ensures r == old(EntrySeen(clust)) || (r == 1 && disk.faults > old(disk.faults))
      ensures disk.keeps || r != 1 || disk.faults == old(disk.faults) ==>
                Steady(old(Coherent()), old(winsect), Coherent(), winsect)
      ensures old(Trusts(geo.EntrySector(clust))) && (r != 1 || disk.faults == old(disk.faults)) ==> Coherent()
      ensures geo.EntrySector(clust) in disk.bad && geo.EntrySector(clust) != old(winsect) ==> r == 1
      ensures !old(winflag) ==> !winflag && disk.sects == old(disk.sects)
      ensures winsect == old(winsect) || geo.InFat(winsect)
      ensures disk.faults == old(disk.faults) && old(MirrorsAgree()) ==> MirrorsAgree()
    {
      hide MirrorsAgree, Coherent, Kept, Geometry.Valid, Geometry.FatByte, Geometry.InFat, Image;
      EntryFits(geo, |disk.sects|, clust);
      var bc := clust * 3 / 2;
      var moved, wc := FatByteAt(bc);
      if !moved {
        return 1;
      }
      var high: nat;
      KeptBytes(geo, old(Image()), Image());
      ghost var img1 := Image();
      bc := bc + 1;
      moved, high := FatByteAt(bc);
      KeptTwice(geo, old(Image()), img1, Image());
      if !moved {
        return 1;
      }
      Unpacked(wc, high);
      wc := wc + high * 256;
      r := if clust % 2 == 1 then wc / 16 else wc % 0x1000;
    }

    /** The 16-bit case of get_cluster. */
    method GetCluster16(clust: nat) returns (r: nat)
      requires Shape() && geo.fatType.Fat16? && 2 <= clust < geo.maxClust
      modifies this`winsect, this`winflag, win, disk
      ensures Shape() && disk.faults >= old(disk.faults) && Kept(geo, old(Image()), Image())
      ensures r == old(EntrySeen(clust)) || (r == 1 && disk.faults > old(disk.faults))
      ensures disk.keeps || r != 1 || disk.faults == old(disk.faults) ==>
                Steady(old(Coherent()), old(winsect), Coherent(), winsect)
      ensures old(Trusts(geo.EntrySector(clust))) && (r != 1 || disk.faults == old(disk.faults)) ==> Coherent()
      ensures geo.EntrySector(clust) in disk.bad && geo.EntrySector(clust) != old(winsect) ==> r == 1
      ensures !old(winflag) ==> !winflag && disk.sects == old(disk.sects)
      ensures winsect == old(winsect) || geo.InFat(winsect)
      ensures disk.faults == old(disk.faults) && old(MirrorsAgree()) ==> MirrorsAgree()
    {
      hide MirrorsAgree, Coherent, Kept, Geometry.Valid, Geometry.FatByte, Geometry.InFat, Image;
      EntryFits(geo, |disk.sects|, clust);
      WordAt(clust);
      var moved, low := FatByteAt(2 * clust);
      if !moved {
        return 1;
      }
      if old(Trusts(geo.EntrySector(clust))) {
        SeenByte(geo, old(Image()), Image(), win[..], 2 * clust + 1);
      }
      var high: nat := win[(clust * 2) % 512 + 1];
      r := low + 256 * high;
    }

    /** get_cluster: the FAT entry, or 1 for a cluster outside the volume and for a device error. The window is only
        looked at if it shows the sector with the entry's first byte, so that a stale one does no harm elsewhere. */
    method GetCluster(clust: nat) returns (r: nat)
      requires Shape()
      modifies this`winsect, this`winflag, win, disk
      ensures Shape() && disk.faults >= old(disk.faults) && Kept(geo, old(Image()), Image())
      ensures Tab() == old(Tab())
      ensures 2 <= clust < geo.maxClust ==> r == old(EntrySeen(clust)) || (r == 1 && disk.faults > old(disk.faults))
      ensures disk.keeps || r != 1 || disk.faults == old(disk.faults) ==>
                Steady(old(Coherent()), old(winsect), Coherent(), winsect)
      ensures old(Trusts(geo.EntrySector(clust))) ==>
                r == (if 2 <= clust < geo.maxClust then Tab()[clust] else 1) ||
                (r == 1 && disk.faults > old(disk.faults))
      ensures old(Trusts(geo.EntrySector(clust))) && r != 1 ==> Coherent()
      ensures old(Coherent()) && disk.faults == old(disk.faults) ==> Coherent()
      ensures !(2 <= clust < geo.maxClust) ==> r == 1
      ensures geo.EntrySector(clust) in disk.bad && geo.EntrySector(clust) != old(winsect) ==> r == 1
      ensures !old(winflag) ==> !winflag && disk.sects == old(disk.sects)
      ensures winsect == old(winsect) || geo.InFat(winsect)
      ensures disk.faults == old(disk.faults) && old(MirrorsAgree()) ==> MirrorsAgree()
    {
      hide MirrorsAgree, Coherent, Kept, Image, Geometry.Valid, Geometry.Entry, Geometry.InFat, Geometry.EntrySector;
      NothingChanged(geo, Image());
      if 2 <= clust < geo.maxClust && Trusts(geo.EntrySector(clust)) {
        TrustedIsRight(clust);
      }
      r := 1;
      if 2 <= clust < geo.maxClust {
        if geo.fatType.Fat12? {
          r := GetCluster12(clust);
        } else {
          r := GetCluster16(clust);
        }
      }
      KeptTable(geo, old(Image()), Image());
    }

    /** Change FAT byte `k`, whose sector the window shows. */
    method StoreFatByte(k: nat, v: Byte)
      requires Shape() && Coherent() && k < 512 * geo.sectsFat && winsect == geo.fatbase + k / 512
      modifies this`winflag, win
      ensures Shape() && Coherent() && winflag
      ensures ByteChanged(geo, old(Image()), Image(), k, v) && DataKept(geo, old(Image()), Image())
      ensures old(MirrorsAgree()) ==> MirrorsAgree()
    {
      geo.FatFits(|disk.sects|);
      ghost var img := Image();
      assert win[..] == img[winsect];
      win[k % 512] := v;
      winflag := true;
      assert Image() == img[winsect := img[winsect][k % 512 := v]];
    }

    /** One half of the 12-bit case of put_cluster: the byte is read through the window, changed and left dirty. */
    method PutHalf12(clust: nat, val: nat, upper: bool) returns (ok: bool)
      requires Shape() && Coherent() && clust * 3 / 2 + 1 < 512 * geo.sectsFat
      modifies this`winsect, this`winflag, win, disk
      ensures Shape() && disk.faults >= old(disk.faults) && (!ok ==> disk.faults > old(disk.faults))
      ensures DataKept(geo, old(Image()), Image()) && |Image()| == |old(Image())|
      ensures !ok ==> Tab() == old(Tab())
      ensures ok || disk.keeps ==> Coherent()
      ensures ok ==> HalfChanged(geo, old(Image()), Image(), clust, val, upper)
      ensures disk.faults == old(disk.faults) && old(MirrorsAgree()) ==> MirrorsAgree()
    {
      hide MirrorsAgree, Coherent, Low12, High12, ByteChanged, Kept, DataKept, Image, Geometry.Valid, Geometry.TableOf;
      ghost var i0 := Image();
      var bc := clust * 3 / 2 + if upper then 1 else 0;
      var moved, p := FatByteAt(bc);
      ghost var i1 := Image();
      KeptIsData(geo, i0, i1);
      if !moved {
        KeptTable(geo, i0, i1);
        return false;
      }
      Low12Fits(clust, val, p);
      var v := if upper then High12(clust, val, p) else Low12(clust, val, p);
      StoreFatByte(bc, v);
      KeptThenChanged(geo, i0, i1, Image(), bc, v);
      ok := true;
    }

    /** The 12-bit case of put_cluster. A device error before the first byte leaves the table as it was, one between the
        two bytes leaves this entry half written and every other one as it was. */
    method PutCluster12(clust: nat, val: nat) returns (ok: bool)
      requires Shape() && Coherent() && geo.fatType.Fat12? && 2 <= clust < geo.maxClust
      modifies this`winsect, this`winflag, win, disk
      ensures Shape() && disk.faults >= old(disk.faults) && (!ok ==> disk.faults > old(disk.faults))
      ensures DataKept(geo, old(Image()), Image())
      ensures disk.keeps ==> Coherent()
      ensures ok ==> Coherent() && Tab() == old(Tab())[clust := val % 0x1000]
      ensures !ok ==> Tab() == old(Tab()) || Tab() == old(Tab())[clust := HalfWritten(clust, val, old(Tab())[clust])]
      ensures disk.faults == old(disk.faults) && old(MirrorsAgree()) ==> MirrorsAgree()
    {
      hide MirrorsAgree, Coherent, Low12, High12, ByteChanged, Kept, DataKept, Image, Geometry.Valid, Geometry.TableOf;
      hide HalfChanged, HalfWritten;
      ghost var i0 := Image();
      EntryFits(geo, |i0|, clust);
      ok := PutHalf12(clust, val, false);
      ghost var i2 := Image();
      if !ok {
        return;
      }
      HalfTable12(geo, i0, i2, clust, val);
      ok := PutHalf12(clust, val, true);
      DataKeptTwice(geo, i0, i2, Image());
      if ok {
        Put12(geo, i0, i2, Image(), clust, val);
      }
    }

    /** The 16-bit case of put_cluster: both bytes lie in one sector. */
    method PutCluster16(clust: nat, val: nat) returns (ok: bool)
      requires Shape() && Coherent() && geo.fatType.Fat16? && 2 <= clust < geo.maxClust
      modifies this`winsect, this`winflag, win, disk
      ensures Shape() && disk.faults >= old(disk.faults) && (!ok ==> disk.faults > old(disk.faults))
      ensures DataKept(geo, old(Image()), Image())
      ensures disk.keeps ==> Coherent()
      ensures ok ==> Coherent() && Tab() == old(Tab())[clust := val % 0x10000]
      ensures !ok ==> Tab() == old(Tab())
      ensures disk.faults == old(disk.faults) && old(MirrorsAgree()) ==> MirrorsAgree()
    {
      hide MirrorsAgree, Coherent, ByteChanged, Kept, DataKept, Image, Geometry.Valid, Geometry.TableOf;
      ghost var i0 := Image();
      EntryFits(geo, |i0|, clust);
      WordAt(clust);
      var moved, low := FatByteAt(2 * clust);
      ghost var i1 := Image();
      KeptIsData(geo, i0, i1);
      if !moved {
        KeptTable(geo, i0, i1);
        return false;
      }
      StoreFatByte(2 * clust, val % 256);
      ghost var i2 := Image();
      KeptThenChanged(geo, i0, i1, i2, 2 * clust, val % 256);
      StoreFatByte(2 * clust + 1, (val / 256) % 256);
      Put16(geo, i0, i2, Image(), clust, val);
      DataKeptTwice(geo, i0, i2, Image());
      ok := true;
    }

    /** put_cluster: on success exactly entry `clust` has changed, to `val` cut to the entry width. */
    method PutCluster(clust: nat, val: nat) returns (ok: bool)
      requires Shape() && Coherent() && 2 <= clust < geo.maxClust
      modifies this`winsect, this`winflag, win, disk
      ensures Shape() && disk.faults >= old(disk.faults) && (!ok ==> disk.faults > old(disk.faults))
      ensures DataKept(geo, old(Image()), Image())
      ensures disk.keeps ==> Coherent()
      ensures ok ==> Coherent() && Tab() == old(Tab())[clust := val % geo.Width()]
      ensures !ok ==> Tab() == old(Tab()) ||
                      (geo.fatType.Fat12? && Tab() == old(Tab())[clust := HalfWritten(clust, val, old(Tab())[clust])])
      ensures forall d :: 0 <= d < geo.maxClust && d != clust ==> Tab()[d] == old(Tab())[d]
      ensures disk.faults == old(disk.faults) && old(MirrorsAgree()) ==> MirrorsAgree()
    {
      hide MirrorsAgree, Coherent, DataKept, Image, HalfWritten, Geometry.Valid, Geometry.TableOf;
      if geo.fatType.Fat12? {
        ok := PutCluster12(clust, val);
      } else {
        ok := PutCluster16(clust, val);
      }
    }

    /** sync: flush the window, which the callers have just filled, and have the device finish. The window is written
        even if it is clean, so that success means that its sector can be written. */
    method Sync() returns (ok: bool)
      requires Shape() && Coherent() && geo.fatbase <= winsect < |disk.sects| && !geo.Mirror(winsect)
      modifies this`winsect, this`winflag, win, disk
      ensures Shape() && disk.faults >= old(disk.faults) && (!ok ==> disk.faults > old(disk.faults))
      ensures Kept(geo, old(Image()), Image()) && Coherent()
      ensures ok ==> !winflag && Image() == disk.sects && !disk.pending && old(winsect) !in disk.worn
      ensures disk.faults == old(disk.faults) && old(MirrorsAgree()) ==> MirrorsAgree()
    {
      winflag := true;
      assert Image() == old(Image());
      assert old(MirrorsAgree()) ==> MirrorsAgree();
      ok := MoveWindow(0);
      if ok {
        ok := disk.Flush();
      }
    }

    /** Once the window is clean, agreement means that every further copy equals the first FAT sector by sector. */
    lemma FlushedCopiesAgree(s: nat, k: nat)
      requires Shape() && !winflag && MirrorsAgree() && geo.InFat(s) && 1 <= k < geo.nFats
      ensures s < geo.Copy(s, k) < |disk.sects| && disk.sects[geo.Copy(s, k)] == disk.sects[s] == Image()[s]
    {
      geo.FatFits(|disk.sects|);
      CopyInMirror(geo, |disk.sects|, s, k);
    }

    /** clust2sect, in the 16 bits of a CLUST: 0 and 1 wrap around to numbers no volume has. */
    function Clust2Sect(clust: nat): (sect: nat)
      requires geo.maxClust >= 2
    {
      var c := (clust + 0xFFFE) % 0x10000;
      if c >= geo.maxClust - 2 then 0 else c * geo.sectsClust + geo.database
    }

    /** So it is 0 exactly for the numbers outside the volume, and for the others the first sector of the cluster, which
        lies with all of it in the data area. */
    lemma Clust2SectExactly(clust: nat)
      requires Shape() && (clust < geo.maxClust || clust < 0x10000)
      ensures Clust2Sect(clust) != 0 <==> 2 <= clust < geo.maxClust
      ensures 2 <= clust < geo.maxClust ==>
                var sect := (clust - 2) * geo.sectsClust + geo.database;
                Clust2Sect(clust) == sect && geo.database <= sect && sect + geo.sectsClust <= |disk.sects|
    {
      geo.FatFits(|disk.sects|);
      geo.Marks(|disk.sects|);
      if 2 <= clust < geo.maxClust {
        assert (clust + 0xFFFE) % 0x10000 == clust - 2;
        Apart(clust - 2, geo.maxClust - 2, geo.sectsClust);
        assert (clust - 2) * geo.sectsClust >= 0;
      } else if clust < 2 {
        assert (clust + 0xFFFE) % 0x10000 == clust + 0xFFFE;
      } else {
        assert (clust + 0xFFFE) % 0x10000 == clust - 2;
      }
    }

    /** One round of remove_chain. */
    method FreeOne(c: nat) returns (ok: bool, nxt: nat)
      requires Shape() && Coherent() && 2 <= c < geo.maxClust
      modifies this`winsect, this`winflag, this`freeClust, win, disk
      ensures Shape() && disk.faults >= old(disk.faults) && DataKept(geo, old(Image()), Image())
      ensures ok || disk.faults == old(disk.faults) || disk.keeps ==> Coherent()
      ensures ok ==> old(Tab())[c] != 1 && nxt == old(Tab())[c] && Tab() == old(Tab())[c := 0]
      ensures ok ==> freeClust == Incremented(old(freeClust))
      ensures !ok ==> disk.faults > old(disk.faults) ||
                      (old(Tab())[c] == 1 && Tab() == old(Tab()) && freeClust == old(freeClust))
      ensures disk.faults == old(disk.faults) && old(MirrorsAgree()) ==> MirrorsAgree()
    {
      hide MirrorsAgree, Coherent, Kept, DataKept, Geometry.Valid, Geometry.Entry, Image;
      nxt := GetCluster(c);
      ghost var i1 := Image();
      KeptIsData(geo, old(Image()), i1);
      if nxt == 1 {
        return false, nxt;
      }
      ok := PutCluster(c, 0);
      DataKeptTwice(geo, old(Image()), i1, Image());
      if ok && freeClust != UNKNOWN {
        freeClust := (freeClust + 1) % 0x10000;
      }
    }

    /** remove_chain. Unless a device error stops it, table and count end as Remove says. */
    method RemoveChain(clust: nat) returns (ok: bool)
      requires Shape() && Coherent()
      modifies this`winsect, this`winflag, this`freeClust, win, disk
      ensures Shape() && disk.faults >= old(disk.faults) && DataKept(geo, old(Image()), Image())
      ensures disk.keeps ==> Coherent()
      ensures ok || disk.faults == old(disk.faults) ==>
                Coherent() && (ok, Tab(), freeClust) == Remove(old(Tab()), old(freeClust), clust)
      ensures disk.faults == old(disk.faults) && old(MirrorsAgree()) ==> MirrorsAgree()
    {
      hide MirrorsAgree, Coherent, DataKept, Geometry.Valid, Geometry.Entry, Image;
      var c: nat := clust;
      ok := true;
      NothingChanged(geo, Image());
      while ok && 2 <= c < geo.maxClust
        invariant Shape() && disk.faults >= old(disk.faults) && DataKept(geo, old(Image()), Image())
        invariant ok ==> Coherent() && Remove(Tab(), freeClust, c) == Remove(old(Tab()), old(freeClust), clust)
        invariant |Tab()| == geo.maxClust && (disk.keeps ==> Coherent())
        invariant !ok && disk.faults == old(disk.faults) ==>
                    Coherent() && (ok, Tab(), freeClust) == Remove(old(Tab()), old(freeClust), clust)
        invariant disk.faults == old(disk.faults) && old(MirrorsAgree()) ==> MirrorsAgree()
        decreases ok, Used(Tab()), if InRange(Tab(), c) then 1 else 0
      {
        ghost var i1, t := Image(), Tab();
        var nxt: nat;
        ok, nxt := FreeOne(c);
        DataKeptTwice(geo, old(Image()), i1, Image());
        RemoveRound(t, c);
        c := nxt;
      }
    }

    ghost function Allocator(): State
      requires Shape()
      reads `winsect, `winflag, `lastClust, `freeClust, disk`sects, win
    {
      State(Tab(), lastClust, freeClust)
    }

    /** The scan of create_chain behind `scl`: 0 when the volume is full, 1 on an entry that reads 1. */
    method FindFree(scl: nat) returns (ncl: nat)
      requires Shape() && Coherent() && 1 <= scl < geo.maxClust
      modifies this`winsect, this`winflag, win, disk
      ensures Shape() && disk.faults >= old(disk.faults) && Kept(geo, old(Image()), Image()) && Tab() == old(Tab())
      ensures ncl != 1 || disk.faults == old(disk.faults) || disk.keeps ==> Coherent()
      ensures ncl == 0 ==> forall c: nat :: !StopsAt(Tab(), scl, c)
      ensures ncl >= 2 ==> StopsAt(Tab(), scl, ncl) && Tab()[ncl] == 0
      ensures ncl == 1 ==> disk.faults > old(disk.faults) || exists c: nat :: StopsAt(Tab(), scl, c) && Tab()[c] == 1
      ensures disk.faults == old(disk.faults) && old(MirrorsAgree()) ==> MirrorsAgree()
    {
      hide MirrorsAgree, Coherent, Kept, Geometry.Valid, Geometry.Entry, Image, StopsAt, ScanAt;
      NothingChanged(geo, Image());
      ghost var t := Tab();
      ghost var k := 0;
      ncl := scl;
      ScanStarts(t, scl);
      while true
        invariant Shape() && Coherent() && disk.faults >= old(disk.faults)
        invariant Kept(geo, old(Image()), Image()) && Tab() == t && |t| == geo.maxClust
        invariant ScanAt(t, scl, ncl, k)
        invariant disk.faults == old(disk.faults) && old(MirrorsAgree()) ==> MirrorsAgree()
        decreases |t| - k
      {
        ScanNext(t, scl, ncl, k);
        ncl := ncl + 1;
        if ncl >= geo.maxClust {
          ncl := 2;
          if ncl > scl {
            return 0;
          }
        }
        ghost var img := Image();
        var cstat := GetCluster(ncl);
        KeptTwice(geo, old(Image()), img, Image());
        if cstat == 0 {
          return;
        }
        if cstat == 1 {
          return 1;
        }
        if ncl == scl {
          return 0;
        }
        k := k + 1;
      }
    }

    /** The rest of create_chain: mark `ncl`, link it behind `clust`, and remember it. */
    method Take(clust: nat, ncl: nat) returns (r: nat)
      requires Shape() && Coherent() && Takes(Tab(), clust, ncl)
      modifies this`winsect, this`winflag, this`lastClust, this`freeClust, win, disk
      ensures Shape() && disk.faults >= old(disk.faults) && DataKept(geo, old(Image()), Image())
      ensures disk.keeps ==> Coherent()
      ensures r == ncl ==> Coherent() && Allocator() == Taken(old(Allocator()), clust, ncl, geo.EndMark())
      ensures r != ncl ==> r == 1 && disk.faults > old(disk.faults)
      ensures forall d :: 0 <= d < geo.maxClust && d != clust && d != ncl ==> Tab()[d] == old(Tab())[d]
      ensures disk.faults == old(disk.faults) && old(MirrorsAgree()) ==> MirrorsAgree()
    {
      hide MirrorsAgree, Coherent, DataKept, Kept, Geometry.Valid, Geometry.TableOf, Geometry.Width, Geometry.EndMark;
      hide Image;
      geo.Marks(|disk.sects|);
      ghost var i0, t := Image(), Tab();
      geo.Cut(|disk.sects|, ncl);
      var ok := PutCluster(ncl, 0xFFFF);  // (CLUST)0x0FFFFFFF
      if !ok {
        return 1;
      }
      if clust != 0 {
        ghost var i1 := Image();
        ok := PutCluster(clust, ncl);
        DataKeptTwice(geo, i0, i1, Image());
        if !ok {
          return 1;
        }
      }
      lastClust := ncl;
      if freeClust != UNKNOWN {
        freeClust := (freeClust + 0xFFFF) % 0x10000;
      }
      return ncl;
    }

    /** create_chain. Whenever it succeeds or the volume is full, and always while the device does not fail, it does
        what Created says; a failing device can cost the entry of `clust` and free clusters, nothing else. */
    method CreateChain(clust: nat) returns (r: nat)
      requires Shape() && Coherent()
      modifies this`winsect, this`winflag, this`lastClust, this`freeClust, win, disk
      ensures Shape() && disk.faults >= old(disk.faults) && DataKept(geo, old(Image()), Image())
      ensures disk.keeps ==> Coherent()
      ensures r != 1 || disk.faults == old(disk.faults) ==>
                Coherent() && Created(old(Allocator()), clust, geo.EndMark(), r, Allocator())
      ensures forall d :: 0 <= d < geo.maxClust && d != clust && old(Tab())[d] != 0 ==> Tab()[d] == old(Tab())[d]
      ensures disk.faults == old(disk.faults) && old(MirrorsAgree()) ==> MirrorsAgree()
    {
      hide MirrorsAgree, Coherent, Kept, DataKept, Geometry.Valid, Geometry.Entry, Image;
      NothingChanged(geo, Image());
      geo.Marks(|disk.sects|);
      ghost var i0, t := Image(), Tab();
      var scl: nat;
      if clust == 0 {
        scl := lastClust;
        if scl < 2 || scl >= geo.maxClust {
          scl := 1;
        }
      } else {
        var cstat := GetCluster(clust);
        KeptIsData(geo, i0, Image());
        if cstat < 2 {
          return 1;
        }
        if cstat < geo.maxClust {
          return cstat;
        }
        scl := clust;
      }
      ghost var i1 := Image();
      var ncl := FindFree(scl);
      KeptIsData(geo, i1, Image());
      DataKeptTwice(geo, i0, i1, Image());
      if ncl < 2 {
        if ncl == 1 && disk.faults == old(disk.faults) {
          ErrorMeansCreated(Allocator(), clust, geo.EndMark());
        }
        return ncl;
      }
      ghost var i2, s := Image(), Allocator();
      StopMeansCreated(s, clust, geo.EndMark(), ncl);
      r := Take(clust, ncl);
      DataKeptTwice(geo, i0, i2, Image());
    }
  }

  /** A flush that answers ok while a copy gets lost: one on a worn sector that differs from what the window holds. */
  method FlushLoses(v: Volume, k: nat) returns (ok: bool)
    requires v.Shape() && v.winflag && v.MirrorsAgree() && v.geo.InFat(v.winsect) && 1 <= k < v.geo.nFats
    requires v.geo.Copy(v.winsect, k) in v.disk.worn && v.geo.Copy(v.winsect, k) < |v.disk.sects|
    requires v.disk.sects[v.geo.Copy(v.winsect, k)] != v.win[..]
    modifies v`winflag, v.disk
    ensures v.Shape() && (ok ==> !v.winflag && Kept(v.geo, old(v.Image()), v.disk.sects) && !v.MirrorsAgree())
  {
    hide Volume.MirrorsAgree;
    ghost var lost;
    ok, lost := v.WriteBack();
    if ok {
      assert k in lost;
    }
  }
}
