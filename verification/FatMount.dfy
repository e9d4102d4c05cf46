/** What auto_mount of tff.c makes of a boot record: the type of the FAT and where its parts lie. */
module FatMount {
  import opened FatVolume

  datatype Option<T> = None | Some(value: T)

  // ------------------------------------------------------------ the type of the FAT

  datatype Kind = Twelve | Sixteen | ThirtyTwo

  /** As auto_mount tells the types apart, by `max_clust`. */
  function CodeKind(maxclust: nat): Kind {
    if maxclust > 0xFFF7 then ThirtyTwo else if maxclust > 0xFF7 then Sixteen else Twelve
  }

  /** As "FAT Type Determination" does, by the count of clusters. */
  function PublishedKind(count: nat): Kind {
    if count < 4085 then Twelve else if count < 65525 then Sixteen else ThirtyTwo
  }

  /** Cluster numbers begin at 2, so that `max_clust` is the count and two more. The two rules agree for every other
      count than the two limits themselves, */
  lemma KindsAgreeExactly(count: nat)
    ensures CodeKind(count + 2) == PublishedKind(count) <==> count != 4085 && count != 65525
  {
  }

  /** which the code takes for the smaller type. */
  lemma KindsAtTheLimits()
    ensures CodeKind(4085 + 2) == Twelve && PublishedKind(4085) == Sixteen
    ensures CodeKind(65525 + 2) == Sixteen && PublishedKind(65525) == ThirtyTwo
  {
  }

  // ------------------------------------------------------------ the geometry

  /** The fields of a boot record that auto_mount reads ("Boot Sector and BPB"). */
  datatype BootRecord = BootRecord(fatSz16: nat, fatSz32: nat, numFats: nat, rsvdSecCnt: nat, rootEntCnt: nat,
                                   secPerClus: nat, totSec16: nat, totSec32: nat)
  {
    function FatSz(): nat { if fatSz16 != 0 then fatSz16 else fatSz32 }

    function TotSec(): nat { if totSec16 != 0 then totSec16 else totSec32 }

    function RootSectors(): nat { rootEntCnt / 16 }

    /** The sectors of all copies of the FAT, */
    function FatArea(): nat {
      Positive(FatSz(), numFats);
      FatSz() * numFats
    }

    /** and those before the data. */
    function Overhead(): nat { rsvdSecCnt + FatArea() + RootSectors() }

    function ClustersIn(sectors: nat): nat
      requires secPerClus > 0
    {
      sectors / secPerClus
    }

    /** The count of clusters. */
    function Clusters(): nat
      requires secPerClus > 0 && Overhead() <= TotSec()
    {
      ClustersIn(TotSec() - Overhead())
    }

    /** What the table of the volume's type takes: 12 or 16 bits an entry. */
    function FatBytes(): nat
      requires secPerClus > 0 && Overhead() <= TotSec()
    {
      var entries := Clusters() + 2;
      if CodeKind(entries).Twelve? then (entries * 3 + 1) / 2 else entries * 2
    }

    /** A volume as the standard wants it, on a device of `nsects` sectors and with a FAT that is large enough. */
    predicate WellFormed(bootsect: nat, nsects: nat) {
      && rsvdSecCnt >= 1 && numFats >= 1 && 1 <= FatSz() < 0x10000 && rootEntCnt % 16 == 0
      && secPerClus in {1, 2, 4, 8, 16, 32, 64, 128}
      && Overhead() <= TotSec() && bootsect + TotSec() <= nsects < 0x1_0000_0000
      && FatBytes() <= 512 * FatSz()
    }
  }

  function Word16(x: int): nat {
    x % 0x10000
  }

  function Word32(x: int): nat {
    x % 0x1_0000_0000
  }

  /** The assignments of auto_mount, in the widths of their types; nothing for a volume that needs FAT32. */
  function Mounted(bootsect: nat, b: BootRecord): Option<Geometry>
    requires b.secPerClus > 0
  {
    var sectsFat := Word16(b.FatSz());
    var fatsize := Word32(b.FatArea());
    var fatbase := Word32(bootsect + b.rsvdSecCnt);
    var maxclust := Word32(b.ClustersIn(Word32(b.TotSec() - b.rsvdSecCnt - fatsize - b.RootSectors())) + 2);
    match CodeKind(maxclust)
    case ThirtyTwo => None
    case kind =>
      Some(Geometry(if kind.Twelve? then Fat12 else Fat16, fatbase, sectsFat, b.numFats, Word32(fatbase + fatsize),
                    b.rootEntCnt, Word32(fatbase + fatsize + b.RootSectors()), b.secPerClus, Word16(maxclust)))
  }

  /** What is stored of a boot record, well formed or not: the size of a FAT and the limit of cluster numbers are cut to
      16 bits, and all sector numbers to 32. */
  lemma MountedIs(bootsect: nat, b: BootRecord)
    requires b.secPerClus > 0 && Mounted(bootsect, b).Some?
    ensures var geo := Mounted(bootsect, b).value;
            var size := if b.fatSz16 == 0 then b.fatSz32 else b.fatSz16;
            var total := if b.totSec16 == 0 then b.totSec32 else b.totSec16;
            var fats := size * b.numFats % 0x1_0000_0000;
            var data := (total - b.rsvdSecCnt - fats - b.rootEntCnt / 16) % 0x1_0000_0000;
            && geo.sectsFat == size % 0x10000 && geo.fatbase == (bootsect + b.rsvdSecCnt) % 0x1_0000_0000
            && geo.dirbase == (geo.fatbase + fats) % 0x1_0000_0000
            && geo.database == (geo.fatbase + fats + b.rootEntCnt / 16) % 0x1_0000_0000
            && geo.maxClust == (data / b.secPerClus + 2) % 0x1_0000_0000 <= 0xFFF7
            && (geo.fatType == Fat12 <==> geo.maxClust <= 0xFF7)
            && geo.nFats == b.numFats && geo.nRootdir == b.rootEntCnt && geo.sectsClust == b.secPerClus
  {
    SmallKinds(Word32(b.ClustersIn(Word32(b.TotSec() - b.rsvdSecCnt - Word32(b.FatArea()) - b.RootSectors())) + 2));
  }

  lemma Fits32(x: int)
    requires 0 <= x < 0x1_0000_0000
    ensures Word32(x) == x
  {
  }

  lemma Fits16(x: int)
    requires 0 <= x < 0x10000
    ensures Word16(x) == x
  {
  }

  lemma SmallKinds(maxclust: nat)
    ensures !CodeKind(maxclust).ThirtyTwo? ==> Word16(maxclust) == maxclust
  {
  }

  /** Where the parts of a volume lie. */
  function Laid(bootsect: nat, b: BootRecord): Geometry
    requires b.secPerClus > 0 && b.Overhead() <= b.TotSec()
  {
    var fatbase := bootsect + b.rsvdSecCnt;
    var dirbase := fatbase + b.FatArea();
    Geometry(if CodeKind(b.Clusters() + 2).Twelve? then Fat12 else Fat16, fatbase, b.FatSz(), b.numFats, dirbase,
             b.rootEntCnt, dirbase + b.RootSectors(), b.secPerClus, b.Clusters() + 2)
  }

  lemma PartsFit(bootsect: nat, b: BootRecord, nsects: nat)
    requires b.WellFormed(bootsect, nsects)
    ensures b.secPerClus > 0 && b.Overhead() <= b.TotSec() && 1 <= b.FatSz() < 0x10000
    ensures bootsect + b.TotSec() <= nsects < 0x1_0000_0000
    ensures b.Clusters() + 2 < 0x1_0000_0000
  {
    Positive(b.FatSz(), b.numFats);
    ClustersFit(b);
    assert b.FatBytes() >= b.Clusters() + 2;
  }

  /** From the fields of the boot record: the 32-bit sizes count where the 16-bit ones are 0; the FATs come behind the
      reserved sectors, then the root directory with 16 entries a sector, then the data. */
  lemma LaidIs(bootsect: nat, b: BootRecord)
    requires b.secPerClus > 0 && b.Overhead() <= b.TotSec()
    ensures var geo := Laid(bootsect, b);
            var size := if b.fatSz16 == 0 then b.fatSz32 else b.fatSz16;
            var total := if b.totSec16 == 0 then b.totSec32 else b.totSec16;
            && geo.sectsFat == size && geo.nFats == b.numFats && geo.nRootdir == b.rootEntCnt
            && geo.sectsClust == b.secPerClus && geo.fatbase == bootsect + b.rsvdSecCnt
            && geo.dirbase == geo.fatbase + size * b.numFats && geo.database == geo.dirbase + b.rootEntCnt / 16
            && geo.maxClust == (total - (geo.database - bootsect)) / b.secPerClus + 2
            && (geo.fatType == Fat12 <==> geo.maxClust <= 0xFF7)
  {
  }

  /** On a well-formed volume no word overflows. */
  lemma NothingIsCut(bootsect: nat, b: BootRecord, nsects: nat)
    requires b.WellFormed(bootsect, nsects)
    ensures Mounted(bootsect, b) == if CodeKind(b.Clusters() + 2).ThirtyTwo? then None else Some(Laid(bootsect, b))
  {
    hide BootRecord.WellFormed, BootRecord.FatArea, BootRecord.ClustersIn, BootRecord.FatSz, BootRecord.TotSec;
    hide BootRecord.RootSectors, CodeKind, Word16, Word32;
    PartsFit(bootsect, b, nsects);
    Fits16(b.FatSz());
    SmallKinds(b.Clusters() + 2);
    var p := b.FatArea();
    Fits32(p);
    Fits32(bootsect + b.rsvdSecCnt);
    Fits32(b.TotSec() - b.rsvdSecCnt - p - b.RootSectors());
    assert b.TotSec() - b.rsvdSecCnt - p - b.RootSectors() == b.TotSec() - b.Overhead();
    Fits32(b.Clusters() + 2);
    Fits32(bootsect + b.rsvdSecCnt + p);
    Fits32(bootsect + b.rsvdSecCnt + p + b.RootSectors());
  }

  /** The geometry fits the device, and its FAT has room for every entry. */
  lemma LaidIsValid(bootsect: nat, b: BootRecord, nsects: nat)
    requires b.WellFormed(bootsect, nsects) && !CodeKind(b.Clusters() + 2).ThirtyTwo?
    ensures Laid(bootsect, b).Valid(nsects)
  {
    ClustersFit(b);
    assert b.FatArea() == b.numFats * b.FatSz();
  }

  /** A well-formed volume is mounted unless it has more than 65525 clusters, and then with a geometry the file system
      can work with, of exactly its clusters. */
  lemma MountedIsValid(bootsect: nat, b: BootRecord, nsects: nat)
    requires b.WellFormed(bootsect, nsects)
    ensures Mounted(bootsect, b).None? <==> b.Clusters() > 65525
    ensures Mounted(bootsect, b).Some? ==>
              var geo := Mounted(bootsect, b).value;
              geo.Valid(nsects) && geo.maxClust == b.Clusters() + 2
  {
    hide Mounted, Geometry.Valid, BootRecord.Clusters;
    NothingIsCut(bootsect, b, nsects);
    if !CodeKind(b.Clusters() + 2).ThirtyTwo? { LaidIsValid(bootsect, b, nsects); }
  }

  /** The 1.44M floppy: 2847 clusters, and a table of 12-bit entries that would not hold them with 16. */
  lemma PlainFloppy(nsects: nat)
    requires 2880 <= nsects < 0x1_0000_0000
    ensures var b := BootRecord(9, 0, 2, 1, 224, 1, 2880, 0);
            b.WellFormed(0, nsects) && b.Clusters() == 2847 &&
            Mounted(0, b) == Some(Geometry(Fat12, 1, 9, 2, 19, 224, 33, 1, 2849))
  {
    var b := BootRecord(9, 0, 2, 1, 224, 1, 2880, 0);
    assert b.FatSz() == 9 && b.TotSec() == 2880 && b.Overhead() == 33 && b.Clusters() == 2847;
    assert b.FatBytes() == 4274;
    hide Mounted, Word32;
    NothingIsCut(0, b, nsects);
  }

  lemma ClustersFit(b: BootRecord)
    requires b.secPerClus > 0 && b.Overhead() <= b.TotSec()
    ensures b.Clusters() * b.secPerClus <= b.TotSec() - b.Overhead()
    ensures b.Clusters() + 2 <= b.TotSec() + 2
  {
    QuotientFits(b.TotSec() - b.Overhead(), b.secPerClus);
  }

  lemma QuotientFits(n: nat, k: nat)
    requires k > 0
    ensures n / k * k <= n && n / k <= n
  {
    Distribute(1, k - 1, n / k);
    Positive(k - 1, n / k);
  }
}
