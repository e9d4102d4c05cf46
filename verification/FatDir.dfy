/** Directories of tff.c: walking the entries of the root table or of a directory's cluster chain, and listing them. */
module FatDir {
  import opened Storage
  import opened FatTable
  import opened FatVolume
  import opened FatNames
  import F = FatFile

  type Entry = e: seq<Byte> | |e| == 32 witness seq(32, _ => 0)

  // ------------------------------------------------------------ entries

  datatype FileInfo = FileInfo(fname: seq<Byte>, fattrib: Byte, fsize: nat, fdate: nat, ftime: nat)

  const NOTHING: FileInfo := FileInfo([], 0, 0, 0, 0)

  function Word(e: seq<Byte>, at: nat): nat
    requires at + 2 <= |e|
  {
    e[at] as nat + 0x100 * e[at + 1] as nat
  }

  function DWord(e: seq<Byte>, at: nat): nat
    requires at + 4 <= |e|
  {
    Word(e, at) + 0x10000 * Word(e, at + 2)
  }

  /** The fields of a directory entry, at the offsets of "FAT Directory Structure". */
  function Info(e: Entry): FileInfo {
    FileInfo(Printed(e[..11]), e[11], DWord(e, 28), Word(e, 24), Word(e, 22))
  }

  /** In use and not a volume label (attribute bit 3). */
  predicate Live(e: Entry) {
    e[0] != 0 && e[0] != 0xE5 && e[11] / 8 % 2 == 0
  }

  /** A live entry whose printed name is not empty. */
  predicate Listed(e: Entry) {
    Live(e) && !(e[0] == SPACE && e[8] == SPACE)
  }

  /** What a listing from entry `p` on shows: everything listed, in order, up to the first entry that begins with 0. */
  function Listing(es: seq<Entry>, p: nat): seq<FileInfo>
    decreases |es| - p
  {
    if p >= |es| || es[p][0] == 0 then []
    else (if Listed(es[p]) then [Info(es[p])] else []) + Listing(es, p + 1)
  }

  /** An entry ends the listing, is passed over, or is shown. */
  lemma ListingAt(es: seq<Entry>, p: nat)
    ensures p >= |es| ==> Listing(es, p) == []
    ensures p < |es| && es[p][0] == 0x00 ==> Listing(es, p) == []
    ensures p < |es| && es[p][0] != 0x00 && (es[p][0] == 0xE5 || es[p][11] / 8 % 2 == 1) ==>
              Listing(es, p) == Listing(es, p + 1)
    ensures p < |es| && es[p][0] == 0x20 && es[p][8] == 0x20 ==> Listing(es, p) == Listing(es, p + 1)
    ensures p < |es| && es[p][0] != 0x00 && es[p][0] != 0xE5 && es[p][11] / 8 % 2 == 0
            && !(es[p][0] == 0x20 && es[p][8] == 0x20) ==>
              Listing(es, p) == [Info(es[p])] + Listing(es, p + 1)
  {
  }

  /** get_fileinfo */
  method GetFileInfo(dir: seq<Byte>) returns (finfo: FileInfo)
    requires |dir| == 32
    ensures finfo == Info(dir)
    ensures finfo.fname == Printed(dir[..11]) && finfo.fattrib == dir[11]
    ensures finfo.fsize == dir[28] as nat + 256 * dir[29] as nat + 65536 * dir[30] as nat + 16777216 * dir[31] as nat
    ensures finfo.fdate == dir[24] as nat + 256 * dir[25] as nat
    ensures finfo.ftime == dir[22] as nat + 256 * dir[23] as nat
  {
    var fname := PrintName(dir);
    finfo := FileInfo(fname, dir[11], DWord(dir, 28), Word(dir, 24), Word(dir, 22));
  }

  /** `fname[0]` as the C string has it. */
  function FirstChar(fname: seq<Byte>): Byte {
    if fname == [] then 0 else fname[0]
  }

  lemma NameShows(e: Entry)
    requires e[0] != 0
    ensures FirstChar(Printed(e[..11])) != 0 <==> !(e[0] == SPACE && e[8] == SPACE)
  {
    var d := e[..11];
    if e[0] != SPACE {
      assert d[..8][0] == e[0];
      assert Printed(d)[0] == Shown(e[0]);
    } else {
      assert UntilSpace(d[..8]) == [];
      assert ShownAll([]) == [];
    }
  }

  // ------------------------------------------------------------ masks

  /** Bitwise and. */
  function BitAnd(x: nat, y: nat): nat {
    if x == 0 || y == 0 then 0
    else 2 * BitAnd(x / 2, y / 2) + if x % 2 == 1 && y % 2 == 1 then 1 else 0
  }

  /** Masking with one less than a power of two takes the remainder. */
  lemma {:induction false} MaskIsRemainder(x: nat, n: nat)
    requires n in {1, 2, 4, 8, 16, 32, 64, 128}
    ensures BitAnd(x, n - 1) == x % n
    decreases n
  {
    if n == 1 || x == 0 {
    } else {
      MaskIsRemainder(x / 2, n / 2);
      assert (n - 1) / 2 == n / 2 - 1 && (n - 1) % 2 == 1;
      HalfRemainder(x, n);
    }
  }

  lemma HalfRemainder(x: nat, n: nat)
    requires n >= 2 && n % 2 == 0
    ensures x % n == 2 * (x / 2 % (n / 2)) + x % 2
  {
    var h, q, r := n / 2, x / 2 / (n / 2), x / 2 % (n / 2);
    assert x / 2 == q * h + r;
    assert q * n == q * h * 2;
    F.Division(x, n, q, 2 * r + x % 2);
  }

  lemma AddMultiple(w: nat, n: nat, m: nat)
    requires n > 0
    ensures (m * n + w) % n == w % n
  {
    assert (m + w / n) * n == m * n + w / n * n;
    F.Division(m * n + w, n, m + w / n, w % n);
  }

  /** The 16-bit index keeps what the cluster test looks at, because 65536 is a multiple of 16 * n. */
  lemma IndexWraps(p: nat, n: nat)
    requires n in {1, 2, 4, 8, 16, 32, 64, 128}
    ensures p % 0x10000 % 16 == p % 16
    ensures p % 0x10000 / 16 % n == p / 16 % n
  {
    var k, w := p / 0x10000, p % 0x10000;
    InSixteens(p);
    Divides4096(n);
    ThreeFactors(k, 4096 / n, n);
    AddMultiple(w / 16, n, k * (4096 / n));
  }

  lemma InSixteens(p: nat)
    ensures p / 16 == p / 0x10000 * 4096 + p % 0x10000 / 16 && p % 0x10000 % 16 == p % 16
  {
    var k, w := p / 0x10000, p % 0x10000;
    assert p == 16 * (4096 * k + w / 16) + w % 16;
  }

  lemma Divides4096(n: nat)
    requires n in {1, 2, 4, 8, 16, 32, 64, 128}
    ensures 4096 / n * n == 4096
  {
  }

  lemma ThreeFactors(a: nat, b: nat, c: nat)
    ensures a * b * c == a * (b * c)
  {
  }

  // ------------------------------------------------------------ directories

  /** Sector `q` of a directory: in the root table (`chain` is empty) or along its clusters. */
  ghost function SectorAt(geo: Geometry, chain: seq<nat>, q: nat): int
    requires chain != [] ==> geo.sectsClust > 0 && q / geo.sectsClust < |chain|
  {
    if chain == [] then geo.dirbase + q else F.SectorOf(geo, chain, q)
  }

  /** The number of entries. */
  ghost function Total(geo: Geometry, chain: seq<nat>): nat {
    if chain == [] then geo.nRootdir else |chain| * geo.sectsClust * 16
  }

  ghost predicate OnDisk(geo: Geometry, nsects: nat, chain: seq<nat>, q: nat) {
    && (chain != [] ==> geo.sectsClust > 0 && q / geo.sectsClust < |chain|)
    && 0 < SectorAt(geo, chain, q) < nsects
  }

  /** The whole directory lies on the device. */
  ghost predicate Present(geo: Geometry, nsects: nat, chain: seq<nat>) {
    forall q: nat :: 16 * q < Total(geo, chain) ==> OnDisk(geo, nsects, chain, q)
  }

  ghost function EntryAt(geo: Geometry, img: seq<Sector>, chain: seq<nat>, p: nat): Entry
    requires Present(geo, |img|, chain) && p < Total(geo, chain)
  {
    assert OnDisk(geo, |img|, chain, p / 16);
    img[SectorAt(geo, chain, p / 16)][p % 16 * 32..p % 16 * 32 + 32]
  }

  ghost function Entries(geo: Geometry, img: seq<Sector>, chain: seq<nat>): seq<Entry>
    requires Present(geo, |img|, chain)
  {
    seq(Total(geo, chain), p requires 0 <= p < Total(geo, chain) => EntryAt(geo, img, chain, p))
  }

  /** Where byte `k` of entry `p` is: sixteen entries a sector, in the root table or along the clusters. */
  lemma EntryByte(geo: Geometry, img: seq<Sector>, chain: seq<nat>, p: nat, k: nat)
    requires Present(geo, |img|, chain) && p < Total(geo, chain) && k < 32
    ensures chain == [] ==> geo.dirbase + p / 16 < |img| &&
                            Entries(geo, img, chain)[p][k] == img[geo.dirbase + p / 16][32 * (p % 16) + k]
    ensures chain != [] ==>
              && geo.sectsClust > 0 && p / 16 / geo.sectsClust < |chain|
              && var s := geo.database + (chain[p / 16 / geo.sectsClust] - 2) * geo.sectsClust
                          + p / 16 % geo.sectsClust;
                 0 < s < |img| && Entries(geo, img, chain)[p][k] == img[s][32 * (p % 16) + k]
  {
    hide Total, F.SectorOf;
    assert OnDisk(geo, |img|, chain, p / 16);
    if chain != [] { F.SectorIs(geo, chain, p / 16); }
  }

  /** `chain` is a directory's chain up to its end. */
  ghost predicate Complete(t: Table, chain: seq<nat>) {
    chain != [] ==> F.Follows(t, chain[0], chain) && !InRange(t, t[chain[|chain| - 1]])
  }

  /** The cursor stands on entry `p`. */
  ghost predicate CursorAt(geo: Geometry, chain: seq<nat>, p: nat, index: nat, clust: nat, sect: nat) {
    && (chain != [] ==> geo.sectsClust > 0 && p / 16 / geo.sectsClust < |chain|)
    && index == p % 0x10000
    && sect == SectorAt(geo, chain, p / 16)
    && clust == if chain == [] then 0 else chain[p / 16 / geo.sectsClust]
  }

  lemma DirOnDisk(geo: Geometry, nsects: nat, t: Table, chain: seq<nat>)
    requires geo.Valid(nsects) && |t| == geo.maxClust && Complete(t, chain)
    ensures Present(geo, nsects, chain)
  {
    forall q: nat | 16 * q < Total(geo, chain) ensures OnDisk(geo, nsects, chain, q) {
      geo.FatFits(nsects);
      if chain != [] {
        F.WithinChain(geo.sectsClust, |chain|, q);
        F.SectorOnDisk(geo, nsects, t, chain[0], chain, q);
      }
    }
  }

  /** Where f_opendir puts the cursor. */
  lemma OpensOn(geo: Geometry, nsects: nat, t: Table, chain: seq<nat>)
    requires geo.Valid(nsects) && |t| == geo.maxClust && 16 <= geo.nRootdir && Complete(t, chain)
    ensures chain == [] ==> CursorAt(geo, chain, 0, 0, 0, geo.dirbase) && 0 < Total(geo, chain)
    ensures chain != [] ==>
              && 2 <= chain[0] < geo.maxClust && (chain[0] - 2) * geo.sectsClust >= 0 && 2 < Total(geo, chain)
              && CursorAt(geo, chain, 2, 2, chain[0], (chain[0] - 2) * geo.sectsClust + geo.database)
  {
    hide F.SectorOf;
    geo.Sizes(nsects);
    if chain != [] {
      assert InRange(t, chain[0]);
      F.Monotone(1, |chain|, geo.sectsClust);
      Positive(chain[0] - 2, geo.sectsClust);
      F.Division(0, geo.sectsClust, 0, 0);
      F.FirstOfCluster(geo, chain, 0);
    }
  }

  // The index arithmetic of one step.

  lemma IndexNext(p: nat)
    ensures (p % 0x10000 + 1) % 0x10000 == (p + 1) % 0x10000
    ensures (p + 1) % 0x10000 % 16 == (p + 1) % 16
    ensures (p + 1) % 16 != 0 ==> (p + 1) / 16 == p / 16
    ensures (p + 1) % 16 == 0 ==> (p + 1) / 16 == p / 16 + 1 && p + 1 == 16 * (p / 16 + 1)
  {
    WrapNext(p);
    IndexWraps(p + 1, 1);
    var q, r := p / 16, p % 16;
    assert p == 16 * q + r;
    if r == 15 {
      assert p + 1 == 16 * (q + 1);
    } else {
      F.Division(p + 1, 16, q, r + 1);
    }
  }

  lemma WrapNext(p: nat)
    ensures (p % 0x10000 + 1) % 0x10000 == (p + 1) % 0x10000
  {
    var k, w := p / 0x10000, p % 0x10000;
    assert p == k * 0x10000 + w;
    if w + 1 == 0x10000 {
      F.Division(p + 1, 0x10000, k + 1, 0);
    } else {
      F.Division(p + 1, 0x10000, k, w + 1);
    }
  }

  /** What the cluster test looks at. */
  lemma ClusterTest(geo: Geometry, nsects: nat, p: nat, index: nat)
    requires geo.Valid(nsects) && index == p % 0x10000
    ensures geo.sectsClust > 0 && BitAnd(index / 16, geo.sectsClust - 1) == p / 16 % geo.sectsClust
  {
    geo.Sizes(nsects);
    MaskIsRemainder(index / 16, geo.sectsClust);
    IndexWraps(p, geo.sectsClust);
  }

  lemma SectorNext(n: nat, q: nat)
    requires n > 0
    ensures (q + 1) % n != 0 ==> (q + 1) % n == q % n + 1 && (q + 1) / n == q / n
    ensures (q + 1) % n == 0 ==> (q + 1) / n == q / n + 1 && q + 1 == (q / n + 1) * n
  {
    if q % n == n - 1 {
      F.NextCluster(n, q);
    } else {
      F.SameCluster(n, q, 1);
    }
  }

  /** Staying in the sector, */
  lemma SameSector(geo: Geometry, chain: seq<nat>, p: nat, index: nat, clust: nat, sect: nat)
    requires CursorAt(geo, chain, p, index, clust, sect) && (p + 1) % 16 != 0
    ensures CursorAt(geo, chain, p + 1, (index + 1) % 0x10000, clust, sect)
    ensures geo.nRootdir % 16 == 0 && p < Total(geo, chain) ==> p + 1 < Total(geo, chain)
  {
    hide SectorAt, Total;
    IndexNext(p);
    if geo.nRootdir % 16 == 0 && p < Total(geo, chain) {
      StillInside(geo, chain, p);
    }
  }

  lemma StillInside(geo: Geometry, chain: seq<nat>, p: nat)
    requires geo.nRootdir % 16 == 0 && p < Total(geo, chain) && (p + 1) % 16 != 0
    ensures p + 1 < Total(geo, chain)
  {
    var sectors := if chain == [] then geo.nRootdir / 16 else |chain| * geo.sectsClust;
    assert Total(geo, chain) == 16 * sectors;
  }

  /** stepping to the next one of the root table, */
  lemma NextInRoot(geo: Geometry, p: nat, index: nat, clust: nat, sect: nat)
    requires CursorAt(geo, [], p, index, clust, sect) && (p + 1) % 16 == 0
    requires p < geo.nRootdir < 0x10000 && geo.nRootdir % 16 == 0
    ensures (index + 1) % 0x10000 >= geo.nRootdir <==> p + 1 == geo.nRootdir
    ensures CursorAt(geo, [], p + 1, (index + 1) % 0x10000, clust, sect + 1)
  {
    IndexNext(p);
    assert geo.nRootdir <= 0xFFF0;
  }

  /** to the next one of the cluster, */
  lemma NextInCluster(geo: Geometry, chain: seq<nat>, p: nat, index: nat, clust: nat, sect: nat)
    requires chain != [] && CursorAt(geo, chain, p, index, clust, sect)
    requires (p + 1) % 16 == 0 && (p + 1) / 16 % geo.sectsClust != 0
    ensures CursorAt(geo, chain, p + 1, (index + 1) % 0x10000, clust, sect + 1)
    ensures p + 1 < Total(geo, chain)
  {
    IndexNext(p);
    SectorNext(geo.sectsClust, p / 16);
    InsideChain(geo.sectsClust, |chain|, p / 16 + 1);
  }

  lemma InsideChain(n: nat, links: nat, q: nat)
    requires n > 0 && q / n < links && q % n != 0
    ensures 16 * q < links * n * 16
  {
    Apart(q / n, links, n);
  }

  /** or to the first one of the next cluster, if there is one. */
  lemma NextLink(geo: Geometry, chain: seq<nat>, p: nat, index: nat, clust: nat, sect: nat)
    requires chain != [] && p < Total(geo, chain) && CursorAt(geo, chain, p, index, clust, sect)
    requires (p + 1) % 16 == 0 && (p + 1) / 16 % geo.sectsClust == 0
    ensures p / 16 / geo.sectsClust + 1 >= |chain| ==> p + 1 == Total(geo, chain)
    ensures var i := p / 16 / geo.sectsClust + 1;
            i < |chain| && 2 <= chain[i] < geo.maxClust ==>
              p + 1 < Total(geo, chain) && Starts(geo, chain, i, p + 1, (index + 1) % 0x10000)
  {
    hide F.SectorOf;
    IndexNext(p);
    SectorNext(geo.sectsClust, p / 16);
    var i := p / 16 / geo.sectsClust + 1;
    LinkEnds(geo, chain, i, p + 1);
    if i < |chain| && 2 <= chain[i] < geo.maxClust {
      LinkStarts(geo, chain, i, p + 1, p / 16 + 1);
    }
  }

  /** The entry of cluster `c` names link `i` of the chain, or ends it. */
  ghost predicate Linked(t: Table, chain: seq<nat>, i: nat, c: nat) {
    InRange(t, c) && if i < |chain| then InRange(t, chain[i]) && t[c] == chain[i] else !InRange(t, t[c])
  }

  lemma LinkBehind(geo: Geometry, t: Table, chain: seq<nat>, p: nat, index: nat, clust: nat, sect: nat)
    requires chain != [] && Complete(t, chain) && CursorAt(geo, chain, p, index, clust, sect)
    ensures geo.sectsClust > 0 && Linked(t, chain, p / 16 / geo.sectsClust + 1, clust)
  {
    hide SectorAt;
    var i := p / 16 / geo.sectsClust;
    assert clust == chain[i] && InRange(t, chain[i]);
    if i + 1 < |chain| {
      assert t[chain[i]] == chain[i + 1];
    }
  }

  lemma LinkEnds(geo: Geometry, chain: seq<nat>, i: nat, p: nat)
    requires chain != [] && geo.sectsClust > 0 && i <= |chain| && p == 16 * (i * geo.sectsClust)
    ensures i < |chain| ==> p < Total(geo, chain)
    ensures i == |chain| ==> p == Total(geo, chain)
  {
    if i < |chain| {
      Apart(i, |chain|, geo.sectsClust);
    }
  }

  lemma LinkStarts(geo: Geometry, chain: seq<nat>, i: nat, p: nat, q: nat)
    requires geo.sectsClust > 0 && i < |chain| && 2 <= chain[i] < geo.maxClust
    requires p / 16 == q && q / geo.sectsClust == i && q % geo.sectsClust == 0
    ensures Starts(geo, chain, i, p, p % 0x10000)
  {
    hide F.SectorOf;
    assert (chain[i] - 2) * geo.sectsClust >= 0;
    F.FirstOfCluster(geo, chain, q);
  }

  /** Entry `p` is the first one of link `i`. */
  ghost predicate Starts(geo: Geometry, chain: seq<nat>, i: nat, p: nat, index: nat)
    requires i < |chain| && chain[i] >= 2
  {
    && (chain[i] - 2) * geo.sectsClust >= 0
    && CursorAt(geo, chain, p, index, chain[i], (chain[i] - 2) * geo.sectsClust + geo.database)
  }

  class Dir {
    const fs: Volume
    const id: nat
    var index: nat
    var clust: nat
    var sect: nat
    /** The clusters of the directory, none for the root table. */
    ghost const chain: seq<nat>
    /** The entry the cursor stands on, or the number of entries behind the last one. */
    ghost var pos: nat

    ghost predicate Valid()
      reads `index, `clust, `sect, `pos
      reads fs`winsect, fs`winflag, fs.disk`sects, fs.win
    {
      && fs.Shape() && !fs.winflag && fs.geo.nRootdir < 0x10000
      && Complete(fs.geo.TableOf(fs.disk.sects), chain)
      && Present(fs.geo, |fs.disk.sects|, chain)
      && pos <= Total(fs.geo, chain)
      && (pos < Total(fs.geo, chain) ==> CursorAt(fs.geo, chain, pos, index, clust, sect))
      && (pos == Total(fs.geo, chain) ==> sect == 0)
    }

    /** What is left to list. */
    ghost function Left(): seq<FileInfo>
      requires Valid()
      reads `index, `clust, `sect, `pos
      reads fs`winsect, fs`winflag, fs.disk`sects, fs.win
    {
      Listing(Entries(fs.geo, fs.disk.sects, chain), pos)
    }

    /** f_opendir: the root table from its first entry, a subdirectory behind its two dot entries. */
    constructor (fs: Volume, ghost chain: seq<nat>, first: nat)
      requires fs.Shape() && !fs.winflag && 16 <= fs.geo.nRootdir < 0x10000
      requires Complete(fs.geo.TableOf(fs.disk.sects), chain) && first == if chain == [] then 0 else chain[0]
      ensures Valid() && this.fs == fs && this.chain == chain && id == fs.id
      ensures pos == if chain == [] then 0 else 2
    {
      hide Geometry.Valid, Geometry.Entry, Geometry.TableOf, Present, EntryAt, CursorAt, Total, Volume.Clust2Sect;
      hide F.Follows;
      OpensOn(fs.geo, |fs.disk.sects|, fs.geo.TableOf(fs.disk.sects), chain);
      DirOnDisk(fs.geo, |fs.disk.sects|, fs.geo.TableOf(fs.disk.sects), chain);
      this.fs, this.chain, id := fs, chain, fs.id;
      clust := first;
      if first == 0 {
        sect, index, pos := fs.geo.dirbase, 0, 0;
      } else {
        fs.Clust2SectExactly(first);
        sect, index, pos := fs.Clust2Sect(first), 2, 2;
      }
    }

    /** The next entry is the first one of another cluster, and the FAT sector with the link cannot be read. */
    ghost predicate LinkLost()
      reads `clust, `pos
    {
      AtClusterEnd() && fs.geo.EntrySector(clust) in fs.disk.bad
    }

    ghost predicate AtClusterEnd()
      reads `pos
    {
      chain != [] && (pos + 1) % 16 == 0 && fs.geo.sectsClust > 0 && (pos + 1) / 16 % fs.geo.sectsClust == 0
    }

    /** next_dir_entry. At the end of the table it answers false and leaves the cursor for its caller to clear. It
        answers false elsewhere too, but only at the end of a cluster and with a device error. */
    method NextDirEntry() returns (moved: bool)
      requires Valid() && pos < Total(fs.geo, chain) && fs.Trusts(fs.geo.EntrySector(clust))
      modifies `index, `clust, `sect, `pos, fs`winsect, fs`winflag, fs.win, fs.disk
      ensures fs.Shape() && !fs.winflag && fs.disk.sects == old(fs.disk.sects) && fs.disk.faults >= old(fs.disk.faults)
      ensures old(fs.Coherent()) && (moved || fs.disk.faults == old(fs.disk.faults) || fs.disk.keeps) ==> fs.Coherent()
      ensures moved ==> Valid() && pos == old(pos) + 1 < Total(fs.geo, chain)
      ensures !moved ==> old(pos) + 1 == Total(fs.geo, chain) ||
                         (old(AtClusterEnd()) && fs.disk.faults > old(fs.disk.faults))
      ensures old(LinkLost()) && old(fs.geo.EntrySector(clust) != fs.winsect) ==> !moved
    {
      hide SectorAt, EntryAt, Geometry.Entry, Geometry.EntrySector, Volume.Coherent, Complete, Present, Total;
      var idx := (index + 1) % 0x10000;
      MaskIsRemainder(idx, 16);
      IndexNext(pos);
      fs.geo.Sizes(|fs.disk.sects|);
      RootOrNot();
      if BitAnd(idx, 15) == 0 {
        if clust == 0 {
          RootTotal();
          NextInRoot(fs.geo, pos, index, clust, sect);
          sect := sect + 1;
          if idx >= fs.geo.nRootdir {
            return false;
          }
        } else {
          moved := NextDirSector(idx);
          if !moved {
            return;
          }
        }
      } else {
        SameSector(fs.geo, chain, pos, index, clust, sect);
      }
      index, pos := idx, pos + 1;
      moved := true;
    }

    lemma RootTotal()
      requires chain == []
      ensures Total(fs.geo, chain) == fs.geo.nRootdir
    {
    }

    /** The sector change of next_dir_entry in a cluster chain. */
    method NextDirSector(idx: nat) returns (moved: bool)
      requires Valid() && pos < Total(fs.geo, chain) && fs.Trusts(fs.geo.EntrySector(clust)) && chain != []
      requires idx == (index + 1) % 0x10000 == (pos + 1) % 0x10000 && (pos + 1) % 16 == 0
      modifies `clust, `sect, fs`winsect, fs`winflag, fs.win, fs.disk
      ensures fs.Shape() && !fs.winflag && fs.disk.sects == old(fs.disk.sects) && fs.disk.faults >= old(fs.disk.faults)
      ensures old(fs.Coherent()) && (moved || fs.disk.faults == old(fs.disk.faults) || fs.disk.keeps) ==> fs.Coherent()
      ensures moved ==> pos + 1 < Total(fs.geo, chain) && CursorAt(fs.geo, chain, pos + 1, idx, clust, sect)
      ensures !moved ==> pos + 1 == Total(fs.geo, chain) || (AtClusterEnd() && fs.disk.faults > old(fs.disk.faults))
      ensures old(LinkLost()) && old(fs.geo.EntrySector(clust) != fs.winsect) ==> !moved
    {
      hide SectorAt, EntryAt, Geometry.Entry, Geometry.EntrySector, Volume.Coherent, Complete, Present, Total, CursorAt;
      assert CursorAt(fs.geo, chain, pos, index, clust, sect);
      ClusterTest(fs.geo, |fs.disk.sects|, pos + 1, idx);
      ghost var here := sect;
      sect := sect + 1;
      if BitAnd(idx / 16, fs.geo.sectsClust - 1) == 0 {
        NextLink(fs.geo, chain, pos, index, clust, here);
        fs.CleanTab();
        LinkBehind(fs.geo, fs.Tab(), chain, pos, index, clust, here);
        moved := FirstOfNext();
      } else {
        NextInCluster(fs.geo, chain, pos, index, clust, here);
        moved := true;
      }
    }

    /** The step to the next cluster, if there is one. */
    method FirstOfNext() returns (moved: bool)
      requires fs.Shape() && !fs.winflag && fs.Trusts(fs.geo.EntrySector(clust)) && 2 <= clust < fs.geo.maxClust
      modifies `clust, `sect, fs`winsect, fs`winflag, fs.win, fs.disk
      ensures fs.Shape() && !fs.winflag && fs.disk.sects == old(fs.disk.sects) && fs.disk.faults >= old(fs.disk.faults)
      ensures old(fs.Coherent()) && (moved || fs.disk.faults == old(fs.disk.faults) || fs.disk.keeps) ==> fs.Coherent()
      ensures moved ==> clust == old(fs.Tab())[old(clust)] && InRange(old(fs.Tab()), clust)
      ensures moved ==> sect == (clust - 2) * fs.geo.sectsClust + fs.geo.database
      ensures !moved ==> !InRange(old(fs.Tab()), old(fs.Tab())[old(clust)]) || fs.disk.faults > old(fs.disk.faults)
      ensures old(fs.geo.EntrySector(clust)) in fs.disk.bad && old(fs.geo.EntrySector(clust) != fs.winsect) ==> !moved
    {
      hide Geometry.Valid, Geometry.Entry, Geometry.EntrySector, Volume.Coherent, Volume.Clust2Sect;
      var next := fs.GetCluster(clust);
      if next < 2 || next >= fs.geo.maxClust {
        return false;
      }
      clust := next;
      fs.Clust2SectExactly(next);
      sect := fs.Clust2Sect(next);
      moved := true;
    }

    lemma RootOrNot()
      requires fs.Shape() && Complete(fs.geo.TableOf(fs.disk.sects), chain)
      requires CursorAt(fs.geo, chain, pos, index, clust, sect)
      ensures clust == 0 <==> chain == []
    {
      hide SectorAt, Geometry.Valid, Geometry.TableOf;
    }

    /** The entry under the cursor, through the window. */
    method EntryHere() returns (ok: bool, dir: Entry)
      requires Valid() && fs.Trusts(sect) && pos < Total(fs.geo, chain)
      modifies fs`winsect, fs`winflag, fs.win, fs.disk
      ensures Valid() && fs.disk.sects == old(fs.disk.sects)
      ensures fs.disk.faults >= old(fs.disk.faults) && (!ok ==> fs.disk.faults > old(fs.disk.faults))
      ensures fs.disk.keeps && old(fs.Coherent()) ==> fs.Coherent()
      ensures ok ==> fs.Coherent() && fs.winsect == sect && dir == EntryAt(fs.geo, fs.disk.sects, chain, pos)
    {
      hide SectorAt, Geometry.Entry, Volume.Coherent, Complete, Total;
      assert OnDisk(fs.geo, |fs.disk.sects|, chain, pos / 16);
      MaskIsRemainder(index, 16);
      IndexWraps(pos, 1);
      dir := seq(32, _ => 0);
      ok := fs.MoveWindow(sect);
      if ok {
        dir := fs.win[BitAnd(index, 15) * 32..BitAnd(index, 15) * 32 + 32];
      }
    }

    /** One round of f_readdir's loop; `stop` at the end of the listing or with a name. */
    method ReadRound(was: FileInfo) returns (res: F.Result, finfo: FileInfo, stop: bool)
      requires Valid() && fs.Trusts(sect) && pos < Total(fs.geo, chain) && Unnamed(was)
      modifies this, fs`winsect, fs`winflag, fs.win, fs.disk
      ensures Valid() && fs.disk.sects == old(fs.disk.sects)
      ensures fs.disk.faults >= old(fs.disk.faults) && (res == F.Ok || res == F.RwError)
      ensures res == F.RwError ==> stop && fs.disk.faults > old(fs.disk.faults) && Left() == old(Left())
      ensures !stop ==> pos > old(pos) && Unnamed(finfo) && (sect != 0 ==> fs.Coherent())
      ensures fs.disk.keeps && old(fs.Coherent()) ==> fs.Coherent()
      ensures fs.disk.faults == old(fs.disk.faults) ==> fs.Coherent()
      ensures res == F.Ok ==> Delivered(old(Left()), Left(), stop, finfo) ||
                              (fs.disk.faults > old(fs.disk.faults) && sect == 0 &&
                               CutOff(old(Left()), Left(), stop, finfo))
      ensures res == F.Ok && old(LinkLost()) ==> Left() == []
    {
      hide CursorAt, SectorAt, Geometry.Entry, Volume.Coherent, Complete, Present, Total, Info, EntryAt, Listing;
      hide Listed;
      hide Geometry.EntrySector;
      ghost var es := Entries(fs.geo, fs.disk.sects, chain);
      finfo := was;
      InData();
      var ok, dir := EntryHere();
      if !ok {
        return F.RwError, finfo, true;
      }
      ListStep(es, pos);
      ListEnd(es);
      var c := dir[0];
      if c == 0 {
        return F.Ok, finfo, true;
      }
      if c != 0xE5 && dir[11] / 8 % 2 == 0 {
        finfo := GetFileInfo(dir);
      }
      var moved := NextDirEntry();
      if !moved {
        sect, pos := 0, Total(fs.geo, chain);
      }
      res, stop := F.Ok, FirstChar(finfo.fname) != 0;
    }

    /** The entry and the link to the next cluster lie in different sectors. */
    lemma InData()
      requires Valid() && pos < Total(fs.geo, chain)
      ensures chain != [] ==> fs.geo.EntrySector(clust) != sect
    {
      hide F.SectorOf, Geometry.TableOf, Geometry.EntrySector, Present;
      if chain != [] {
        fs.geo.FatFits(|fs.disk.sects|);
        F.EntryInFat(fs.geo, |fs.disk.sects|, clust);
        F.SectorOnDisk(fs.geo, |fs.disk.sects|, fs.geo.TableOf(fs.disk.sects), chain[0], chain, pos / 16);
      }
    }

    /** The loop of f_readdir. */
    method ReadLoop() returns (res: F.Result, finfo: FileInfo)
      requires Valid() && fs.Trusts(sect)
      modifies this, fs`winsect, fs`winflag, fs.win, fs.disk
      ensures Valid() && fs.disk.sects == old(fs.disk.sects) && fs.disk.faults >= old(fs.disk.faults)
      ensures res == F.Ok || (res == F.RwError && fs.disk.faults > old(fs.disk.faults) && Left() == old(Left()))
      ensures fs.disk.keeps && old(fs.Coherent()) ==> fs.Coherent()
      ensures fs.disk.faults == old(fs.disk.faults) && old(sect != 0 || fs.Coherent()) ==> fs.Coherent()
      ensures res == F.Ok ==> Delivered(old(Left()), Left(), true, finfo) ||
                              (fs.disk.faults > old(fs.disk.faults) && sect == 0 &&
                               CutOff(old(Left()), Left(), true, finfo))
      ensures res == F.Ok && old(LinkLost()) ==> Left() == []
    {
      hide CursorAt, SectorAt, Geometry.Valid, Geometry.Entry, Volume.Coherent, Complete, Present, Info, EntryAt;
      hide Listing, Listed;
      hide LinkLost;
      finfo := NOTHING;
      res := F.Ok;
      var stop := false;
      while !stop && sect != 0
        invariant Valid() && fs.disk.sects == old(fs.disk.sects) && fs.disk.faults >= old(fs.disk.faults)
        invariant res == F.Ok || (res == F.RwError && stop && fs.disk.faults > old(fs.disk.faults) &&
                                  Left() == old(Left()))
        invariant fs.disk.keeps && old(fs.Coherent()) ==> fs.Coherent()
        invariant !stop ==> Unnamed(finfo) && (sect != 0 ==> fs.Trusts(sect))
        invariant fs.disk.faults == old(fs.disk.faults) && old(sect != 0 || fs.Coherent()) ==>
                    fs.Coherent() || (!stop && sect == old(sect) != 0)
        invariant res == F.Ok ==> Delivered(old(Left()), Left(), stop, finfo) ||
                                  (fs.disk.faults > old(fs.disk.faults) && sect == 0 &&
                                   CutOff(old(Left()), Left(), stop, finfo))
        invariant res == F.Ok && old(LinkLost()) ==> Left() == [] || (!stop && LinkLost())
        decreases !stop, Total(fs.geo, chain) - pos
      {
        res, finfo, stop := ReadRound(finfo);
      }
      if !stop {
        AtEnd();
      }
    }

    lemma SectorThere()
      requires Valid() && pos < Total(fs.geo, chain)
      ensures sect > 0
    {
      assert OnDisk(fs.geo, |fs.disk.sects|, chain, pos / 16);
    }

    lemma AtEnd()
      requires Valid() && sect == 0
      ensures pos == Total(fs.geo, chain) && Left() == []
    {
      if pos < Total(fs.geo, chain) {
        SectorThere();
      }
      ListEnd(Entries(fs.geo, fs.disk.sects, chain));
    }

    /** f_readdir: the next listed entry, or no name when there is none, now and ever after. But when the device fails
        at the end of a cluster the listing can be cut short with Ok: after at most one more entry nothing is left. */
    method ReadDir() returns (res: F.Result, finfo: FileInfo)
      requires Valid() && fs.Trusts(sect)
      modifies this, fs`winsect, fs`winflag, fs.win, fs.disk
      ensures Valid() && fs.disk.sects == old(fs.disk.sects) && fs.disk.faults >= old(fs.disk.faults)
      ensures fs.id != id <==> res == F.InvalidObject
      ensures res in {F.RwError, F.NotReady} ==> fs.disk.faults > old(fs.disk.faults)
      ensures fs.id == id && fs.disk.faults == old(fs.disk.faults) ==> res == F.Ok
      ensures old(fs.Coherent()) && (fs.disk.faults == old(fs.disk.faults) || fs.disk.keeps) ==> fs.Coherent()
      ensures res == F.Ok ==> Delivered(old(Left()), Left(), true, finfo) ||
                              (fs.disk.faults > old(fs.disk.faults) && sect == 0 &&
                               CutOff(old(Left()), Left(), true, finfo))
      ensures res != F.Ok ==> Left() == old(Left())
      ensures res == F.Ok && old(LinkLost()) ==> Left() == []
    {
      hide Valid, Left, Delivered, CutOff, LinkLost;
      if fs.id != id {
        return F.InvalidObject, NOTHING;
      }
      var ready := fs.disk.Initialised();
      if !ready {
        return F.NotReady, NOTHING;
      }
      res, finfo := ReadLoop();
    }
  }

  /** A listing that is cut short. Two entries or more are left, and the FAT sector with the link behind the cursor's
      cluster is bad: two calls that are answered Ok deliver the first of them at most, and nothing is left. */
  method CutShort(d: Dir) returns (res: F.Result, first: FileInfo, second: FileInfo)
    requires d.Valid() && d.fs.Trusts(d.sect) && d.LinkLost() && |d.Left()| >= 2
    modifies d, d.fs, d.fs.win, d.fs.disk
    ensures d.Valid()
    ensures res == F.Ok ==> d.Left() == [] && Unnamed(second) && (Unnamed(first) || first == old(d.Left())[0])
  {
    hide Dir.Valid, Dir.Left, Dir.LinkLost, Volume.Coherent;
    second := NOTHING;
    res, first := d.ReadDir();
    if res == F.Ok {
      assert d.sect == 0;
      AtStart(d.fs);
      res, second := d.ReadDir();
    }
  }

  lemma AtStart(fs: Volume)
    ensures fs.Trusts(0)
  {
  }

  /** A run of successful calls: `lefts[i]` is left before call `i`, which delivers `infos[i]`. */
  ghost predicate ReadRun(lefts: seq<seq<FileInfo>>, infos: seq<FileInfo>) {
    && |lefts| == |infos| + 1
    && forall i :: 0 <= i < |infos| ==> Delivered(lefts[i], lefts[i + 1], true, infos[i])
  }

  /** Such a run lists every entry once, in order, and then nothing for ever. */
  lemma {:induction false} RunListsAll(lefts: seq<seq<FileInfo>>, infos: seq<FileInfo>)
    requires ReadRun(lefts, infos)
    ensures forall i :: 0 <= i < |infos| ==> if i < |lefts[0]| then infos[i] == lefts[0][i] else Unnamed(infos[i])
    ensures lefts[|infos|] == if |infos| <= |lefts[0]| then lefts[0][|infos|..] else []
    decreases |infos|
  {
    if infos == [] {
    } else {
      var n := |infos| - 1;
      RunListsAll(lefts[..n + 1], infos[..n]);
      assert Delivered(lefts[n], lefts[n + 1], true, infos[n]);
    }
  }

  predicate Unnamed(finfo: FileInfo) {
    FirstChar(finfo.fname) == 0
  }

  /** From `before` one name is delivered and taken off, or there is none; without `stop` nothing happened yet. */
  predicate Delivered(before: seq<FileInfo>, after: seq<FileInfo>, stop: bool, finfo: FileInfo) {
    if !stop then after == before
    else if before == [] then Unnamed(finfo) && after == []
    else finfo == before[0] && !Unnamed(finfo) && after == before[1..]
  }

  /** The rest has got lost, after its first entry or before. */
  predicate CutOff(before: seq<FileInfo>, after: seq<FileInfo>, stop: bool, finfo: FileInfo) {
    after == [] && (Unnamed(finfo) || (stop && before != [] && finfo == before[0]))
  }

  lemma ListStep(es: seq<Entry>, p: nat)
    requires p < |es|
    ensures es[p][0] == 0 ==> Listing(es, p) == []
    ensures es[p][0] != 0 && !(Live(es[p]) && !Unnamed(Info(es[p]))) ==> Listing(es, p) == Listing(es, p + 1)
    ensures es[p][0] != 0 && Live(es[p]) && !Unnamed(Info(es[p])) ==>
              Listing(es, p) == [Info(es[p])] + Listing(es, p + 1)
  {
    if es[p][0] != 0 {
      NameShows(es[p]);
      assert [] + Listing(es, p + 1) == Listing(es, p + 1);
    }
  }

  lemma ListEnd(es: seq<Entry>)
    ensures Listing(es, |es|) == []
  {
  }
}
