/** Open files of tff.c: the cursor (fptr, curr_clust, curr_sect, sect_clust) over a cluster chain, against the flat
    sequence of bytes the file is. The read-only configuration, in which the window is never dirty; but it may be stale,
    when a transfer into it has failed or one past it has changed its sector. */
module FatFile {
  import opened Storage
  import opened FatTable
  import opened FatVolume

  datatype Result = Ok | NotReady | Denied | RwError | InvalidObject

  // ------------------------------------------------------------ where file bytes lie

  /** `chain` starts at `org` and follows the table. */
  ghost predicate Follows(t: Table, org: nat, chain: seq<nat>) {
    && (chain != [] ==> chain[0] == org)
    && (forall i :: 0 <= i < |chain| ==> InRange(t, chain[i]))
    && (forall i {:trigger chain[i + 1]} :: 0 <= i < |chain| - 1 ==> t[chain[i]] == chain[i + 1])
  }

  /** Sector `q` of a file. */
  ghost function SectorOf(geo: Geometry, chain: seq<nat>, q: nat): int
    requires geo.sectsClust > 0 && q / geo.sectsClust < |chain|
  {
    (chain[q / geo.sectsClust] - 2) * geo.sectsClust + geo.database + q % geo.sectsClust
  }

  lemma SameQuotient(a: nat, b: nat, n: nat, x: nat, y: nat)
    requires x < n && y < n && a * n + x == b * n + y
    ensures a == b && x == y
  {
    if a < b {
      Apart(a, b, n);
    } else if b < a {
      Apart(b, a, n);
    }
  }

  lemma Division(q: nat, n: nat, i: nat, r: nat)
    requires r < n && q == i * n + r
    ensures q / n == i && q % n == r
  {
    SameQuotient(q / n, i, n, q % n, r);
  }

  lemma Monotone(a: nat, b: nat, n: nat)
    requires a <= b
    ensures a * n <= b * n
  {
    if a < b {
      Apart(a, b, n);
    }
  }

  lemma WithinChain(n: nat, links: nat, q: nat)
    requires n > 0 && q < links * n
    ensures q / n < links
  {
    var e := q / n;
    assert q == e * n + q % n;
    if links <= e {
      Monotone(links, e, n);
    }
  }

  /** Sectors of one cluster lie side by side. */
  lemma SameCluster(n: nat, q: nat, j: nat)
    requires n > 0 && q % n + j < n
    ensures (q + j) / n == q / n && (q + j) % n == q % n + j
  {
    Division(q + j, n, q / n, q % n + j);
  }

  lemma NextCluster(n: nat, q: nat)
    requires n > 0 && q % n == n - 1
    ensures (q + 1) / n == q / n + 1 && (q + 1) % n == 0
  {
    assert (q / n + 1) * n == (q / n) * n + n;
    Division(q + 1, n, q / n + 1, 0);
  }

  lemma SectorOnDisk(geo: Geometry, nsects: nat, t: Table, org: nat, chain: seq<nat>, q: nat)
    requires geo.Valid(nsects) && |t| == geo.maxClust && Follows(t, org, chain)
    requires q / geo.sectsClust < |chain|
    ensures 0 < geo.database <= SectorOf(geo, chain, q) < nsects
  {
    geo.FatFits(nsects);
    var c := chain[q / geo.sectsClust];
    assert InRange(t, c);
    Apart(c - 2, geo.maxClust - 2, geo.sectsClust);
    assert (c - 2) * geo.sectsClust >= 0;
  }

  /** The file as its reader sees it: `size` bytes, 512 to a sector. */
  ghost function Content(geo: Geometry, img: seq<Sector>, chain: seq<nat>, size: nat): (bytes: seq<Byte>)
    requires Covered(geo, img, chain, size)
    ensures |bytes| == size
  {
    seq(size, k requires 0 <= k < size => ByteOf(geo, img, chain, size, k))
  }

  /** The chain is long enough for `size` bytes and lies on the device. */
  ghost predicate Covered(geo: Geometry, img: seq<Sector>, chain: seq<nat>, size: nat) {
    geo.sectsClust > 0 && forall q: nat :: 512 * q < size ==> OnDisk(geo, |img|, chain, q)
  }

  ghost predicate OnDisk(geo: Geometry, nsects: nat, chain: seq<nat>, q: nat) {
    geo.sectsClust > 0 && q / geo.sectsClust < |chain| && 0 < SectorOf(geo, chain, q) < nsects
  }

  ghost function ByteOf(geo: Geometry, img: seq<Sector>, chain: seq<nat>, size: nat, k: nat): Byte
    requires Covered(geo, img, chain, size) && k < size
  {
    assert 512 * (k / 512) <= k && OnDisk(geo, |img|, chain, k / 512);
    img[SectorOf(geo, chain, k / 512)][k % 512]
  }

  /** A chain of `|chain|` clusters covers what fits in it. */
  lemma Covers(geo: Geometry, img: seq<Sector>, t: Table, org: nat, chain: seq<nat>, size: nat)
    requires geo.Valid(|img|) && |t| == geo.maxClust && Follows(t, org, chain)
    requires size <= |chain| * geo.sectsClust * 512
    ensures Covered(geo, img, chain, size)
  {
    forall q: nat | 512 * q < size ensures OnDisk(geo, |img|, chain, q) {
      WithinChain(geo.sectsClust, |chain|, q);
      SectorOnDisk(geo, |img|, t, org, chain, q);
    }
  }

  /** The cursor agrees with position `fptr`: untouched at the start, and behind that on the sector of the last byte. */
  ghost predicate CursorAt(geo: Geometry, chain: seq<nat>, fptr: nat, clust: nat, sect: nat, left: nat) {
    if fptr == 0 then left == 1
    else
      var q := (fptr - 1) / 512;
      geo.sectsClust > 0 && q / geo.sectsClust < |chain| && OnSector(geo, chain, q, clust, sect, left)
  }

  lemma CursorAtStart(geo: Geometry, chain: seq<nat>, clust: nat, sect: nat)
    ensures CursorAt(geo, chain, 0, clust, sect, 1)
  {
  }

  ghost predicate OnSector(geo: Geometry, chain: seq<nat>, q: nat, clust: nat, sect: nat, left: nat)
    requires geo.sectsClust > 0 && q / geo.sectsClust < |chain|
  {
    && clust == chain[q / geo.sectsClust]
    && sect == SectorOf(geo, chain, q)
    && left == geo.sectsClust - q % geo.sectsClust
  }

  /** The sector behind the cursor's: the next one of the cluster while any is left, else the first of the next link. */
  lemma SectorBehind(geo: Geometry, chain: seq<nat>, q: nat, clust: nat, sect: nat, left: nat)
    requires geo.sectsClust > 0 && q >= 1 && q / geo.sectsClust < |chain| && (q - 1) / geo.sectsClust < |chain|
    requires OnSector(geo, chain, q - 1, clust, sect, left)
    ensures left >= 1
    ensures left > 1 ==> OnSector(geo, chain, q, clust, sect + 1, left - 1)
    ensures left == 1 ==> q / geo.sectsClust == (q - 1) / geo.sectsClust + 1 && q % geo.sectsClust == 0
  {
    if left > 1 {
      SameCluster(geo.sectsClust, q - 1, 1);
    } else {
      NextCluster(geo.sectsClust, q - 1);
    }
  }

  lemma FirstOfCluster(geo: Geometry, chain: seq<nat>, q: nat)
    requires geo.sectsClust > 0 && q / geo.sectsClust < |chain| && q % geo.sectsClust == 0
    requires 2 <= chain[q / geo.sectsClust] < geo.maxClust
    ensures OnSector(geo, chain, q, chain[q / geo.sectsClust],
                     (chain[q / geo.sectsClust] - 2) * geo.sectsClust + geo.database, geo.sectsClust)
  {
    assert (chain[q / geo.sectsClust] - 2) * geo.sectsClust >= 0;
  }

  /** What the cursor knows at a sector boundary. */
  lemma Boundary(geo: Geometry, t: Table, org: nat, chain: seq<nat>, fptr: nat, clust: nat, sect: nat, left: nat)
    requires geo.sectsClust > 0 && Follows(t, org, chain) && CursorAt(geo, chain, fptr, clust, sect, left)
    requires fptr % 512 == 0 && fptr / 512 / geo.sectsClust < |chain|
    ensures left >= 1
    ensures left > 1 ==> OnSector(geo, chain, fptr / 512, clust, sect + 1, left - 1)
    ensures left == 1 ==> var c := chain[fptr / 512 / geo.sectsClust];
                          fptr / 512 % geo.sectsClust == 0 && InRange(t, c) &&
                          if fptr == 0 then c == org else InRange(t, clust) && t[clust] == c
  {
    hide SectorOf;
    var q := fptr / 512;
    if fptr > 0 {
      assert (fptr - 1) / 512 == q - 1 && q >= 1;
      SectorBehind(geo, chain, q, clust, sect, left);
      if left == 1 {
        assert chain[(q - 1) / geo.sectsClust + 1] == chain[q / geo.sectsClust];
      }
    } else {
      assert q / geo.sectsClust == 0 by { Division(0, geo.sectsClust, 0, 0); }
    }
  }

  /** At the end of a cluster the last byte before the position is in the link before the position's. */
  lemma Behind(geo: Geometry, chain: seq<nat>, fptr: nat)
    requires geo.sectsClust > 0 && fptr > 0 && fptr % 512 == 0 && fptr / 512 % geo.sectsClust == 0
    ensures (fptr - 1) / 512 == fptr / 512 - 1
    ensures (fptr - 1) / 512 / geo.sectsClust + 1 == fptr / 512 / geo.sectsClust
  {
    var n, q := geo.sectsClust, fptr / 512;
    NotInFirst(q, n);
    var e: nat := q / n - 1;
    assert q == (e + 1) * n;
    Distribute(e, 1, n);
    Division(q - 1, n, e, n - 1);
  }

  lemma NotInFirst(q: nat, n: nat)
    requires n > 0 && q > 0 && q % n == 0
    ensures q / n >= 1 && q == q / n * n
  {
    assert q == q / n * n + q % n;
    PositiveFactor(q / n, n);
  }

  lemma PositiveFactor(a: nat, n: nat)
    requires a * n > 0
    ensures a > 0
  {
  }

  lemma LinkOf(geo: Geometry, chain: seq<nat>, fptr: nat, clust: nat, sect: nat, left: nat)
    requires fptr > 0 && CursorAt(geo, chain, fptr, clust, sect, left)
    ensures geo.sectsClust > 0 && (fptr - 1) / 512 / geo.sectsClust < |chain|
    ensures clust == chain[(fptr - 1) / 512 / geo.sectsClust]
  {
  }

  lemma EntryInFat(geo: Geometry, nsects: nat, c: nat)
    requires geo.Valid(nsects) && c < geo.maxClust
    ensures geo.InFat(geo.EntrySector(c))
  {
    EntryFits(geo, nsects, c);
  }

  /** How many bytes f_read sets out to transfer: the clipping to what is left goes through a 16-bit word. */
  function Clipped(remain: nat, btr: nat): nat {
    if btr > remain then remain % 0x10000 else btr
  }

  /** So a read is clipped at the end of the file exactly when it does not have to be or less than 64K is left, */
  lemma ClippedAtEnd(remain: nat, btr: nat)
    ensures Clipped(remain, btr) == (if btr > remain then remain else btr) <==> btr <= remain || remain < 0x10000
  {
  }

  /** and asking for one byte more than the 64K that are left reads nothing at all. */
  lemma ClippedToNothing()
    ensures Clipped(0x10000, 0x10001) == 0
  {
  }

  /** Where byte `k` of a file is: in a sector of the cluster that its link names, clusters counted from 2 on. */
  lemma ByteIs(geo: Geometry, img: seq<Sector>, chain: seq<nat>, size: nat, k: nat)
    requires Covered(geo, img, chain, size) && k < size
    ensures geo.sectsClust > 0 && k / 512 / geo.sectsClust < |chain|
    ensures var s := geo.database + (chain[k / 512 / geo.sectsClust] - 2) * geo.sectsClust + k / 512 % geo.sectsClust;
            0 < s < |img| && Content(geo, img, chain, size)[k] == img[s][k % 512]
  {
    hide SectorOf;
    assert 512 * (k / 512) <= k && OnDisk(geo, |img|, chain, k / 512);
    SectorIs(geo, chain, k / 512);
  }

  lemma SectorIs(geo: Geometry, chain: seq<nat>, q: nat)
    requires geo.sectsClust > 0 && q / geo.sectsClust < |chain|
    ensures SectorOf(geo, chain, q)
         == geo.database + (chain[q / geo.sectsClust] - 2) * geo.sectsClust + q % geo.sectsClust
  {
  }

  /** Bytes of a stretch of sectors that lie in one cluster. */
  lemma StretchBytes(geo: Geometry, img: seq<Sector>, chain: seq<nat>, size: nat, from: nat, count: nat, j: nat)
    requires Covered(geo, img, chain, size) && from % 512 == 0 && from + 512 * count <= size && j < 512 * count
    requires from / 512 % geo.sectsClust + count <= geo.sectsClust
    ensures OnDisk(geo, |img|, chain, from / 512)
    ensures 0 <= SectorOf(geo, chain, from / 512) + j / 512 < |img|
    ensures Content(geo, img, chain, size)[from + j] == img[SectorOf(geo, chain, from / 512) + j / 512][j % 512]
  {
    var q := from / 512;
    assert OnDisk(geo, |img|, chain, q);
    SameCluster(geo.sectsClust, q, j / 512);
    assert (from + j) / 512 == q + j / 512 && (from + j) % 512 == j % 512;
    assert OnDisk(geo, |img|, chain, q + j / 512);
  }

  lemma Stretch(geo: Geometry, img: seq<Sector>, chain: seq<nat>, size: nat, from: nat, count: nat, data: seq<Byte>)
    requires Covered(geo, img, chain, size) && from % 512 == 0 && from + 512 * count <= size && |data| == 512 * count
    requires from / 512 % geo.sectsClust + count <= geo.sectsClust && OnDisk(geo, |img|, chain, from / 512)
    requires SectorOf(geo, chain, from / 512) + count <= |img|
    requires forall j :: 0 <= j < |data| ==> data[j] == img[SectorOf(geo, chain, from / 512) + j / 512][j % 512]
    ensures data == Content(geo, img, chain, size)[from..from + |data|]
  {
    hide SectorOf;
    forall j | 0 <= j < |data| ensures data[j] == Content(geo, img, chain, size)[from + j] {
      StretchBytes(geo, img, chain, size, from, count, j);
    }
  }

  /** Bytes of one sector. */
  lemma Fraction(geo: Geometry, img: seq<Sector>, chain: seq<nat>, size: nat, from: nat, n: nat, w: seq<Byte>)
    requires Covered(geo, img, chain, size) && from + n <= size && from % 512 + n <= 512
    requires OnDisk(geo, |img|, chain, from / 512) && w == img[SectorOf(geo, chain, from / 512)]
    ensures w[from % 512..from % 512 + n] == Content(geo, img, chain, size)[from..from + n]
  {
    hide SectorOf;
    var part := w[from % 512..from % 512 + n];
    forall j | 0 <= j < n ensures part[j] == Content(geo, img, chain, size)[from + j] {
      assert (from + j) / 512 == from / 512 && (from + j) % 512 == from % 512 + j;
    }
  }

  /** The cursor after a stretch of `count` sectors that began on sector `q`. */
  lemma StretchCursor(geo: Geometry, chain: seq<nat>, q: nat, count: nat, clust: nat, sect: nat, left: nat)
    requires geo.sectsClust > 0 && q / geo.sectsClust < |chain| && OnSector(geo, chain, q, clust, sect, left)
    requires 1 <= count <= left
    ensures CursorAt(geo, chain, 512 * (q + count), clust, sect + count - 1, left - (count - 1))
  {
    SameCluster(geo.sectsClust, q, count - 1);
    assert (512 * (q + count) - 1) / 512 == q + count - 1;
  }

  /** None of the file's sectors from number `from` on is sector `s`. */
  ghost predicate Ahead(geo: Geometry, nsects: nat, chain: seq<nat>, size: nat, from: nat, s: nat) {
    forall q: nat {:trigger OnDisk(geo, nsects, chain, q)} ::
      from <= q && 512 * q < size && OnDisk(geo, nsects, chain, q) ==> SectorOf(geo, chain, q) != s
  }

  lemma AheadAt(geo: Geometry, nsects: nat, chain: seq<nat>, size: nat, from: nat, s: nat, q: nat)
    requires Ahead(geo, nsects, chain, size, from, s) && from <= q && 512 * q < size && OnDisk(geo, nsects, chain, q)
    ensures SectorOf(geo, chain, q) != s
  {
  }

  /** The first sector that is copied through the window when `n` bytes are read from position `p`, if one is. */
  function FirstCopied(p: nat, n: nat): nat {
    (if p % 512 != 0 then p else p + n) / 512
  }

  /** Transferring whole sectors first changes nothing about what is copied. */
  lemma WholeStep(p: nat, n: nat, r: nat)
    requires p % 512 == 0 && r % 512 == 0 && r <= n
    ensures (p + r) % 512 == 0 && (n % 512 == 0 ==> (n - r) % 512 == 0)
    ensures FirstCopied(p + r, n - r) == FirstCopied(p, n)
  {
    assert p + r == 512 * (p / 512 + r / 512);
    if n % 512 == 0 {
      assert n - r == 512 * (n / 512 - r / 512);
    }
  }

  /** How many bytes of the sector at `p` are copied when `n` are wanted. */
  function Fraction512(p: nat, n: nat): (h: nat)
    ensures h <= n && p % 512 + h <= 512
  {
    if 512 - p % 512 > n then n else 512 - p % 512
  }

  lemma SomeFraction(p: nat, n: nat)
    ensures n > 0 ==> Fraction512(p, n) > 0
  {
  }

  /** Those bytes of a sector. */
  function Part(sector: seq<Byte>, p: nat, n: nat): (part: seq<Byte>)
    requires |sector| == 512
    ensures |part| == Fraction512(p, n)
  {
    sector[p % 512..p % 512 + Fraction512(p, n)]
  }

  /** The number of sectors of a direct transfer: as many as are wanted and the cluster still has. */
  method Contiguous(btr: nat, left: nat) returns (cc: nat)
    requires btr >= 512 && left >= 1
    ensures 1 <= cc <= left && 512 * cc <= btr && (512 * (cc + 1) > btr || cc == left)
  {
    cc := btr / 512;
    if cc > left {
      cc := left;
    }
  }

  /** memcpy */
  method CopyBytes(src: array<Byte>, from: nat, dst: array<Byte>, at: nat, n: nat)
    requires src != dst && from + n <= src.Length && at + n <= dst.Length
    modifies dst
    ensures dst[at..at + n] == src[from..from + n]
    ensures forall k :: 0 <= k < dst.Length && !(at <= k < at + n) ==> dst[k] == old(dst[k])
  {
    forall k | at <= k < at + n {
      dst[k] := src[from + (k - at)];
    }
  }

  class File {
    const fs: Volume
    const id: nat
    const readable: bool
    const fsize: nat
    const orgClust: nat
    var failed: bool
    var sectClust: nat
    var fptr: nat
    var currClust: nat
    var currSect: nat
    /** The clusters of the file, as the FAT links them. */
    ghost const chain: seq<nat>

    ghost predicate Formed()
      reads `failed, `sectClust, `fptr, `currClust, `currSect
      reads fs`winsect, fs`winflag, fs.disk`sects, fs.win
    {
      && fs.Shape() && !fs.winflag
      && Follows(fs.geo.TableOf(fs.disk.sects), orgClust, chain) && fsize <= |chain| * fs.geo.sectsClust * 512
      && Covered(fs.geo, fs.disk.sects, chain, fsize)
      && fptr <= fsize
      && (!failed ==> CursorAt(fs.geo, chain, fptr, currClust, currSect, sectClust))
    }

    /** The window is not stale on a FAT sector. */
    ghost predicate FatSeen()
      reads fs`winsect, fs`winflag, fs.disk`sects, fs.win
    {
      fs.Coherent() || !fs.geo.InFat(fs.winsect)
    }

    /** What every call needs: a device that keeps the window when a read fails never loses it. */
    ghost predicate Valid(): (valid: bool)
      reads `failed, `sectClust, `fptr, `currClust, `currSect
      reads fs`winsect, fs`winflag, fs.disk`sects, fs.win
      ensures valid <==> Formed() && FatSeen()
    {
      Formed() && FatSeen()
    }

    /** Nor on a sector of this file, from number `from` on. */
    ghost predicate Sees(from: nat)
      reads fs`winsect, fs`winflag, fs.disk`sects, fs.win
    {
      SeesAt(fs.Coherent(), fs.winsect, |fs.disk.sects|, from)
    }

    /** The same of a window that is right, or not, on sector `s`. */
    ghost predicate SeesAt(right: bool, s: nat, nsects: nat, from: nat) {
      right || (!fs.geo.InFat(s) && Ahead(fs.geo, nsects, chain, fsize, from, s))
    }

    /** What `n` bytes from position `p` need of the window: nothing if they are whole sectors, else the first sector
        that is copied and all behind it. */
    ghost predicate SeesFor(p: nat, n: nat)
      reads fs`winsect, fs`winflag, fs.disk`sects, fs.win
    {
      Enough(fs.Coherent(), fs.winsect, |fs.disk.sects|, p, n)
    }

    ghost predicate Enough(right: bool, s: nat, nsects: nat, p: nat, n: nat) {
      (p % 512 == 0 && n % 512 == 0) || SeesAt(right, s, nsects, FirstCopied(p, n))
    }

    ghost function Bytes(): (bytes: seq<Byte>)
      requires Formed()
      reads `failed, `sectClust, `fptr, `currClust, `currSect
      reads fs`winsect, fs`winflag, fs.disk`sects, fs.win
      ensures |bytes| == fsize
    {
      Content(fs.geo, fs.disk.sects, chain, fsize)
    }

    /** The end of f_open for a file whose directory entry says `orgClust` and `fsize`. */
    constructor (fs: Volume, readable: bool, orgClust: nat, fsize: nat, ghost chain: seq<nat>)
      requires fs.Shape() && !fs.winflag
      requires Follows(fs.Tab(), orgClust, chain) && fsize <= |chain| * fs.geo.sectsClust * 512
      ensures Formed() && !failed && fptr == 0
      ensures this.fs == fs && this.readable == readable && this.orgClust == orgClust && this.fsize == fsize
      ensures this.chain == chain && id == fs.id
      ensures Bytes() == Content(fs.geo, fs.disk.sects, chain, fsize)
    {
      Covers(fs.geo, fs.disk.sects, fs.Tab(), orgClust, chain, fsize);
      this.fs, this.readable, this.orgClust, this.fsize, this.chain := fs, readable, orgClust, fsize, chain;
      failed, fptr, sectClust, id := false, 0, 1, fs.id;
    }

    /** validate, and the error flag and access mode checks of the callers. */
    method Usable(reading: bool) returns (res: Result)
      modifies fs.disk`faults
      ensures fs.disk.faults >= old(fs.disk.faults) && (res == NotReady <==> fs.disk.faults > old(fs.disk.faults))
      ensures id != fs.id <==> res == InvalidObject
      ensures res == RwError <==> id == fs.id && res != NotReady && failed
      ensures res == Denied <==> id == fs.id && res != NotReady && !failed && reading && !readable
    {
      if fs.id != id {
        return InvalidObject;
      }
      var ready := fs.disk.Initialised();
      if !ready {
        return NotReady;
      }
      if failed {
        return RwError;
      }
      if reading && !readable {
        return Denied;
      }
      return Ok;
    }

    /** get_cluster for a cluster of the file: the next one, unless the window is stale where the link is. */
    method FollowLink(ghost i: nat) returns (clust: nat)
      requires fs.Shape() && !fs.winflag && Follows(fs.geo.TableOf(fs.disk.sects), orgClust, chain)
      requires i + 1 < |chain| && currClust == chain[i]
      modifies fs`winsect, fs`winflag, fs.win, fs.disk
      ensures fs.Shape() && !fs.winflag && fs.disk.sects == old(fs.disk.sects)
      ensures fs.disk.faults >= old(fs.disk.faults)
      ensures currClust < fs.geo.maxClust
      ensures clust == old(fs.EntrySeen(currClust)) || (clust == 1 && fs.disk.faults > old(fs.disk.faults))
      ensures clust != 1 || fs.disk.keeps ==> Steady(old(fs.Coherent()), old(fs.winsect), fs.Coherent(), fs.winsect)
      ensures old(FatSeen()) ==>
                if clust == 1 then fs.disk.faults > old(fs.disk.faults) else clust == chain[i + 1] && fs.Coherent()
      ensures InRange(fs.geo.TableOf(fs.disk.sects), chain[i + 1])
    {
      hide Volume.Coherent, Volume.EntrySeen, Geometry.Valid, Geometry.Entry;
      assert fs.Tab() == fs.geo.TableOf(fs.disk.sects) && InRange(fs.Tab(), chain[i]) &&
               chain[i + 1] == fs.Tab()[chain[i]];
      EntryInFat(fs.geo, |fs.disk.sects|, chain[i]);
      clust := fs.GetCluster(currClust);
    }

    /** The next sector is the first one of another cluster, which the FAT links. */
    ghost predicate AtLink()
      reads `fptr, `sectClust
    {
      fptr > 0 && sectClust == 1
    }

    /** What f_read does at a sector boundary: step to the next sector, or to the first one of the next cluster. That is
        the cluster of the entry as it is seen: the file's own, unless the window is stale where the link is. */
    method NextSector() returns (ok: bool)
      requires Formed() && !failed && fptr < fsize && fptr % 512 == 0
      modifies `sectClust, `currClust, `currSect, fs`winsect, fs`winflag, fs.win, fs.disk
      ensures fs.Shape() && !fs.winflag && fs.disk.sects == old(fs.disk.sects)
      ensures fs.disk.faults >= old(fs.disk.faults) && fptr / 512 / fs.geo.sectsClust < |chain|
      ensures old(FatSeen()) && !ok ==> fs.disk.faults > old(fs.disk.faults)
      ensures ok && old(FatSeen() || !AtLink()) ==>
                OnSector(fs.geo, chain, fptr / 512, currClust, currSect, sectClust)
      ensures !old(AtLink()) ==> ok && fs.winsect == old(fs.winsect) && fs.win[..] == old(fs.win[..])
      ensures old(AtLink()) ==> old(currClust) < fs.geo.maxClust
      ensures ok && old(AtLink()) ==>
                && 2 <= currClust < fs.geo.maxClust && currClust == old(fs.EntrySeen(currClust))
                && currSect == (currClust - 2) * fs.geo.sectsClust + fs.geo.database && sectClust == fs.geo.sectsClust
      ensures ok || fs.disk.keeps ==> Steady(old(fs.Coherent()), old(fs.winsect), fs.Coherent(), fs.winsect)
    {
      hide OnSector, CursorAt, SectorOf, Covered, FatSeen, Volume.Coherent, Volume.EntrySeen, Geometry.Valid;
      hide Geometry.Entry;
      hide Volume.Clust2Sect;
      ghost var geo, q := fs.geo, fptr / 512;
      NeededSector();
      Boundary(geo, fs.geo.TableOf(fs.disk.sects), orgClust, chain, fptr, currClust, currSect, sectClust);
      var sect: nat;
      sectClust := sectClust - 1;
      if sectClust != 0 {
        sect := currSect + 1;
      } else {
        var clust: nat;
        if fptr == 0 {
          clust := orgClust;
        } else {
          Behind(geo, chain, fptr);
          LinkOf(geo, chain, fptr, currClust, currSect, old(sectClust));
          clust := FollowLink((fptr - 1) / 512 / geo.sectsClust);
        }
        if clust < 2 || clust >= fs.geo.maxClust {
          return false;
        }
        FirstOfCluster(geo, chain, q);
        currClust := clust;
        fs.Clust2SectExactly(clust);
        sect := fs.Clust2Sect(clust);
        sectClust := fs.geo.sectsClust;
      }
      currSect := sect;
      return true;
    }

    /** The cursor stands on the sector of the next byte. */
    ghost predicate Positioned()
      reads `fptr, `sectClust, `currClust, `currSect
    {
      && fs.geo.sectsClust > 0 && fptr / 512 / fs.geo.sectsClust < |chain|
      && OnSector(fs.geo, chain, fptr / 512, currClust, currSect, sectClust)
    }

    /** Whole sectors, as many as the cluster still has, go straight into the caller's buffer, whatever the window
        shows. */
    method ReadSectors(buff: array<Byte>, at: nat, btr: nat) returns (ok: bool, rcnt: nat)
      requires fs.Shape() && !fs.winflag && Covered(fs.geo, fs.disk.sects, chain, fsize) && Positioned()
      requires buff != fs.win && at + btr <= buff.Length && btr >= 512 && fptr % 512 == 0 && fptr + btr <= fsize
      modifies `sectClust, `currSect, fs.disk`faults, buff
      ensures fs.disk.faults >= old(fs.disk.faults) && (!ok ==> fs.disk.faults > old(fs.disk.faults))
      ensures forall k :: 0 <= k < buff.Length && !(at <= k < at + btr) ==> buff[k] == old(buff[k])
      ensures 512 <= rcnt <= btr && rcnt % 512 == 0
      ensures ok ==> CursorAt(fs.geo, chain, fptr + rcnt, currClust, currSect, sectClust)
      ensures ok ==> buff[at..at + rcnt] == Content(fs.geo, fs.disk.sects, chain, fsize)[fptr..fptr + rcnt]
    {
      hide SectorOf, Covered, Content, CursorAt, OnSector, OnDisk, Geometry.Valid;
      SectorThere();
      var cc := Contiguous(btr, sectClust);
      StretchFits(fptr / 512, cc, sectClust);
      ok := fs.disk.Read(buff, at, currSect, cc);
      rcnt := cc * 512;
      if ok {
        Delivered(buff[..], at, currSect, cc);
        Moved(cc);
        sectClust := sectClust - (cc - 1);
        currSect := currSect + (cc - 1);
      }
    }

    lemma StretchFits(q: nat, cc: nat, left: nat)
      requires fs.geo.sectsClust > 0 && left == fs.geo.sectsClust - q % fs.geo.sectsClust && cc <= left
      ensures q % fs.geo.sectsClust + cc <= fs.geo.sectsClust
    {
    }

    /** Where the cursor is when a direct transfer of `cc` sectors has gone through. */
    lemma Moved(cc: nat)
      requires Positioned() && fptr % 512 == 0 && 1 <= cc <= sectClust
      ensures CursorAt(fs.geo, chain, fptr + cc * 512, currClust, currSect + (cc - 1), sectClust - (cc - 1))
    {
      hide OnSector, CursorAt;
      StretchCursor(fs.geo, chain, fptr / 512, cc, currClust, currSect, sectClust);
      assert 512 * (fptr / 512 + cc) == fptr + cc * 512;
    }

    /** What a direct transfer of `cc` sectors has brought into a buffer. */
    lemma Delivered(buff: seq<Byte>, at: nat, sect: nat, cc: nat)
      requires Covered(fs.geo, fs.disk.sects, chain, fsize) && fptr % 512 == 0 && fptr + 512 * cc <= fsize
      requires at + 512 * cc <= |buff| && sect + cc <= |fs.disk.sects|
      requires OnDisk(fs.geo, |fs.disk.sects|, chain, fptr / 512) && sect == SectorOf(fs.geo, chain, fptr / 512)
      requires fptr / 512 % fs.geo.sectsClust + cc <= fs.geo.sectsClust
      requires forall k :: at <= k < at + 512 * cc ==> buff[k] == fs.disk.sects[sect + (k - at) / 512][(k - at) % 512]
      ensures buff[at..at + cc * 512] == Content(fs.geo, fs.disk.sects, chain, fsize)[fptr..fptr + cc * 512]
    {
      hide SectorOf, Covered, Content;
      var data := buff[at..at + 512 * cc];
      assert forall j :: 0 <= j < 512 * cc ==> data[j] == buff[at + j];
      Stretch(fs.geo, fs.disk.sects, chain, fsize, fptr, cc, data);
    }

    /** Part of a sector is copied out of the window. The window shows the sector afterwards; it shows it right, and the
        bytes are the file's, if and only if it was right before or on another sector. */
    method ReadWindow(buff: array<Byte>, at: nat, btr: nat) returns (ok: bool, rcnt: nat)
      requires fs.Shape() && !fs.winflag && Covered(fs.geo, fs.disk.sects, chain, fsize) && Positioned()
      requires buff != fs.win && at + btr <= buff.Length && btr >= 1 && fptr + btr <= fsize
      modifies fs`winsect, fs`winflag, fs.win, fs.disk, buff
      ensures fs.Shape() && !fs.winflag && fs.disk.sects == old(fs.disk.sects)
      ensures fs.disk.faults >= old(fs.disk.faults) && (!ok ==> fs.disk.faults > old(fs.disk.faults))
      ensures forall k :: 0 <= k < buff.Length && !(at <= k < at + rcnt) ==> buff[k] == old(buff[k])
      ensures ok ==> fs.winsect == currSect < |fs.disk.sects|
      ensures ok ==> (fs.win[..] == fs.disk.sects[currSect] <==> old(fs.Trusts(currSect)))
      ensures ok || fs.disk.keeps ==> Steady(old(fs.Coherent()), old(fs.winsect), fs.Coherent(), fs.winsect)
      ensures rcnt == (if ok then Fraction512(fptr, btr) else 0)
      ensures ok ==> CursorAt(fs.geo, chain, fptr + rcnt, currClust, currSect, sectClust)
      ensures ok ==> buff[at..at + rcnt] == Part(fs.win[..], fptr, btr)
      ensures ok && old(fs.Trusts(currSect)) ==>
                buff[at..at + rcnt] == Content(fs.geo, fs.disk.sects, chain, fsize)[fptr..fptr + rcnt]
      ensures currSect == old(fs.winsect) ==> ok && fs.win[..] == old(fs.win[..])
    {
      hide SectorOf, Covered, Content, OnSector, OnDisk, CursorAt, Fraction512, Part, Geometry.Valid, Steady;
      SectorThere();
      rcnt := 0;
      ok := fs.MoveWindow(currSect);
      if ok {
        if old(fs.Trusts(currSect)) {
          PartOfFile(fs.win[..], btr);
        }
        rcnt := CopyPart(buff, at, btr);
        SameSector(btr);
      }
    }

    /** memcpy of what is wanted of the window's sector. */
    method CopyPart(buff: array<Byte>, at: nat, btr: nat) returns (rcnt: nat)
      requires fs.win.Length == 512 && buff != fs.win && at + btr <= buff.Length
      modifies buff
      ensures rcnt == Fraction512(fptr, btr) && buff[at..at + rcnt] == Part(fs.win[..], fptr, btr)
      ensures forall k :: 0 <= k < buff.Length && !(at <= k < at + rcnt) ==> buff[k] == old(buff[k])
    {
      rcnt := 512 - fptr % 512;
      if rcnt > btr {
        rcnt := btr;
      }
      CopyBytes(fs.win, fptr % 512, buff, at, rcnt);
    }

    lemma PartOfFile(w: seq<Byte>, n: nat)
      requires Covered(fs.geo, fs.disk.sects, chain, fsize) && OnDisk(fs.geo, |fs.disk.sects|, chain, fptr / 512)
      requires |w| == 512 && w == fs.disk.sects[SectorOf(fs.geo, chain, fptr / 512)] && fptr + n <= fsize
      ensures Part(w, fptr, n) == Content(fs.geo, fs.disk.sects, chain, fsize)[fptr..fptr + Fraction512(fptr, n)]
    {
      hide SectorOf, Covered, Content;
      Fraction(fs.geo, fs.disk.sects, chain, fsize, fptr, Fraction512(fptr, n), w);
    }

    lemma SectorThere()
      requires fs.geo.sectsClust > 0 && Covered(fs.geo, fs.disk.sects, chain, fsize) && Positioned() && fptr < fsize
      ensures OnDisk(fs.geo, |fs.disk.sects|, chain, fptr / 512) && currSect == SectorOf(fs.geo, chain, fptr / 512)
      ensures 0 < currSect < |fs.disk.sects| && sectClust == fs.geo.sectsClust - fptr / 512 % fs.geo.sectsClust >= 1
    {
      assert 512 * (fptr / 512) <= fptr;
    }

    lemma SameSector(n: nat)
      requires Positioned() && n >= 1
      ensures CursorAt(fs.geo, chain, fptr + Fraction512(fptr, n), currClust, currSect, sectClust)
    {
      SomeFraction(fptr, n);
      assert (fptr + Fraction512(fptr, n) - 1) / 512 == fptr / 512;
    }

    lemma NeededSector()
      requires Formed() && fptr < fsize
      ensures fs.geo.sectsClust > 0 && OnDisk(fs.geo, |fs.disk.sects|, chain, fptr / 512)
    {
      assert 512 * (fptr / 512) <= fptr;
    }

    /** The cursor's sector is right in the window, if it is there and the window is seen right for what is wanted. */
    lemma SeenHere(n: nat)
      requires SeesFor(fptr, n) && Covered(fs.geo, fs.disk.sects, chain, fsize) && Positioned() && fptr < fsize
      requires n >= 1 && (fptr % 512 != 0 || n < 512)
      ensures fs.Trusts(currSect)
    {
      SectorThere();
      hide SectorOf, Covered, OnSector, Volume.Coherent, Ahead;
      assert FirstCopied(fptr, n) == fptr / 512;
      if !fs.Coherent() {
        AheadAt(fs.geo, |fs.disk.sects|, chain, fsize, fptr / 512, fs.winsect, fptr / 512);
      }
    }

    /** One round of f_read's loop. */
    method ReadSome(buff: array<Byte>, at: nat, btr: nat) returns (ok: bool, rcnt: nat)
      requires Valid() && !failed && buff != fs.win && at + btr <= buff.Length && btr >= 1
      requires fptr + btr <= fsize
      modifies `sectClust, `currClust, `currSect, fs`winsect, fs`winflag, fs.win, fs.disk, buff
      ensures fs.Shape() && !fs.winflag && fs.disk.sects == old(fs.disk.sects)
      ensures fs.disk.faults >= old(fs.disk.faults) && (!ok ==> fs.disk.faults > old(fs.disk.faults))
      ensures forall k :: 0 <= k < buff.Length && !(at <= k < at + btr) ==> buff[k] == old(buff[k])
      ensures fptr % 512 != 0 || btr < 512 ==>
                (!ok ==> rcnt == 0) && forall k :: 0 <= k < buff.Length && !(at <= k < at + rcnt) ==>
                    buff[k] == old(buff[k])
      ensures ok ==> if fptr % 512 == 0 && btr >= 512 then rcnt % 512 == 0 && 512 <= rcnt <= btr
                     else rcnt == Fraction512(fptr, btr) && (old(SeesFor(fptr, btr)) ==> fs.Coherent())
      ensures ok ==> CursorAt(fs.geo, chain, fptr + rcnt, currClust, currSect, sectClust)
      ensures ok || fs.disk.keeps ==> Steady(old(fs.Coherent()), old(fs.winsect), fs.Coherent(), fs.winsect)
      ensures ok && old(SeesFor(fptr, btr)) ==>
                buff[at..at + rcnt] == Content(fs.geo, fs.disk.sects, chain, fsize)[fptr..fptr + rcnt]
      ensures old(HeadShown()) ==>
                ok && rcnt == Fraction512(fptr, btr) && buff[at..at + rcnt] == Part(old(fs.win[..]), fptr, btr)
    {
      hide SectorOf, OnSector, Content, CursorAt, Ahead, Covered, Fraction512, Part, Enough, Follows;
      hide Geometry.Valid, Geometry.Entry, Volume.Coherent;
      NeededSector();
      rcnt := 0;
      if fptr % 512 == 0 {
        ok := NextSector();
        if !ok {
          return;
        }
        if btr / 512 != 0 {
          ok, rcnt := ReadSectors(buff, at, btr);
          return;
        }
      } else {
        InsideSector();
      }
      if old(SeesFor(fptr, btr)) {
        EnoughStill(old(fs.Coherent()), old(fs.winsect), fs.Coherent(), fs.winsect, |fs.disk.sects|, fptr, btr);
        SeenHere(btr);
      }
      ok, rcnt := ReadWindow(buff, at, btr);
    }

    lemma EnoughStill(right: bool, s: nat, right': bool, s': nat, nsects: nat, p: nat, n: nat)
      requires Enough(right, s, nsects, p, n) && Steady(right, s, right', s')
      ensures Enough(right', s', nsects, p, n)
    {
    }

    /** What is seen right from the first sector on is enough for everything. */
    lemma SeesAll()
      requires Sees(0)
      ensures FatSeen() && forall p: nat, n: nat :: SeesFor(p, n)
    {
    }

    /** After one round without a fault, and then for what is left. */
    lemma EnoughFor(right: bool, s: nat, right': bool, s': nat, nsects: nat, p: nat, n: nat, r: nat)
      requires Enough(right, s, nsects, p, n) && Steady(right, s, right', s') && r <= n
      requires (p % 512 == 0 && n >= 512 && r % 512 == 0) || right'
      ensures Enough(right', s', nsects, p + r, n - r)
    {
      hide Ahead;
      if p % 512 == 0 && r % 512 == 0 {
        WholeStep(p, n, r);
      }
    }

    /** The position is inside a sector, and the window claims to show it. */
    ghost predicate HeadShown()
      reads `fptr, `currSect, fs`winsect
    {
      fptr % 512 != 0 && currSect == fs.winsect
    }

    /** The window claims to show sector `q` of the file. */
    ghost predicate Shows(q: nat)
      reads fs`winsect
    {
      fs.geo.sectsClust > 0 && q / fs.geo.sectsClust < |chain| && SectorOf(fs.geo, chain, q) == fs.winsect
    }

    lemma InsideSector()
      requires fptr % 512 != 0 && CursorAt(fs.geo, chain, fptr, currClust, currSect, sectClust)
      ensures Positioned()
    {
      assert (fptr - 1) / 512 == fptr / 512;
    }

    /** One round of f_read's loop with the step of the file position, or the error exit. */
    method ReadRound(buff: array<Byte>, at: nat, btr: nat) returns (rcnt: nat)
      requires Valid() && !failed && buff != fs.win && at + btr <= buff.Length && btr >= 1
      requires fptr + btr <= fsize
      modifies `failed, `fptr, `sectClust, `currClust, `currSect, fs`winsect, fs`winflag, fs.win, fs.disk, buff
      ensures Formed() && fs.disk.sects == old(fs.disk.sects) && Bytes() == old(Bytes())
      ensures fs.disk.faults >= old(fs.disk.faults) && (failed ==> fs.disk.faults > old(fs.disk.faults))
      ensures forall k :: 0 <= k < buff.Length && !(at <= k < at + btr) ==> buff[k] == old(buff[k])
      ensures old(fptr) % 512 != 0 || btr < 512 ==>
                rcnt == (if failed then 0 else Fraction512(old(fptr), btr)) &&
                forall k :: 0 <= k < buff.Length && !(at <= k < at + rcnt) ==> buff[k] == old(buff[k])
      ensures !failed ==> 1 <= rcnt <= btr && fptr == old(fptr) + rcnt
      ensures !failed || fs.disk.keeps ==>
                Valid() && Steady(old(fs.Coherent()), old(fs.winsect), fs.Coherent(), fs.winsect)
      ensures failed ==> fptr == old(fptr)
      ensures !failed && old(SeesFor(fptr, btr)) ==>
                buff[at..at + rcnt] == Bytes()[old(fptr)..old(fptr) + rcnt] && SeesFor(fptr, btr - rcnt)
      ensures old(HeadShown()) ==>
                !failed && rcnt == Fraction512(old(fptr), btr) &&
                    buff[at..at + rcnt] == Part(old(fs.win[..]), old(fptr), btr)
    {
      hide CursorAt, Covered, Follows, Content, Enough, HeadShown, Fraction512, Part;
      hide Geometry.Valid, Geometry.TableOf, Volume.Image, Volume.Coherent;
      var ok;
      SomeFraction(fptr, btr);
      ok, rcnt := ReadSome(buff, at, btr);
      if ok {
        if old(SeesFor(fptr, btr)) {
          EnoughFor(old(fs.Coherent()), old(fs.winsect), fs.Coherent(), fs.winsect, |fs.disk.sects|, fptr, btr, rcnt);
        }
        fptr := fptr + rcnt;
      } else {
        failed := true;
      }
    }

    /** What Formed says of the file itself, on a device that holds `sects`, */
    ghost predicate Fits(sects: seq<Sector>)
      reads `failed, `sectClust, `fptr, `currClust, `currSect
    {
      && fs.geo.Valid(|sects|)
      && Follows(fs.geo.TableOf(sects), orgClust, chain) && fsize <= |chain| * fs.geo.sectsClust * 512
      && Covered(fs.geo, sects, chain, fsize)
      && fptr <= fsize
      && (!failed ==> CursorAt(fs.geo, chain, fptr, currClust, currSect, sectClust))
    }

    /** and its bytes there. */
    ghost function On(sects: seq<Sector>): (bytes: seq<Byte>)
      ensures Covered(fs.geo, sects, chain, fsize) ==> |bytes| == fsize
    {
      if Covered(fs.geo, sects, chain, fsize) then Content(fs.geo, sects, chain, fsize) else []
    }

    lemma FormedIs()
      ensures Formed() <==> fs.Shape() && !fs.winflag && Fits(fs.disk.sects)
      ensures Formed() ==> Bytes() == On(fs.disk.sects) && fptr <= |On(fs.disk.sects)|
    {
    }

    lemma FitsIn(sects: seq<Sector>)
      requires Fits(sects)
      ensures fptr <= |On(sects)|
    {
    }

    lemma Coherently()
      requires fs.Coherent()
      ensures Sees(0)
    {
    }

    lemma Positions()
      requires Formed()
      ensures fptr <= fsize == |Bytes()|
    {
    }

    /** Nothing but the device stands in the way of a call: the volume has not been mounted anew, no earlier call has
        failed and reading is allowed. */
    ghost predicate Granted(): (granted: bool)
      reads `failed, fs`id
      ensures granted <==> fs.id == id && !failed && readable
    {
      fs.id == id && !failed && readable
    }

    lemma WindowSize()
      requires Formed()
      ensures fs.win.Length == 512
    {
    }

    /** The loop of f_read. */
    method Transfer(buff: array<Byte>, btr: nat) returns (br: nat)
      requires Valid() && !failed && buff != fs.win && btr <= buff.Length && fptr + btr <= fsize
      modifies `failed, `fptr, `sectClust, `currClust, `currSect, fs`winsect, fs`winflag, fs.win, fs.disk, buff
      ensures Formed() && fs.disk.sects == old(fs.disk.sects) && Bytes() == old(Bytes())
      ensures fptr == old(fptr) + br && if failed then br < btr else br == btr
      ensures fs.disk.faults >= old(fs.disk.faults)
      ensures old(SeesFor(fptr, btr)) ==> buff[..br] == Bytes()[old(fptr)..old(fptr) + br]
      ensures forall k :: btr <= k < buff.Length ==> buff[k] == old(buff[k])
      ensures failed ==> fs.disk.faults > old(fs.disk.faults)
      ensures !failed || fs.disk.keeps ==>
                Valid() && Steady(old(fs.Coherent()), old(fs.winsect), fs.Coherent(), fs.winsect)
      ensures old(HeadShown()) ==>
                Fraction512(old(fptr), btr) <= br &&
                buff[..Fraction512(old(fptr), btr)] == Part(old(fs.win[..]), old(fptr), btr)
    {
      hide *;
      br := 0;
      var left := btr;
      WindowSize();
      ghost var start, bytes, sees, head := fptr, Bytes(), SeesFor(fptr, btr), HeadShown();
      ghost var part, right, sect := Part(fs.win[..], fptr, btr), fs.Coherent(), fs.winsect;
      SomeFraction(fptr, btr);
      StaysSteady(right, sect, right, sect, right, sect);
      NothingRead(bytes, start, part, sees, head, buff[..]);
      while left != 0 && !failed
        invariant Formed() && fs.disk.sects == old(fs.disk.sects) && Bytes() == bytes
        invariant br + left == btr && fptr == start + br && fptr + left <= fsize == |bytes| && (failed ==> left != 0)
        invariant ReadSo(bytes, start, part, sees, head, br, buff[..])
        invariant !failed || fs.disk.keeps ==> FatSeen() && Steady(right, sect, fs.Coherent(), fs.winsect)
        invariant !failed && sees ==> SeesFor(fptr, left)
        invariant head && br == 0 ==> !failed && HeadShown() && Part(fs.win[..], fptr, left) == part
        invariant forall k :: btr <= k < buff.Length ==> buff[k] == old(buff[k])
        invariant fs.disk.faults >= old(fs.disk.faults) && (failed ==> fs.disk.faults > old(fs.disk.faults))
        decreases left, !failed
      {
        ghost var before, right1, sect1 := buff[..], fs.Coherent(), fs.winsect;
        var rcnt := ReadRound(buff, br, left);
        StaysSteady(right, sect, right1, sect1, fs.Coherent(), fs.winsect);
        if failed {
          SameBegin(bytes, start, part, sees, head, br, before, buff[..]);
        } else {
          ReadOn(bytes, start, part, sees, head, br, rcnt, before, buff[..]);
          br := br + rcnt;
          left := left - rcnt;
        }
      }
      ReadIs(bytes, start, part, sees, head, br, buff[..]);
    }

    /** f_read. `br` bytes from the file position on have been read, all that were asked for as far as the file and
        the clipping go; after a device error fewer, and the file refuses further use. They are the file's bytes if the
        window is not stale on a sector they are copied from; if the position is inside the sector a stale window claims
        to show, they begin with what the window holds. */
    method Read(buff: array<Byte>, btr: nat) returns (res: Result, br: nat)
      requires Valid() && buff != fs.win && btr <= buff.Length
      modifies `failed, `fptr, `sectClust, `currClust, `currSect, fs`winsect, fs`winflag, fs.win, fs.disk, buff
      ensures Formed() && fs.disk.sects == old(fs.disk.sects) && Bytes() == old(Bytes())
      ensures fptr == old(fptr) + br && br <= Clipped(fsize - old(fptr), btr)
      ensures old(SeesFor(fptr, Clipped(fsize - fptr, btr))) ==> buff[..br] == Bytes()[old(fptr)..fptr]
      ensures res == Ok ==> !failed && br == Clipped(fsize - old(fptr), btr)
      ensures forall k :: Clipped(fsize - old(fptr), btr) <= k < buff.Length ==> buff[k] == old(buff[k])
      ensures res != Ok && !(res == RwError && !old(failed)) ==> br == 0 && failed == old(failed)
      ensures res == RwError ==> failed && (old(failed) || fs.disk.faults > old(fs.disk.faults))
      ensures res == RwError && !old(failed) ==> br < Clipped(fsize - old(fptr), btr)
      ensures res != RwError || fs.disk.keeps ==>
                Valid() && Steady(old(fs.Coherent()), old(fs.winsect), fs.Coherent(), fs.winsect)
      ensures (fs.id != id <==> res == InvalidObject) && (old(failed) ==> res != Ok)
      ensures fs.disk.faults >= old(fs.disk.faults) && (res == NotReady ==> fs.disk.faults > old(fs.disk.faults))
      ensures res == Denied ==> !readable
      ensures old(Granted()) && fs.disk.faults == old(fs.disk.faults) ==> res == Ok && Granted()
      ensures res in {Ok, RwError} && !old(failed) && old(HeadShown()) ==>
                var n := Clipped(fsize - old(fptr), btr);
                Fraction512(old(fptr), n) <= br &&
                    buff[..Fraction512(old(fptr), n)] == Part(old(fs.win[..]), old(fptr), n)
    {
      hide CursorAt, Covered, Follows, Content, Ahead, Geometry.Valid, Geometry.TableOf, Volume.Image, Volume.Coherent;
      br := 0;
      res := Usable(true);
      if res != Ok {
        return;
      }
      var left := btr;
      var remain := fsize - fptr;
      if left > remain {
        left := remain % 0x10000;
      }
      br := Transfer(buff, left);
      res := if failed then RwError else Ok;
    }

    lemma FirstLink()
      requires Formed() && fsize >= 1
      ensures |chain| >= 1 && chain[0] == orgClust >= 2 && fsize <= |chain| * (fs.geo.sectsClust * 512)
    {
      assert |chain| * fs.geo.sectsClust * 512 == |chain| * (fs.geo.sectsClust * 512);
    }

    /** The loop of f_lseek over the links before the one that holds position `ofs`. */
    method SkipClusters(ofs: nat) returns (ok: bool, clust: nat, left: nat)
      requires Valid() && !failed && 1 <= ofs <= fsize && fptr == 0
      modifies `fptr, `currClust, fs`winsect, fs`winflag, fs.win, fs.disk
      ensures fs.Shape() && !fs.winflag && fs.disk.sects == old(fs.disk.sects)
      ensures fs.disk.faults >= old(fs.disk.faults) && (!ok ==> fs.disk.faults > old(fs.disk.faults))
      ensures fptr <= fsize
      ensures ok ==> currClust == clust && fptr + left == ofs && 1 <= left <= fs.geo.sectsClust * 512
      ensures ok ==> exists i: nat :: i < |chain| && clust == chain[i] && fptr == i * (fs.geo.sectsClust * 512)
      ensures ok ==> InRange(fs.geo.TableOf(fs.disk.sects), clust)
      ensures ok || fs.disk.keeps ==> Steady(old(fs.Coherent()), old(fs.winsect), fs.Coherent(), fs.winsect)
      ensures ofs <= fs.geo.sectsClust * 512 ==> ok && fs.winsect == old(fs.winsect) && fs.win[..] == old(fs.win[..])
    {
      hide CursorAt, Content, SectorOf, OnSector, Geometry.Valid, Geometry.Entry, Volume.Coherent;
      var csize := fs.geo.sectsClust * 512;
      FirstLink();
      clust, left := orgClust, ofs;
      ghost var i := 0;
      ok := true;
      while true
        invariant fs.Shape() && !fs.winflag && FatSeen() && fs.disk.sects == old(fs.disk.sects)
        invariant fs.disk.faults >= old(fs.disk.faults)
        invariant 0 <= i < |chain| && clust == chain[i] && fptr == i * csize
        invariant fptr + left == ofs && left >= 1
        invariant Steady(old(fs.Coherent()), old(fs.winsect), fs.Coherent(), fs.winsect)
        invariant ofs <= csize ==> i == 0 && fs.winsect == old(fs.winsect) && fs.win[..] == old(fs.win[..])
        decreases left
      {
        currClust := clust;
        if left <= csize {
          return;
        }
        MoreLinks(csize, |chain|, i, ofs);
        clust := FollowLink(i);
        if clust == 0 {
          left := csize;
          return;
        }
        if clust == 1 || clust >= fs.geo.maxClust {
          return false, clust, left;
        }
        fptr := fptr + csize;
        left := left - csize;
        i := i + 1;
      }
    }

    /** The end of f_lseek: the sector in the cluster. */
    method PlaceCursor(clust: nat, left: nat)
      requires fs.Shape() && 1 <= left <= fs.geo.sectsClust * 512 && InRange(fs.geo.TableOf(fs.disk.sects), clust)
      requires exists i: nat :: i < |chain| && clust == chain[i] && fptr == i * (fs.geo.sectsClust * 512)
      modifies `fptr, `currSect, `sectClust
      ensures fptr == old(fptr) + left && CursorAt(fs.geo, chain, fptr, clust, currSect, sectClust)
    {
      hide CursorAt, SectorOf, OnSector, Geometry.Valid, Geometry.TableOf, Volume.Clust2Sect;
      ghost var i: nat :| i < |chain| && clust == chain[i] && fptr == i * (fs.geo.sectsClust * 512);
      SeekCursor(fs.geo, chain, i, left);
      var csect := (left - 1) / 512;
      fs.Clust2SectExactly(clust);
      currSect := fs.Clust2Sect(clust) + csect;
      sectClust := fs.geo.sectsClust - csect;
      fptr := fptr + left;
    }

    /** f_lseek. The position becomes `ofs`, at most the file size, with the cursor where reading up to there would have
        left it. */
    method LSeek(ofs: nat) returns (res: Result)
      requires Valid()
      modifies this, fs`winsect, fs`winflag, fs.win, fs.disk
      ensures Formed() && fs.disk.sects == old(fs.disk.sects) && Bytes() == old(Bytes())
      ensures res == Ok ==> !failed && fptr == if ofs > fsize then fsize else ofs
      ensures res != Ok && !(res == RwError && !old(failed)) ==> fptr == old(fptr) && failed == old(failed)
      ensures res == RwError ==> failed && (old(failed) || fs.disk.faults > old(fs.disk.faults))
      ensures res != RwError || fs.disk.keeps ==>
                Valid() && Steady(old(fs.Coherent()), old(fs.winsect), fs.Coherent(), fs.winsect)
      ensures (fs.id != id <==> res == InvalidObject) && (old(failed) ==> res != Ok)
      ensures fs.disk.faults >= old(fs.disk.faults) && (res == NotReady ==> fs.disk.faults > old(fs.disk.faults))
      ensures fs.id == id && !old(failed) && fs.disk.faults == old(fs.disk.faults) ==> res == Ok
      ensures res != Denied && (ofs <= fs.geo.sectsClust * 512 && !old(failed) ==> res != RwError)
      ensures ofs <= fs.geo.sectsClust * 512 ==> fs.winsect == old(fs.winsect) && fs.win[..] == old(fs.win[..])
    {
      hide CursorAt, Content, SectorOf, Geometry.Valid, Geometry.TableOf, Volume.Coherent, Volume.Image;
      hide Covered;
      res := Usable(false);
      if res != Ok {
        return;
      }
      var to := ofs;
      if to > fsize {
        to := fsize;
      }
      fptr, sectClust := 0, 1;
      CursorAtStart(fs.geo, chain, currClust, currSect);
      if to != 0 {
        FirstLink();
        if orgClust != 0 {
          var ok, clust, left := SkipClusters(to);
          if !ok {
            failed := true;
            return RwError;
          }
          PlaceCursor(clust, left);
        }
      }
      return Ok;
    }
  }

  /** Where f_lseek puts the cursor: `left` bytes into the cluster of link `i`. */
  lemma SeekCursor(geo: Geometry, chain: seq<nat>, i: nat, left: nat)
    requires geo.sectsClust > 0 && i < |chain| && 1 <= left <= geo.sectsClust * 512 && chain[i] >= 2
    ensures (left - 1) / 512 < geo.sectsClust
    ensures CursorAt(geo, chain, i * (geo.sectsClust * 512) + left, chain[i],
                     (chain[i] - 2) * geo.sectsClust + geo.database + (left - 1) / 512,
                         geo.sectsClust - (left - 1) / 512)
  {
    var n := geo.sectsClust;
    var csect := (left - 1) / 512;
    assert (chain[i] - 2) * n >= 0;
    assert i * (n * 512) == 512 * (i * n);
    assert (i * (n * 512) + left - 1) / 512 == i * n + csect;
    Division(i * n + csect, n, i, csect);
  }

  /** Position `ofs` is beyond link `i`, so the chain has a link behind it. */
  lemma MoreLinks(csize: nat, links: nat, i: nat, ofs: nat)
    requires i < links && i * csize + csize < ofs <= links * csize
    ensures i + 1 < links && (i + 1) * csize == i * csize + csize
  {
    var j := i + 1;
    if j >= links {
      Monotone(links, j, csize);
    }
  }

  /** The first `br` bytes of `data` are the file's from `start` on, if it is seen right, and begin with `part`, if the
      window showed it. */
  ghost predicate ReadSo(bytes: seq<Byte>, start: nat, part: seq<Byte>, sees: bool, head: bool, br: nat,
                         data: seq<Byte>) {
    && (sees ==> start + br <= |bytes| && br <= |data| && data[..br] == bytes[start..start + br])
    && (head && br > 0 ==> |part| <= br <= |data| && data[..|part|] == part)
  }

  lemma NothingRead(bytes: seq<Byte>, start: nat, part: seq<Byte>, sees: bool, head: bool, data: seq<Byte>)
    requires start <= |bytes|
    ensures ReadSo(bytes, start, part, sees, head, 0, data)
  {
  }

  lemma ReadIs(bytes: seq<Byte>, start: nat, part: seq<Byte>, sees: bool, head: bool, br: nat, data: seq<Byte>)
    requires ReadSo(bytes, start, part, sees, head, br, data)
    ensures sees ==> start + br <= |bytes| && br <= |data| && data[..br] == bytes[start..start + br]
    ensures head && br > 0 ==> |part| <= br <= |data| && data[..|part|] == part
  {
  }

  lemma SameBegin(bytes: seq<Byte>, start: nat, part: seq<Byte>, sees: bool, head: bool, br: nat,
                  before: seq<Byte>, after: seq<Byte>)
    requires ReadSo(bytes, start, part, sees, head, br, before)
    requires br <= |before| == |after| && forall k :: 0 <= k < br ==> after[k] == before[k]
    ensures ReadSo(bytes, start, part, sees, head, br, after)
  {
    assert after[..br] == before[..br];
    if |part| <= br {
      assert after[..|part|] == before[..|part|];
    }
  }

  /** `rcnt` more bytes have come behind the first `br`. */
  lemma ReadOn(bytes: seq<Byte>, start: nat, part: seq<Byte>, sees: bool, head: bool, br: nat, rcnt: nat,
               before: seq<Byte>, after: seq<Byte>)
    requires ReadSo(bytes, start, part, sees, head, br, before) && start + br + rcnt <= |bytes|
    requires br + rcnt <= |before| == |after| && forall k :: 0 <= k < br ==> after[k] == before[k]
    requires sees ==> after[br..br + rcnt] == bytes[start + br..start + br + rcnt]
    requires head && br == 0 ==> after[..rcnt] == part
    ensures ReadSo(bytes, start, part, sees, head, br + rcnt, after)
  {
    SameBegin(bytes, start, part, sees, head, br, before, after);
    assert after[..br + rcnt] == after[..br] + after[br..br + rcnt];
  }

  /** At any position behind the start the cursor is determined: a seek and reading up to there end in the
      same state. */
  lemma CursorDetermined(f: File, g: File)
    requires f.Formed() && g.Formed() && !f.failed && !g.failed
    requires f.fs.geo == g.fs.geo && f.chain == g.chain && f.fptr == g.fptr
    ensures f.sectClust == g.sectClust
    ensures f.fptr > 0 ==> f.currClust == g.currClust && f.currSect == g.currSect
  {
  }

  /** A call for a bad sector `other` fails, and leaves the window as `shown` with the old sector's number; then reading
      the next byte of `f`, which stands in that sector, is answered Ok and delivers the window's byte. With the driver
      of the repository that is the file's byte, because the failure has not touched the window; with one that leaves
      noise there it is the noise. */
  method ReadsStale(f: File, other: nat, buff: array<Byte>) returns (res: Result, br: nat, ghost shown: seq<Byte>)
    requires f.Formed() && f.HeadShown() && f.fptr < f.fsize && buff != f.fs.win && buff.Length >= 1
    requires !f.failed && f.readable && f.id == f.fs.id
    requires other in f.fs.disk.bad && 0 < other < |f.fs.disk.sects| && other != f.fs.winsect
    requires !f.fs.geo.InFat(f.fs.winsect) && f.fs.Coherent()
    modifies f, f.fs, f.fs.win, f.fs.disk, buff
    ensures f.Formed() && f.Bytes() == old(f.Bytes()) && |shown| == 512
    ensures res == Ok || (res == NotReady && br == 0)
    ensures res == Ok ==> br == 1 && buff[0] == shown[old(f.fptr) % 512] && f.fptr == old(f.fptr) + 1 <= |f.Bytes()|
    ensures f.fs.disk.keeps ==> shown == old(f.fs.win[..]) && (res == Ok ==> buff[0] == f.Bytes()[old(f.fptr)])
    ensures res == Ok ==> (buff[0] == f.Bytes()[old(f.fptr)] <==> shown[old(f.fptr) % 512] == f.Bytes()[old(f.fptr)])
  {
    hide Volume.Coherent, Covered, Content, CursorAt, Follows, Ahead, Geometry.Valid;
    ghost var pos := f.fptr;
    var moved := f.fs.MoveWindow(other);
    assert !moved;
    shown := f.fs.win[..];
    res, br := f.Read(buff, 1);
    assert Part(shown, pos, 1) == [shown[pos % 512]];
    assert res == Ok ==> buff[..br][0] == buff[0];
  }

  /** With the latter a stale window can show the FAT. At the end of a cluster whose link begins in the sector shown,
      the next direct transfer is then from the cluster that the window names, whoever's it is. */
  method ReadsElsewhere(f: File, buff: array<Byte>) returns (ok: bool)
    requires f.Formed() && !f.failed && f.AtLink() && f.fptr % 512 == 0 && f.fptr < f.fsize && buff.Length >= 512
    requires buff != f.fs.win && f.currClust < f.fs.geo.maxClust && f.fs.winsect == f.fs.geo.EntrySector(f.currClust)
    modifies f, f.fs, f.fs.win, f.fs.disk, buff
    ensures f.fs.disk.sects == old(f.fs.disk.sects)
    ensures ok ==>
              var sect := (old(f.fs.EntrySeen(f.currClust)) - 2) * f.fs.geo.sectsClust + f.fs.geo.database;
              0 < sect < |f.fs.disk.sects| && buff[..512] == f.fs.disk.sects[sect]
  {
    hide Volume.Coherent, Volume.EntrySeen, Covered, CursorAt, Follows, Geometry.Valid;
    ok := f.NextSector();
    if ok {
      f.fs.Clust2SectExactly(f.currClust);
      ok := f.fs.disk.Read(buff, 0, f.currSect, 1);
      assert ok ==> buff[..512] == f.fs.disk.sects[f.currSect];
    }
  }

  // ------------------------------------------------------------ runs

  datatype Access = Seek(ofs: nat) | Fetch(n: nat)

  /** What one access delivers on a flat file, and where it ends. */
  function Once(bytes: seq<Byte>, pos: nat, access: Access): (r: (nat, seq<Byte>))
    requires pos <= |bytes|
    ensures r.0 <= |bytes|
  {
    match access
    case Seek(ofs) => (if ofs > |bytes| then |bytes| else ofs, [])
    case Fetch(n) => (pos + Clipped(|bytes| - pos, n), bytes[pos..pos + Clipped(|bytes| - pos, n)])
  }

  function Flat(bytes: seq<Byte>, pos: nat, run: seq<Access>): (r: (nat, seq<Byte>))
    requires pos <= |bytes|
    ensures r.0 <= |bytes|
  {
    if run == [] then (pos, [])
    else
      var (at, got) := Flat(bytes, pos, run[..|run| - 1]);
      var (next, more) := Once(bytes, at, run[|run| - 1]);
      (next, got + more)
  }

  /** `got` is what the file has from position `pos` on. */
  predicate Gets(bytes: seq<Byte>, pos: nat, got: seq<Byte>) {
    pos + |got| <= |bytes| && got == bytes[pos..pos + |got|]
  }

  method Do(f: File, access: Access) returns (res: Result, got: seq<Byte>)
    requires f.Formed() && f.Sees(0)
    modifies f, f.fs`winsect, f.fs`winflag, f.fs.win, f.fs.disk
    ensures f.Formed() && f.fs.disk.sects == old(f.fs.disk.sects) && f.Bytes() == old(f.Bytes())
    ensures res == Ok || f.fs.disk.keeps ==> f.Sees(0)
    ensures f.fs.disk.keeps && old(f.fs.Coherent()) ==> f.fs.Coherent()
    ensures old(f.fptr) <= |f.Bytes()| && Gets(f.Bytes(), old(f.fptr), got)
    ensures res == Ok ==> (f.fptr, got) == Once(f.Bytes(), old(f.fptr), access) && !f.failed && !old(f.failed)
    ensures res != Ok ==> f.failed || f.fptr == old(f.fptr)
    ensures old(f.failed) ==> f.failed
    ensures f.fs.disk.faults >= old(f.fs.disk.faults)
    ensures old(f.Granted()) && f.fs.disk.faults == old(f.fs.disk.faults) ==> res == Ok && f.Granted()
  {
    f.Positions();
    f.SeesAll();
    hide File.Formed, File.Bytes, File.SeesFor, Volume.Coherent;
    got := [];
    match access
    case Seek(ofs) =>
      res := f.LSeek(ofs);
    case Fetch(n) =>
      var buff := new Byte[n](_ => 0);
      var br;
      res, br := f.Read(buff, n);
      got := buff[..br];
  }

  /** A run of f_lseek and f_read on an open file, up to the first call that is not Ok, delivers what the flat file
      would, unless the window is stale on one of its sectors or on the FAT. `done` calls are Ok, all of them while the
      device works, and what the last one delivers besides them is right as far as it goes. */
  method Replay(f: File, run: seq<Access>) returns (res: Result, got: seq<Byte>, ghost done: nat)
    requires f.Formed() && f.Sees(0)
    modifies f, f.fs`winsect, f.fs`winflag, f.fs.win, f.fs.disk
    ensures f.Formed() && f.Bytes() == old(f.Bytes()) && (res == Ok || f.fs.disk.keeps ==> f.Sees(0))
    ensures old(f.fptr) <= |f.Bytes()| && done <= |run| && (res == Ok <==> done == |run|)
    ensures f.fs.disk.faults >= old(f.fs.disk.faults)
    ensures old(f.Granted()) && f.fs.disk.faults == old(f.fs.disk.faults) ==> res == Ok && f.Granted()
    ensures res == Ok ==> (f.fptr, got) == Flat(f.Bytes(), old(f.fptr), run)
    ensures var (pos, sofar) := Flat(f.Bytes(), old(f.fptr), run[..done]);
            sofar <= got && Gets(f.Bytes(), pos, got[|sofar|..])
  {
    f.Positions();
    hide File.Formed, File.Bytes, File.Sees, Once;
    got, done := [], 0;
    for i := 0 to |run|
      invariant f.Formed() && f.Sees(0) && f.Bytes() == old(f.Bytes()) && done == i
      invariant (f.fptr, got) == Flat(f.Bytes(), old(f.fptr), run[..i])
      invariant f.fs.disk.faults >= old(f.fs.disk.faults)
      invariant old(f.Granted()) && f.fs.disk.faults == old(f.fs.disk.faults) ==> f.Granted()
    {
      assert run[..i + 1][..i] == run[..i];
      var more;
      res, more := Do(f, run[i]);
      got := got + more;
      if res != Ok {
        return;
      }
      done := i + 1;
    }
    f.Positions();
    assert run[..|run|] == run;
    res := Ok;
  }

  // ------------------------------------------------------------ several files

  /** A call on one of several files. */
  datatype Act = Act(file: nat, access: Access)

  /** The calls on file `w` that were answered Ok, */
  function Served(run: seq<Act>, results: seq<Result>, w: nat): seq<Access>
    requires |results| == |run|
  {
    if run == [] then []
    else
      var n := |run| - 1;
      Served(run[..n], results[..n], w) + if run[n].file == w && results[n] == Ok then [run[n].access] else []
  }

  /** and what they have delivered. */
  function Collected(run: seq<Act>, results: seq<Result>, gots: seq<seq<Byte>>, w: nat): seq<Byte>
    requires |results| == |gots| == |run|
  {
    if run == [] then []
    else
      var n := |run| - 1;
      Collected(run[..n], results[..n], gots[..n], w) + if run[n].file == w && results[n] == Ok then gots[n] else []
  }

  /** File `w`, now at `pos`, has behaved as a flat file in its calls. */
  ghost predicate Flatly(bytes: seq<Byte>, start: nat, run: seq<Act>, results: seq<Result>, gots: seq<seq<Byte>>,
                         w: nat, pos: nat, failed: bool)
  {
    && |results| == |gots| == |run| && start <= |bytes|
    && var (at, got) := Flat(bytes, start, Served(run, results, w));
       Collected(run, results, gots, w) == got && (failed || pos == at)
  }

  /** How a call moves a file: by the call if it is `ours` and Ok, else not at all, unless it fails. */
  predicate Moves(bytes: seq<Byte>, ours: bool, pos: nat, failed: bool, access: Access, got: seq<Byte>, pos': nat,
                  failed': bool)
  {
    pos <= |bytes| && if ours then !failed && !failed' && (pos', got) == Once(bytes, pos, access)
                      else failed' || (pos' == pos && failed' == failed)
  }

  lemma FlatlyOn(bytes: seq<Byte>, start: nat, run: seq<Act>, results: seq<Result>, gots: seq<seq<Byte>>, w: nat,
                 pos: nat, failed: bool, act: Act, res: Result, got: seq<Byte>, pos': nat, failed': bool)
    requires Flatly(bytes, start, run, results, gots, w, pos, failed)
    requires Moves(bytes, act.file == w && res == Ok, pos, failed, act.access, got, pos', failed')
    ensures Flatly(bytes, start, run + [act], results + [res], gots + [got], w, pos', failed')
  {
    hide Once;
    assert (run + [act])[..|run|] == run && (results + [res])[..|run|] == results && (gots + [got])[..|run|] == gots;
    var served := Served(run, results, w);
    if act.file == w && res == Ok {
      assert (served + [act.access])[..|served|] == served;
    } else {
      assert served + [] == served;
    }
  }

  lemma FlatlyNow(bytes: seq<Byte>, pos: nat, w: nat, failed: bool)
    requires pos <= |bytes|
    ensures Flatly(bytes, pos, [], [], [], w, pos, failed)
  {
  }

  /** One of them. */
  method ServeOne(v: Volume, files: seq<File>, act: Act, ghost sects: seq<Sector>)
    returns (res: Result, got: seq<Byte>)
    requires v.disk.keeps && v.Shape() && !v.winflag && v.Coherent() && v.disk.sects == sects
    requires forall j, k :: 0 <= j < k < |files| ==> files[j] != files[k]
    requires (forall f :: f in files ==> f.fs == v && f.Fits(sects)) && act.file < |files|
    modifies files, v`winsect, v`winflag, v.win, v.disk
    ensures v.Coherent() && v.Shape() && !v.winflag && v.disk.sects == sects
    ensures (forall f :: f in files ==> f.Fits(sects)) && v.disk.faults >= old(v.disk.faults)
    ensures v.disk.faults == old(v.disk.faults) && (forall f :: f in files ==> old(f.Granted())) ==>
              res == Ok && forall f :: f in files ==> f.Granted()
    ensures forall w :: 0 <= w < |files| ==>
              Moves(files[w].On(sects), act.file == w && res == Ok, old(files[w].fptr), old(files[w].failed),
                    act.access, got, files[w].fptr, files[w].failed)
  {
    hide *;
    var f := files[act.file];
    f.FormedIs();
    f.Coherently();
    res, got := Do(f, act.access);
    f.FormedIs();
    forall w | 0 <= w < |files|
      ensures Moves(files[w].On(sects), act.file == w && res == Ok, old(files[w].fptr), old(files[w].failed),
                    act.access, got, files[w].fptr, files[w].failed)
    {
      files[w].FitsIn(sects);
      if w == act.file {
        MovesBy(f.On(sects), old(f.fptr), old(f.failed), res == Ok, act.access, got, f.fptr, f.failed);
      } else {
        MovesNot(files[w].On(sects), files[w].fptr, files[w].failed, act.access, got);
      }
    }
  }

  lemma MovesBy(bytes: seq<Byte>, pos: nat, failed: bool, ok: bool, access: Access, got: seq<Byte>, pos': nat,
                failed': bool)
    requires pos <= |bytes| && (ok ==> !failed && !failed' && (pos', got) == Once(bytes, pos, access))
    requires !ok ==> failed' || (pos' == pos && failed' == failed)
    ensures Moves(bytes, ok, pos, failed, access, got, pos', failed')
  {
  }

  lemma MovesNot(bytes: seq<Byte>, pos: nat, failed: bool, access: Access, got: seq<Byte>)
    requires pos <= |bytes|
    ensures Moves(bytes, false, pos, failed, access, got, pos, failed)
  {
  }

  /** Any run of calls on any number of open files, faults and all: as long as a failed read leaves the window alone,
      each file behaves as a flat file in its calls that are answered Ok. */
  method Serve(v: Volume, files: seq<File>, run: seq<Act>) returns (results: seq<Result>, gots: seq<seq<Byte>>)
    requires v.disk.keeps && v.Shape() && !v.winflag && v.Coherent()
    requires forall j, k :: 0 <= j < k < |files| ==> files[j] != files[k]
    requires forall f :: f in files ==> f.fs == v && f.Formed()
    requires forall act :: act in run ==> act.file < |files|
    modifies files, v`winsect, v`winflag, v.win, v.disk
    ensures v.Coherent() && forall f :: f in files ==> f.Formed() && f.Bytes() == old(f.Bytes())
    ensures |results| == |gots| == |run|
    ensures v.disk.faults == old(v.disk.faults) && (forall f :: f in files ==> old(f.Granted())) ==>
              forall i :: 0 <= i < |results| ==> results[i] == Ok
    ensures forall w :: 0 <= w < |files| ==>
              Flatly(files[w].Bytes(), old(files[w].fptr), run, results, gots, w, files[w].fptr, files[w].failed)
  {
    hide *;
    results, gots := [], [];
    ghost var sects, all := v.disk.sects, forall f :: f in files ==> f.Granted();
    forall w | 0 <= w < |files|
      ensures files[w].Fits(sects) && files[w].Bytes() == files[w].On(sects)
      ensures Flatly(files[w].On(sects), files[w].fptr, [], [], [], w, files[w].fptr, files[w].failed)
    {
      files[w].FormedIs();
      FlatlyNow(files[w].On(sects), files[w].fptr, w, files[w].failed);
    }
    assert run[..0] == [];
    assert forall f :: f in files ==> exists w :: 0 <= w < |files| && files[w] == f;
    for i := 0 to |run|
      invariant v.Coherent() && v.Shape() && !v.winflag && v.disk.sects == sects && |results| == |gots| == i
      invariant forall f :: f in files ==> f.Fits(sects)
      invariant v.disk.faults >= old(v.disk.faults)
      invariant v.disk.faults == old(v.disk.faults) && all ==>
                  (forall f :: f in files ==> f.Granted()) && forall j :: 0 <= j < i ==> results[j] == Ok
      invariant forall w :: 0 <= w < |files| ==>
                  Flatly(files[w].On(sects), old(files[w].fptr), run[..i], results, gots, w,
                         files[w].fptr, files[w].failed)
    {
      label L:
      var res, got := ServeOne(v, files, run[i], sects);
      forall w | 0 <= w < |files|
        ensures Flatly(files[w].On(sects), old(files[w].fptr), run[..i] + [run[i]], results + [res], gots + [got], w,
                       files[w].fptr, files[w].failed)
      {
        FlatlyOn(files[w].On(sects), old(files[w].fptr), run[..i], results, gots, w, old@L(files[w].fptr),
                 old@L(files[w].failed), run[i], res, got, files[w].fptr, files[w].failed);
      }
      results, gots := results + [res], gots + [got];
      assert run[..i + 1] == run[..i] + [run[i]];
    }
    assert run[..|run|] == run;
    forall w | 0 <= w < |files| ensures files[w].Formed() && files[w].Bytes() == files[w].On(sects) {
      files[w].FormedIs();
    }
  }
}
