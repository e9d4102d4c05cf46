/** f_write_inplace of tff.c: the loop of f_read with the direct transfers turned round. Only they write; the parts of
    sectors before and behind them are still copied into the caller's buffer. And they bypass the window. */
module FatInplace {
  import opened Storage
  import opened FatTable
  import opened FatVolume
  import opened FatFile

  /** No cluster occurs twice. */
  ghost predicate Distinct(chain: seq<nat>) {
    forall i, j :: 0 <= i < j < |chain| ==> chain[i] != chain[j]
  }

  lemma Recomposed(q: nat, n: nat)
    requires n > 0
    ensures q == q / n * n + q % n
  {
  }

  /** Different sectors of a file lie in different places. */
  lemma SectorsDiffer(geo: Geometry, chain: seq<nat>, q: nat, r: nat)
    requires geo.sectsClust > 0 && q / geo.sectsClust < |chain| && r / geo.sectsClust < |chain| && Distinct(chain)
    requires chain[q / geo.sectsClust] >= 2 && chain[r / geo.sectsClust] >= 2
    requires SectorOf(geo, chain, q) == SectorOf(geo, chain, r)
    ensures q == r
  {
    var n := geo.sectsClust;
    var a: nat, b: nat := chain[q / n] - 2, chain[r / n] - 2;
    assert a * n + q % n == b * n + r % n;
    hide SectorOf;
    SameQuotient(a, b, n, q % n, r % n);
    Recomposed(q, n);
    Recomposed(r, n);
  }

  function Spliced(bytes: seq<Byte>, at: nat, data: seq<Byte>): (r: seq<Byte>)
    requires at + |data| <= |bytes|
    ensures |r| == |bytes|
  {
    bytes[..at] + data + bytes[at + |data|..]
  }

  lemma SplicedAt(bytes: seq<Byte>, at: nat, data: seq<Byte>, k: nat)
    requires at + |data| <= |bytes| && k < |bytes|
    ensures Spliced(bytes, at, data)[k] == if at <= k < at + |data| then data[k - at] else bytes[k]
  {
  }


  /** `after` is `before` with the sectors from `s` on replaced by those of `data`. */
  ghost predicate Replaced(before: seq<Sector>, after: seq<Sector>, s: nat, data: seq<Byte>) {
    && |before| == |after| && |data| % 512 == 0 && s + |data| / 512 <= |before|
    && (forall k: nat :: k < |after| && !(s <= k < s + |data| / 512) ==> after[k] == before[k])
    && (forall j: nat :: j < |data| ==> after[s + j / 512][j % 512] == data[j])
  }

  /** The bytes of a replaced stretch, */
  lemma ByteInside(geo: Geometry, after: seq<Sector>, chain: seq<nat>, size: nat, from: nat, data: seq<Byte>, j: nat)
    requires Covered(geo, after, chain, size) && from % 512 == 0 && |data| % 512 == 0 && from + |data| <= size
    requires j < |data|
    requires from / 512 % geo.sectsClust + |data| / 512 <= geo.sectsClust && OnDisk(geo, |after|, chain, from / 512)
    requires SectorOf(geo, chain, from / 512) + |data| / 512 <= |after|
    requires forall i: nat :: i < |data| ==> after[SectorOf(geo, chain, from / 512) + i / 512][i % 512] == data[i]
    ensures Content(geo, after, chain, size)[from + j] == data[j]
  {
    hide SectorOf, Covered, Content;
    StretchBytes(geo, after, chain, size, from, |data| / 512, j);
  }

  /** and those of any other sector. */
  lemma ByteOutside(geo: Geometry, before: seq<Sector>, after: seq<Sector>, chain: seq<nat>, size: nat, from: nat,
                    data: seq<Byte>, k: nat)
    requires Covered(geo, before, chain, size) && Covered(geo, after, chain, size)
    requires Distinct(chain) && (forall c :: c in chain ==> c >= 2)
    requires OnDisk(geo, |before|, chain, from / 512) && from / 512 % geo.sectsClust + |data| / 512 <= geo.sectsClust
    requires Replaced(before, after, SectorOf(geo, chain, from / 512), data)
    requires k < size && !(from / 512 <= k / 512 < from / 512 + |data| / 512)
    ensures Content(geo, after, chain, size)[k] == Content(geo, before, chain, size)[k]
  {
    hide SectorOf, Covered, Replaced, Distinct;
    assert 512 * (k / 512) <= k;
    Reaches(geo, before, chain, size, k / 512);
    NotInside(geo, |before|, chain, from / 512, |data| / 512, k / 512);
    Untouched(before, after, SectorOf(geo, chain, from / 512), data, SectorOf(geo, chain, k / 512));
  }

  lemma Reaches(geo: Geometry, img: seq<Sector>, chain: seq<nat>, size: nat, q: nat)
    requires Covered(geo, img, chain, size) && 512 * q < size
    ensures OnDisk(geo, |img|, chain, q)
  {
  }

  lemma Untouched(before: seq<Sector>, after: seq<Sector>, s: nat, data: seq<Byte>, t: nat)
    requires Replaced(before, after, s, data) && t < |before| && !(s <= t < s + |data| / 512)
    ensures after[t] == before[t]
  {
  }

  /** A sector of the file outside a stretch in one cluster does not lie among the stretch's sectors. */
  lemma NotInside(geo: Geometry, nsects: nat, chain: seq<nat>, q: nat, count: nat, r: nat)
    requires OnDisk(geo, nsects, chain, q) && OnDisk(geo, nsects, chain, r) && Distinct(chain)
    requires (forall c :: c in chain ==> c >= 2)
    requires q % geo.sectsClust + count <= geo.sectsClust && !(q <= r < q + count)
    ensures !(SectorOf(geo, chain, q) <= SectorOf(geo, chain, r) < SectorOf(geo, chain, q) + count)
  {
    hide SectorOf, Distinct;
    if SectorOf(geo, chain, q) <= SectorOf(geo, chain, r) < SectorOf(geo, chain, q) + count {
      SameOne(geo, nsects, chain, q, SectorOf(geo, chain, r) - SectorOf(geo, chain, q), r);
    }
  }

  lemma SameOne(geo: Geometry, nsects: nat, chain: seq<nat>, q: nat, i: nat, r: nat)
    requires OnDisk(geo, nsects, chain, q) && OnDisk(geo, nsects, chain, r) && Distinct(chain)
    requires (forall c :: c in chain ==> c >= 2)
    requires q % geo.sectsClust + i < geo.sectsClust && SectorOf(geo, chain, r) == SectorOf(geo, chain, q) + i
    ensures r == q + i
  {
    hide SectorOf, Distinct;
    NextTo(geo, chain, q, i);
    assert chain[q / geo.sectsClust] in chain && chain[r / geo.sectsClust] in chain;
    SectorsDiffer(geo, chain, r, q + i);
  }

  lemma NextTo(geo: Geometry, chain: seq<nat>, q: nat, i: nat)
    requires geo.sectsClust > 0 && q / geo.sectsClust < |chain| && q % geo.sectsClust + i < geo.sectsClust
    ensures (q + i) / geo.sectsClust == q / geo.sectsClust && SectorOf(geo, chain, q + i) == SectorOf(geo, chain, q) + i
  {
    SameCluster(geo.sectsClust, q, i);
  }

  lemma SameCover(geo: Geometry, before: seq<Sector>, after: seq<Sector>, chain: seq<nat>, size: nat)
    requires Covered(geo, before, chain, size) && |after| == |before|
    ensures Covered(geo, after, chain, size)
  {
    forall q: nat | 512 * q < size ensures OnDisk(geo, |after|, chain, q) {
      assert OnDisk(geo, |before|, chain, q);
    }
  }

  /** So the file is spliced, whatever lies between its clusters on the device. */
  lemma ContentAfter(geo: Geometry, before: seq<Sector>, after: seq<Sector>, chain: seq<nat>, size: nat, from: nat,
                     data: seq<Byte>)
    requires Covered(geo, before, chain, size) && Distinct(chain) && (forall c :: c in chain ==> c >= 2)
    requires from % 512 == 0 && |data| % 512 == 0 && from + |data| <= size && |data| > 0
    requires from / 512 % geo.sectsClust + |data| / 512 <= geo.sectsClust && OnDisk(geo, |before|, chain, from / 512)
    requires Replaced(before, after, SectorOf(geo, chain, from / 512), data)
    ensures Covered(geo, after, chain, size)
    ensures Content(geo, after, chain, size) == Spliced(Content(geo, before, chain, size), from, data)
  {
    SameCover(geo, before, after, chain, size);
    ReplacedInside(before, after, SectorOf(geo, chain, from / 512), data);
    hide SectorOf, Distinct, ByteOf, Covered, Content, Replaced, Spliced;
    forall k | 0 <= k < size
      ensures Content(geo, after, chain, size)[k] == Spliced(Content(geo, before, chain, size), from, data)[k]
    {
      SplicedAt(Content(geo, before, chain, size), from, data, k);
      if from <= k < from + |data| {
        ByteInside(geo, after, chain, size, from, data, k - from);
      } else {
        SectorsOutside(from, |data|, k);
        ByteOutside(geo, before, after, chain, size, from, data, k);
      }
    }
  }

  lemma ReplacedInside(before: seq<Sector>, after: seq<Sector>, s: nat, data: seq<Byte>)
    requires Replaced(before, after, s, data)
    ensures |before| == |after| && s + |data| / 512 <= |after|
    ensures forall j: nat :: j < |data| ==> after[s + j / 512][j % 512] == data[j]
  {
  }

  lemma SectorsOutside(from: nat, n: nat, k: nat)
    requires from % 512 == 0 && n % 512 == 0 && !(from <= k < from + n)
    ensures !(from / 512 <= k / 512 < from / 512 + n / 512)
  {
  }

  // ------------------------------------------------------------ what a direct write leaves alone

  /** The FAT lies before the data. */
  lemma TableBelow(geo: Geometry, a: seq<Sector>, b: seq<Sector>)
    requires geo.Valid(|a|) && |a| == |b| && forall s: nat :: s < geo.database && s < |a| ==> a[s] == b[s]
    ensures geo.TableOf(a) == geo.TableOf(b)
  {
    geo.FatFits(|a|);
    assert forall k: nat :: k < 512 * geo.sectsFat ==> geo.FatByte(a, k) == geo.FatByte(b, k);
  }

  /** What `cc` sectors hold. */
  ghost function ReadBack(sects: seq<Sector>, s: nat, cc: nat): (data: seq<Byte>)
    requires s + cc <= |sects|
    ensures |data| == 512 * cc
  {
    seq(512 * cc, j requires 0 <= j < 512 * cc => sects[s + j / 512][j % 512])
  }

  lemma ReplacedBy(before: seq<Sector>, after: seq<Sector>, s: nat, cc: nat)
    requires |before| == |after| && s + cc <= |after|
    requires forall k: nat :: k < |after| && !(s <= k < s + cc) ==> after[k] == before[k]
    ensures Replaced(before, after, s, ReadBack(after, s, cc))
  {
  }

  lemma WrittenIs(after: seq<Sector>, s: nat, cc: nat, buff: seq<Byte>, at: nat)
    requires s + cc <= |after| && at + 512 * cc <= |buff|
    requires forall k :: s <= k < s + cc ==> after[k] == Slice(buff, at, k - s)
    ensures ReadBack(after, s, cc) == buff[at..at + 512 * cc]
  {
    forall j | 0 <= j < 512 * cc ensures ReadBack(after, s, cc)[j] == buff[at + j] {
      assert after[s + j / 512] == Slice(buff, at, j / 512);
      assert at + j == at + 512 * (j / 512) + j % 512;
    }
  }

  // ------------------------------------------------------------ what becomes of the window

  lemma ClustersAreData(t: Table, org: nat, chain: seq<nat>)
    requires Follows(t, org, chain)
    ensures forall c :: c in chain ==> c >= 2
  {
  }

  /** A stretch of the file's sectors lies in the data area. */
  lemma StretchInData(geo: Geometry, sects: seq<Sector>, org: nat, chain: seq<nat>, size: nat, q: nat, cc: nat)
    requires geo.Valid(|sects|) && Follows(geo.TableOf(sects), org, chain) && Covered(geo, sects, chain, size)
    requires cc >= 1 && 512 * (q + cc) <= size && OnDisk(geo, |sects|, chain, q)
    requires q % geo.sectsClust + cc <= geo.sectsClust
    ensures 0 < geo.database <= SectorOf(geo, chain, q) && SectorOf(geo, chain, q) + cc <= |sects|
    ensures geo.fatbase + geo.sectsFat <= geo.database
  {
    geo.FatFits(|sects|);
    SectorOnDisk(geo, |sects|, geo.TableOf(sects), org, chain, q);
    var last := q + cc - 1;
    NextTo(geo, chain, q, cc - 1);
    Reaches(geo, sects, chain, size, last);
  }

  /** A sector of a stretch of the file is none of the file's sectors behind it. */
  lemma BehindStretch(geo: Geometry, nsects: nat, chain: seq<nat>, size: nat, q: nat, cc: nat, s: nat)
    requires OnDisk(geo, nsects, chain, q) && Distinct(chain) && (forall c :: c in chain ==> c >= 2)
    requires q % geo.sectsClust + cc <= geo.sectsClust && SectorOf(geo, chain, q) <= s < SectorOf(geo, chain, q) + cc
    ensures Ahead(geo, nsects, chain, size, q + cc, s)
  {
    hide SectorOf, Distinct;
    forall r: nat | q + cc <= r && 512 * r < size && OnDisk(geo, nsects, chain, r)
      ensures SectorOf(geo, chain, r) != s
    {
      NotInside(geo, nsects, chain, q, cc, r);
    }
  }

  /** From sector number `from` on the window is seen as well as before. */
  ghost predicate StillSees(f: File, right: bool, s: nat, right': bool, s': nat, nsects: nat, from: nat) {
    forall g: nat :: from <= g && f.SeesAt(right, s, nsects, g) ==> f.SeesAt(right', s', nsects, g)
  }

  lemma SteadySees(f: File, right: bool, s: nat, right': bool, s': nat, nsects: nat, from: nat)
    requires Steady(right, s, right', s')
    ensures StillSees(f, right, s, right', s', nsects, from)
  {
  }

  lemma SeesOn(f: File, right: bool, s: nat, right': bool, s': nat, right'': bool, s'': nat, nsects: nat, from: nat,
               to: nat)
    requires StillSees(f, right, s, right', s', nsects, from) && StillSees(f, right', s', right'', s'', nsects, to)
    requires from <= to
    ensures StillSees(f, right, s, right'', s'', nsects, to)
  {
    hide File.SeesAt;
  }

  /** A window right for the rest of a transfer stays right for it while whole sectors are written. */
  lemma EnoughAfterWrite(f: File, right: bool, s: nat, right': bool, s': nat, nsects: nat, p: nat, n: nat, r: nat)
    requires StillSees(f, right, s, right', s', nsects, (p + r) / 512) && f.Enough(right, s, nsects, p, n)
    requires p % 512 == 0 && r % 512 == 0 && r <= n
    ensures f.Enough(right', s', nsects, p + r, n - r)
  {
    WholeStep(p, n, r);
    FirstBehind(p + r, n - r);
    hide File.SeesAt, FirstCopied;
  }

  lemma FirstBehind(p: nat, n: nat)
    ensures p / 512 <= FirstCopied(p, n)
  {
  }

  /** Whether the window shows its sector right after `cc` sectors of `data` from `at` on have been written
      at `sect`. */
  ghost predicate RightAfter(right: bool, winsect: nat, win: seq<Byte>, sect: nat, cc: nat, data: seq<Byte>, at: nat)
    requires at + 512 * cc <= |data|
  {
    if sect <= winsect < sect + cc then win == Slice(data, at, winsect - sect) else right
  }

  lemma BehindSees(f: File, right: bool, right': bool, nsects: nat, s: nat, from: nat)
    requires !f.fs.geo.InFat(s) && Ahead(f.fs.geo, nsects, f.chain, f.fsize, from, s)
    ensures StillSees(f, right, s, right', s, nsects, from)
  {
  }

  /** The file and the table after sectors `q` to `q + cc` of the file have been overwritten. */
  lemma FileAfter(geo: Geometry, before: seq<Sector>, after: seq<Sector>, org: nat, chain: seq<nat>, size: nat,
                  from: nat, cc: nat)
    requires geo.Valid(|before|) && |after| == |before| && Follows(geo.TableOf(before), org, chain)
    requires Covered(geo, before, chain, size) && Distinct(chain)
    requires from % 512 == 0 && cc >= 1 && from + 512 * cc <= size && OnDisk(geo, |before|, chain, from / 512)
    requires from / 512 % geo.sectsClust + cc <= geo.sectsClust
    requires SectorOf(geo, chain, from / 512) >= 0
    requires forall k: nat ::
               k < |after| && !(SectorOf(geo, chain, from / 512) <= k < SectorOf(geo, chain, from / 512) + cc) ==>
                   after[k] == before[k]
    ensures geo.TableOf(after) == geo.TableOf(before) && Covered(geo, after, chain, size)
    ensures SectorOf(geo, chain, from / 512) + cc <= |after|
    ensures Content(geo, after, chain, size)
         == Spliced(Content(geo, before, chain, size), from, ReadBack(after, SectorOf(geo, chain, from / 512), cc))
  {
    hide SectorOf, Covered, Content, Distinct, Replaced, Spliced, ReadBack, Follows, Geometry.Valid, Geometry.TableOf;
    var s := SectorOf(geo, chain, from / 512);
    StretchInData(geo, before, org, chain, size, from / 512, cc);
    ReplacedBy(before, after, s, cc);
    ClustersAreData(geo.TableOf(before), org, chain);
    ContentAfter(geo, before, after, chain, size, from, ReadBack(after, s, cc));
    TableBelow(geo, before, after);
  }

  /** And what the file can still see of itself through the window. */
  lemma WindowAfter(f: File, sects: seq<Sector>, right: bool, right': bool, winsect: nat, q: nat, cc: nat)
    requires f.fs.geo.Valid(|sects|) && Follows(f.fs.geo.TableOf(sects), f.orgClust, f.chain)
    requires Covered(f.fs.geo, sects, f.chain, f.fsize) && Distinct(f.chain)
    requires cc >= 1 && 512 * (q + cc) <= f.fsize && OnDisk(f.fs.geo, |sects|, f.chain, q)
    requires q % f.fs.geo.sectsClust + cc <= f.fs.geo.sectsClust
    requires right' == right || SectorOf(f.fs.geo, f.chain, q) <= winsect < SectorOf(f.fs.geo, f.chain, q) + cc
    ensures StillSees(f, right, winsect, right', winsect, |sects|, q + cc)
    ensures right' == right || !f.fs.geo.InFat(winsect)
  {
    hide SectorOf, Covered, Distinct, Follows, Ahead, StillSees, Geometry.Valid, Geometry.TableOf;
    if right' == right {
      SteadySees(f, right, winsect, right', winsect, |sects|, q + cc);
    } else {
      StretchInData(f.fs.geo, sects, f.orgClust, f.chain, f.fsize, q, cc);
      ClustersAreData(f.fs.geo.TableOf(sects), f.orgClust, f.chain);
      BehindStretch(f.fs.geo, |sects|, f.chain, f.fsize, q, cc, winsect);
      BehindSees(f, right, right', |sects|, winsect, q + cc);
    }
  }

  // ------------------------------------------------------------ the operation

  /** A direct write, past the window. */
  method WritePast(fs: Volume, buff: array<Byte>, at: nat, sector: nat, cc: nat) returns (ok: bool)
    requires fs.Shape() && !fs.winflag && cc >= 1 && at + 512 * cc <= buff.Length && sector > 0
    modifies fs.disk
    ensures fs.Shape() && |fs.disk.sects| == |old(fs.disk.sects)|
    ensures fs.disk.faults >= old(fs.disk.faults) && (!ok ==> fs.disk.faults > old(fs.disk.faults))
    ensures ok ==> sector + cc <= |fs.disk.sects|
    ensures ok ==> forall k :: sector <= k < sector + cc ==> fs.disk.sects[k] == Slice(buff[..], at, k - sector)
    ensures forall k: nat :: k < |fs.disk.sects| && !(sector <= k < sector + cc) ==>
              fs.disk.sects[k] == old(fs.disk.sects)[k]
    ensures ok ==> (fs.Coherent() <==> RightAfter(old(fs.Coherent()), fs.winsect, fs.win[..], sector, cc, buff[..], at))
    ensures !(sector <= fs.winsect < sector + cc) ==> fs.Coherent() == old(fs.Coherent())
  {
    ok := fs.disk.Write(buff, at, sector, cc);
  }

  /** disk_write in place of the direct disk_read: as many sectors as the cluster has, from the cursor's on. The window
      is right afterwards if and only if it shows another sector and was right, or it shows what was written anyway. */
  method WriteSectors(f: File, buff: array<Byte>, at: nat, btr: nat)
    returns (ok: bool, rcnt: nat, ghost written: seq<Byte>)
    requires f.fs.Shape() && !f.fs.winflag && f.Positioned() && f.fptr % 512 == 0 && btr >= 512
    requires Follows(f.fs.geo.TableOf(f.fs.disk.sects), f.orgClust, f.chain)
    requires Covered(f.fs.geo, f.fs.disk.sects, f.chain, f.fsize)
    requires Distinct(f.chain) && f.fptr + btr <= f.fsize && at + btr <= buff.Length && buff != f.fs.win
    modifies f`sectClust, f`currSect, f.fs.disk
    ensures f.fs.Shape() && !f.fs.winflag && |f.fs.disk.sects| == |old(f.fs.disk.sects)|
    ensures f.fs.disk.faults >= old(f.fs.disk.faults) && (!ok ==> f.fs.disk.faults > old(f.fs.disk.faults))
    ensures f.fs.geo.TableOf(f.fs.disk.sects) == f.fs.geo.TableOf(old(f.fs.disk.sects))
    ensures Covered(f.fs.geo, f.fs.disk.sects, f.chain, f.fsize)
    ensures 512 <= rcnt <= btr && rcnt % 512 == 0 && |written| == rcnt
    ensures Content(f.fs.geo, f.fs.disk.sects, f.chain, f.fsize)
         == Spliced(Content(f.fs.geo, old(f.fs.disk.sects), f.chain, f.fsize), f.fptr, written)
    ensures ok ==> written == buff[at..at + rcnt]
    ensures ok ==> CursorAt(f.fs.geo, f.chain, f.fptr + rcnt, f.currClust, f.currSect, f.sectClust)
    ensures ok ==> (f.fs.Coherent() <==>
                    RightAfter(old(f.fs.Coherent()), f.fs.winsect, f.fs.win[..], old(f.currSect), rcnt / 512,
                               buff[..], at))
    ensures old(f.FatSeen()) ==> f.FatSeen()
    ensures StillSees(f, old(f.fs.Coherent()), f.fs.winsect, f.fs.Coherent(), f.fs.winsect, |f.fs.disk.sects|,
                      (f.fptr + rcnt) / 512)
  {
    hide SectorOf, Covered, OnSector, CursorAt, Content, Distinct, Spliced, ReadBack, Follows, Ahead;
    hide OnDisk, StillSees, RightAfter, Geometry.Valid, Geometry.TableOf, Geometry.InFat, Volume.Coherent;
    ghost var before, q, sect := f.fs.disk.sects, f.fptr / 512, f.currSect;
    f.SectorThere();
    var cc := Contiguous(btr, f.sectClust);
    f.StretchFits(q, cc, f.sectClust);
    rcnt := cc * 512;
    assert 512 * (q + cc) == f.fptr + rcnt && rcnt / 512 == cc;
    StretchInData(f.fs.geo, before, f.orgClust, f.chain, f.fsize, q, cc);
    ok := WritePast(f.fs, buff, at, f.currSect, cc);
    written := ReadBack(f.fs.disk.sects, sect, cc);
    FileAfter(f.fs.geo, before, f.fs.disk.sects, f.orgClust, f.chain, f.fsize, f.fptr, cc);
    WindowAfter(f, before, old(f.fs.Coherent()), f.fs.Coherent(), f.fs.winsect, q, cc);
    if ok {
      WrittenIs(f.fs.disk.sects, sect, cc, buff[..], at);
      f.Moved(cc);
      f.sectClust := f.sectClust - (cc - 1);
      f.currSect := f.currSect + (cc - 1);
    }
  }


  // The parts of `n` bytes at position `p`: a head up to the first sector boundary, a body of whole sectors, and a
  // tail.

  function Head(p: nat, n: nat): (h: nat)
    ensures h <= n
  {
    if p % 512 == 0 then 0 else Fraction512(p, n)
  }

  function Body(p: nat, n: nat): (w: nat)
    ensures w % 512 == 0 && Head(p, n) + w <= n < Head(p, n) + w + 512
  {
    (n - Head(p, n)) / 512 * 512
  }

  /** How much of the body is among the first `br` bytes. */
  function Taken(p: nat, n: nat, br: nat): nat {
    if br <= Head(p, n) then 0 else if br > Head(p, n) + Body(p, n) then Body(p, n) else br - Head(p, n)
  }

  /** Where the loop can be between two rounds. */
  predicate Between(p: nat, n: nat, br: nat) {
    br == 0 || br == n || (Head(p, n) <= br <= Head(p, n) + Body(p, n) && (p + br) % 512 == 0)
  }

  /** Whether the next transfer is a direct one. */
  predicate Direct(p: nat, n: nat) {
    p % 512 == 0 && n >= 512
  }

  /** A head that is not all ends on a sector boundary. */
  lemma AfterHead(p: nat, n: nat)
    requires Head(p, n) < n
    ensures (p + Head(p, n)) % 512 == 0
  {
  }

  lemma Fits(x: nat, y: nat)
    requires x % 512 == 0 && x <= y
    ensures x <= y / 512 * 512
  {
  }

  lemma SameBoundary(p: nat, a: nat, b: nat)
    requires a <= b && (p + a) % 512 == 0 && (p + b) % 512 == 0
    ensures (b - a) % 512 == 0
  {
  }

  lemma StillBoundary(p: nat, r: nat)
    requires p % 512 == 0 && r % 512 == 0
    ensures (p + r) % 512 == 0
  {
  }

  lemma DirectStep(p: nat, n: nat, br: nat, r: nat)
    requires br < n && Between(p, n, br) && Direct(p + br, n - br) && r % 512 == 0 && r <= n - br
    ensures br == Head(p, n) + Taken(p, n, br) && Taken(p, n, br) + r <= Body(p, n)
    ensures Between(p, n, br + r) && Taken(p, n, br + r) == Taken(p, n, br) + r
  {
    var h := Head(p, n);
    if br == 0 {
      assert h == 0;
    }
    AfterHead(p, n);
    SameBoundary(p, h, br);
    StillBoundary(br - h, r);
    Fits(br - h + r, n - h);
    StillBoundary(p + br, r);
  }

  lemma CopyStep(p: nat, n: nat, br: nat)
    requires br < n && Between(p, n, br) && !Direct(p + br, n - br)
    ensures var next := br + Fraction512(p + br, n - br);
            && Between(p, n, next) && Taken(p, n, next) == Taken(p, n, br)
            && (next <= Head(p, n) || br >= Head(p, n) + Body(p, n))
  {
    if (p + br) % 512 == 0 {
      CopyTail(p, n, br);
    } else {
      assert br == 0;
      HeadOnly(p, n);
    }
  }

  lemma HeadOnly(p: nat, n: nat)
    requires p % 512 != 0
    ensures Fraction512(p, n) == Head(p, n) && Between(p, n, Head(p, n))
    ensures Taken(p, n, Head(p, n)) == Taken(p, n, 0) == 0
  {
    if Head(p, n) < n {
      AfterHead(p, n);
    }
  }

  lemma CopyTail(p: nat, n: nat, br: nat)
    requires br < n && Between(p, n, br) && (p + br) % 512 == 0 && n - br < 512
    ensures Fraction512(p + br, n - br) == n - br && br == Head(p, n) + Body(p, n)
    ensures Between(p, n, n) && Taken(p, n, n) == Taken(p, n, br)
  {
    var h := Head(p, n);
    assert br >= h;
    AfterHead(p, n);
    SameBoundary(p, h, br);
    Fits(br - h, n - h);
  }

  /** Head, body and tail: up to the next sector boundary, whole sectors, and less than one. */
  lemma PartsOfRange(p: nat, n: nat)
    ensures Head(p, n) == if p % 512 == 0 then 0 else if n < 512 - p % 512 then n else 512 - p % 512
    ensures (p + Head(p, n)) % 512 == 0 || Head(p, n) == n
    ensures Body(p, n) % 512 == 0 && Head(p, n) + Body(p, n) <= n < Head(p, n) + Body(p, n) + 512
  {
    if p % 512 != 0 && n >= 512 - p % 512 {
      assert p + (512 - p % 512) == 512 * (p / 512 + 1);
    }
  }

  /** Everything is body exactly if position and count are whole sectors; */
  lemma AllBody(p: nat, n: nat)
    ensures Body(p, n) == n <==> n == 0 || (p % 512 == 0 && n % 512 == 0)
  {
  }

  /** nothing is if no sector is covered whole: not one of 512 bytes from position 1 on. */
  lemma NoBody(p: nat, n: nat)
    ensures Body(p, n) == 0 <==> Head(p, n) + 512 > n
    ensures Head(1, 512) == 511 && Body(1, 512) == 0
  {
  }

  lemma SplicedNothing(bytes: seq<Byte>, at: nat)
    requires at <= |bytes|
    ensures Spliced(bytes, at, []) == bytes
  {
  }

  lemma SplicedOn(bytes: seq<Byte>, at: nat, a: seq<Byte>, b: seq<Byte>)
    requires at + |a| + |b| <= |bytes|
    ensures Spliced(Spliced(bytes, at, a), at + |a|, b) == Spliced(bytes, at, a + b)
  {
  }

  /** A round that writes: the sectors go from the buffer to the device. `written` is what the device holds afterwards,
      whether or not it has answered that all is well. */
  method DirectRound(f: File, buff: array<Byte>, at: nat, btr: nat) returns (rcnt: nat, ghost written: seq<Byte>)
    requires f.Valid() && Distinct(f.chain) && !f.failed && Direct(f.fptr, btr)
    requires f.fptr + btr <= f.fsize && at + btr <= buff.Length && buff != f.fs.win
    modifies f, f.fs`winsect, f.fs`winflag, f.fs.win, f.fs.disk
    ensures f.Formed() && f.fs.Tab() == old(f.fs.Tab()) && |f.fs.disk.sects| == |old(f.fs.disk.sects)|
    ensures f.fs.disk.faults >= old(f.fs.disk.faults) && (f.failed ==> f.fs.disk.faults > old(f.fs.disk.faults))
    ensures |written| <= btr && |written| % 512 == 0 && f.Bytes() == Spliced(old(f.Bytes()), old(f.fptr), written)
    ensures f.failed ==> f.fptr == old(f.fptr)
    ensures !f.failed ==> 512 <= rcnt <= btr && rcnt % 512 == 0 && f.fptr == old(f.fptr) + rcnt
    ensures !f.failed ==> written == buff[at..at + rcnt]
    ensures !f.failed || f.fs.disk.keeps ==> f.Valid()
    ensures !f.failed ==> StillSees(f, old(f.fs.Coherent()), old(f.fs.winsect), f.fs.Coherent(), f.fs.winsect,
                                    |f.fs.disk.sects|, f.fptr / 512)
    ensures old(f.fptr) == 0 ==> f.fs.winsect == old(f.fs.winsect) && f.fs.win[..] == old(f.fs.win[..])
  {
    hide SectorOf, Covered, OnSector, CursorAt, Content, Distinct, Spliced, Follows, StillSees, RightAfter;
    hide Geometry.TableOf, Geometry.Valid, Volume.Coherent;
    rcnt, written := 0, [];
    SplicedNothing(f.Bytes(), f.fptr);
    var ok := f.NextSector();
    if ok {
      ghost var right, sect := f.fs.Coherent(), f.fs.winsect;
      ok, rcnt, written := WriteSectors(f, buff, at, btr);
      SteadySees(f, old(f.fs.Coherent()), old(f.fs.winsect), right, sect, |f.fs.disk.sects|, 0);
      SeesOn(f, old(f.fs.Coherent()), old(f.fs.winsect), right, sect, f.fs.Coherent(), f.fs.winsect,
             |f.fs.disk.sects|, 0, (f.fptr + rcnt) / 512);
    }
    if ok {
      f.fptr := f.fptr + rcnt;
    } else {
      f.failed := true;
    }
  }

  /** After `br` of `n` bytes at `p` the file has `written` in the place of the body, and as much of that as counts is
      out of `data`. */
  ghost predicate WroteSo(bytes: seq<Byte>, now: seq<Byte>, p: nat, n: nat, br: nat, data: seq<Byte>,
                          written: seq<Byte>) {
    && p + n <= |bytes| && n <= |data| && Taken(p, n, br) <= |written| <= Body(p, n)
    && now == Spliced(bytes, p + Head(p, n), written)
    && written[..Taken(p, n, br)] == data[Head(p, n)..Head(p, n) + Taken(p, n, br)]
  }

  /** The body's place in the file holds `written` and the rest of the file is as it was; `all` that should be
      there is. */
  ghost predicate BodyIs(bytes: seq<Byte>, now: seq<Byte>, p: nat, n: nat, data: seq<Byte>, written: seq<Byte>,
                         all: bool) {
    && p + n <= |bytes| && n <= |data| && |written| <= Body(p, n)
    && now == Spliced(bytes, p + Head(p, n), written)
    && (all ==> written == data[Head(p, n)..Head(p, n) + Body(p, n)])
  }

  /** The buffer still has what it had, but for head and tail as far as they have come up. */
  ghost predicate Ours(p: nat, n: nat, br: nat, data: seq<Byte>, now: seq<Byte>) {
    && |now| == |data|
    && forall k :: 0 <= k < |data| && (Head(p, n) <= k < Head(p, n) + Body(p, n) || k >= br) ==> now[k] == data[k]
  }

  /** And those are the file's. */
  ghost predicate Passed(bytes: seq<Byte>, p: nat, n: nat, br: nat, now: seq<Byte>) {
    && p + n <= |bytes| && br <= n <= |now|
    && forall k :: 0 <= k < br && !(Head(p, n) <= k < Head(p, n) + Body(p, n)) ==> now[k] == bytes[p + k]
  }

  lemma NothingYet(bytes: seq<Byte>, p: nat, n: nat, data: seq<Byte>)
    requires p + n <= |bytes| && n <= |data|
    ensures WroteSo(bytes, bytes, p, n, 0, data, []) && Taken(p, n, 0) == 0 && Ours(p, n, 0, data, data)
    ensures Passed(bytes, p, n, 0, data)
    ensures Between(p, n, 0)
  {
    SplicedNothing(bytes, p + Head(p, n));
  }

  /** After a round that writes, or fails, `more` is on the device behind what was written before; */
  lemma WroteMore(bytes: seq<Byte>, now: seq<Byte>, p: nat, n: nat, br: nat, data: seq<Byte>, written: seq<Byte>,
                  more: seq<Byte>)
    requires br < n && Between(p, n, br) && Direct(p + br, n - br) && |more| % 512 == 0 && |more| <= n - br
    requires WroteSo(bytes, now, p, n, br, data, written) && |written| == Taken(p, n, br)
    ensures p + br + |more| <= |now|
    ensures WroteSo(bytes, Spliced(now, p + br, more), p, n, br, data, written + more)
    ensures |more| <= |data| - br && more == data[br..br + |more|] ==>
              WroteSo(bytes, Spliced(now, p + br, more), p, n, br + |more|, data, written + more)
    ensures |written + more| == Taken(p, n, br + |more|)
  {
    DirectStep(p, n, br, |more|);
    SplicedOn(bytes, p + Head(p, n), written, more);
    hide Head, Body, Taken, Between, Spliced, Direct;
    var h := Head(p, n);
    assert (written + more)[..|written|] == written;
    if |more| <= |data| - br && more == data[br..br + |more|] {
      assert written + more == data[h..br] + data[br..br + |more|] == data[h..br + |more|];
    }
  }

  /** the buffer has not changed, and what has come out of it is data. */
  lemma BufferAfterWrite(bytes: seq<Byte>, p: nat, n: nat, br: nat, data: seq<Byte>, r: nat, buff: seq<Byte>)
    requires br < n <= |data| && Between(p, n, br) && Direct(p + br, n - br) && r % 512 == 0 && r <= n - br
    requires Ours(p, n, br, data, buff)
    ensures br + r <= |buff| == |data| && buff[br..br + r] == data[br..br + r]
    ensures Between(p, n, br + r) && Ours(p, n, br + r, data, buff)
    ensures Passed(bytes, p, n, br, buff) ==> Passed(bytes, p, n, br + r, buff)
  {
    DirectStep(p, n, br, r);
    hide Taken, Between, Direct, Head, Body;
  }

  /** After a round that copies nothing more has been written; */
  lemma CopyDone(bytes: seq<Byte>, now: seq<Byte>, p: nat, n: nat, br: nat, data: seq<Byte>, written: seq<Byte>, r: nat,
                 before: seq<Byte>, after: seq<Byte>)
    requires br < n && Between(p, n, br) && !Direct(p + br, n - br) && r == Fraction512(p + br, n - br)
    requires WroteSo(bytes, now, p, n, br, data, written) && |before| == |after|
    requires Ours(p, n, br, data, before) && forall k :: 0 <= k < |after| && !(br <= k < br + r) ==>
               after[k] == before[k]
    ensures WroteSo(bytes, now, p, n, br + r, data, written) && Taken(p, n, br + r) == Taken(p, n, br)
    ensures Between(p, n, br + r) && Ours(p, n, br + r, data, after)
    ensures p + br + r <= |now| && br + r <= |after|
    ensures Passed(bytes, p, n, br, before) && after[br..br + r] == now[p + br..p + br + r] ==>
              Passed(bytes, p, n, br + r, after)
  {
    CopyStep(p, n, br);
    WroteLength(bytes, now, p, n, br, data, written);
    hide Head, Body, Taken, Between, Fraction512, Direct, Spliced, Passed;
    if Passed(bytes, p, n, br, before) && after[br..br + r] == now[p + br..p + br + r] {
      CopyPassed(bytes, now, p, n, br, data, written, r, before, after);
    }
  }

  lemma WroteLength(bytes: seq<Byte>, now: seq<Byte>, p: nat, n: nat, br: nat, data: seq<Byte>, written: seq<Byte>)
    requires WroteSo(bytes, now, p, n, br, data, written)
    ensures p + n <= |bytes| == |now| && n <= |data|
    ensures forall k :: 0 <= k < |now| && !(p + Head(p, n) <= k < p + Head(p, n) + Body(p, n)) ==> now[k] == bytes[k]
  {
    hide Head, Body, Taken, Spliced;
    forall k | 0 <= k < |now| && !(p + Head(p, n) <= k < p + Head(p, n) + Body(p, n)) ensures now[k] == bytes[k] {
      SplicedAt(bytes, p + Head(p, n), written, k);
    }
  }

  /** the buffer has got the file's bytes. */
  lemma CopyPassed(bytes: seq<Byte>, now: seq<Byte>, p: nat, n: nat, br: nat, data: seq<Byte>, written: seq<Byte>,
                   r: nat,
                   before: seq<Byte>, after: seq<Byte>)
    requires WroteSo(bytes, now, p, n, br, data, written) && |before| == |after| && br + r <= n && p + br + r <= |now|
    requires br + r <= Head(p, n) || br >= Head(p, n) + Body(p, n)
    requires forall k :: 0 <= k < |after| && !(br <= k < br + r) ==> after[k] == before[k]
    requires Passed(bytes, p, n, br, before) && br + r <= |after| && after[br..br + r] == now[p + br..p + br + r]
    ensures Passed(bytes, p, n, br + r, after)
  {
    WroteLength(bytes, now, p, n, br, data, written);
    hide Head, Body, WroteSo;
    forall k | br <= k < br + r ensures after[k] == bytes[p + k] {
      assert after[k] == after[br..br + r][k - br] == now[p + br..p + br + r][k - br] == now[p + k];
    }
  }

  /** One round of the loop, `br` bytes into the `n` of them. */
  method WriteRound(f: File, buff: array<Byte>, br: nat, left: nat, ghost bytes: seq<Byte>, ghost p: nat, ghost n: nat,
                    ghost data: seq<Byte>, ghost wrote: seq<Byte>) returns (rcnt: nat, ghost written: seq<Byte>)
    requires f.Valid() && Distinct(f.chain) && !f.failed && buff != f.fs.win
    requires f.fptr + left <= f.fsize && n <= buff.Length && left > 0 && br + left == n && f.fptr == p + br
    requires Between(p, n, br)
    requires WroteSo(bytes, f.Bytes(), p, n, br, data, wrote) && |wrote| == Taken(p, n, br)
    requires Ours(p, n, br, data, buff[..])
    modifies f, f.fs`winsect, f.fs`winflag, f.fs.win, f.fs.disk, buff
    ensures f.Formed() && f.fs.Tab() == old(f.fs.Tab()) && |f.fs.disk.sects| == |old(f.fs.disk.sects)|
    ensures f.fs.disk.faults >= old(f.fs.disk.faults) && (f.failed ==> f.fs.disk.faults > old(f.fs.disk.faults))
    ensures f.fptr == old(f.fptr) + rcnt && if f.failed then rcnt == 0 else 1 <= rcnt <= left
    ensures WroteSo(bytes, f.Bytes(), p, n, br + rcnt, data, written) && Ours(p, n, br + rcnt, data, buff[..])
    ensures Between(p, n, br + rcnt) && (!f.failed ==> |written| == Taken(p, n, br + rcnt))
    ensures !f.failed || f.fs.disk.keeps ==> f.Valid()
    ensures old(f.SeesFor(f.fptr, left)) && Passed(bytes, p, n, br, old(buff[..])) ==>
              Passed(bytes, p, n, br + rcnt, buff[..]) && (!f.failed ==> f.SeesFor(f.fptr, left - rcnt))
    ensures !f.failed ==> StillSees(f, old(f.fs.Coherent()), old(f.fs.winsect), f.fs.Coherent(), f.fs.winsect,
                                    |f.fs.disk.sects|, f.fptr / 512)
    ensures old(f.fptr) == 0 && left == 512 ==>
              f.fs.winsect == old(f.fs.winsect) && f.fs.win[..] == old(f.fs.win[..]) && (!f.failed ==> rcnt == 512)
  {
    hide *;
    ghost var now, pos, before, right, sect := f.Bytes(), f.fptr, buff[..], f.fs.Coherent(), f.fs.winsect;
    ghost var nsects := |f.fs.disk.sects|;
    IsDirect(pos, left);
    Sizes(f);
    SeesForIs(f, pos, left);
    written := wrote;
    if f.fptr % 512 == 0 && left >= 512 {
      ghost var more;
      rcnt, more := DirectRound(f, buff, br, left);
      WroteMore(bytes, now, p, n, br, data, written, more);
      written := written + more;
      if f.failed {
        rcnt := 0;
      }
      DataLong(bytes, now, p, n, br, data, wrote);
      BufferAfterWrite(bytes, p, n, br, data, rcnt, buff[..]);
      if !f.failed && old(f.SeesFor(f.fptr, left)) {
        EnoughAfterWrite(f, right, sect, f.fs.Coherent(), f.fs.winsect, nsects, pos, left, rcnt);
        SeesForIs(f, f.fptr, left - rcnt);
      }
    } else {
      rcnt := f.ReadRound(buff, br, left);
      Sizes(f);
      if f.failed {
        assert buff[..] == before;
      } else {
        CopyDone(bytes, now, p, n, br, data, written, rcnt, before, buff[..]);
        SteadySees(f, right, sect, f.fs.Coherent(), f.fs.winsect, nsects, f.fptr / 512);
      }
    }
  }

  lemma DataLong(bytes: seq<Byte>, now: seq<Byte>, p: nat, n: nat, br: nat, data: seq<Byte>, written: seq<Byte>)
    requires WroteSo(bytes, now, p, n, br, data, written)
    ensures n <= |data|
  {
  }

  /** The loop of f_write_inplace. */
  method WriteTransfer(f: File, buff: array<Byte>, btr: nat) returns (br: nat, ghost written: seq<Byte>)
    requires f.Valid() && Distinct(f.chain) && !f.failed
    requires f.fptr + btr <= f.fsize && btr <= buff.Length && buff != f.fs.win
    modifies f, f.fs`winsect, f.fs`winflag, f.fs.win, f.fs.disk, buff
    ensures f.Formed() && f.fs.Tab() == old(f.fs.Tab()) && f.fs.disk.faults >= old(f.fs.disk.faults)
    ensures |f.fs.disk.sects| == |old(f.fs.disk.sects)|
    ensures f.fptr == old(f.fptr) + br
    ensures if f.failed then br < btr && f.fs.disk.faults > old(f.fs.disk.faults) else br == btr
    ensures WroteSo(old(f.Bytes()), f.Bytes(), old(f.fptr), btr, br, old(buff[..]), written)
    ensures !f.failed ==> |written| == Taken(old(f.fptr), btr, btr)
    ensures Ours(old(f.fptr), btr, br, old(buff[..]), buff[..])
    ensures old(f.SeesFor(f.fptr, btr)) ==> Passed(old(f.Bytes()), old(f.fptr), btr, br, buff[..])
    ensures !f.failed || f.fs.disk.keeps ==> f.Valid()
    ensures !f.failed ==> StillSees(f, old(f.fs.Coherent()), old(f.fs.winsect), f.fs.Coherent(),
                                                   f.fs.winsect, |f.fs.disk.sects|, f.fptr / 512)
    ensures old(f.fptr) == 0 && btr == 512 ==> f.fs.winsect == old(f.fs.winsect) && f.fs.win[..] == old(f.fs.win[..])
  {
    hide *;
    br, written := 0, [];
    var left := btr;
    Sizes(f);
    ghost var bytes, p, data, sees := f.Bytes(), f.fptr, buff[..], f.SeesFor(f.fptr, btr);
    ghost var right, sect, nsects := f.fs.Coherent(), f.fs.winsect, |f.fs.disk.sects|;
    NothingYet(bytes, p, btr, data);
    StaysSteady(right, sect, right, sect, right, sect);
    SteadySees(f, right, sect, right, sect, nsects, p / 512);
    while left != 0 && !f.failed
      invariant f.Formed() && f.fs.Shape() && f.fs.Tab() == old(f.fs.Tab()) && f.fs.disk.faults >= old(f.fs.disk.faults)
      invariant |f.fs.disk.sects| == nsects && f.fptr + left <= f.fsize
      invariant br + left == btr && f.fptr == p + br && Between(p, btr, br)
      invariant f.failed ==> left != 0 && f.fs.disk.faults > old(f.fs.disk.faults)
      invariant WroteSo(bytes, f.Bytes(), p, btr, br, data, written) && (!f.failed ==> |written| == Taken(p, btr, br))
      invariant Ours(p, btr, br, data, buff[..]) && (sees ==> Passed(bytes, p, btr, br, buff[..]))
      invariant (!f.failed || f.fs.disk.keeps ==> f.FatSeen()) && (!f.failed && sees ==> f.SeesFor(f.fptr, left))
      invariant !f.failed ==> StillSees(f, right, sect, f.fs.Coherent(), f.fs.winsect, nsects, f.fptr / 512)
      invariant p == 0 && btr == 512 ==> f.fs.winsect == sect && f.fs.win[..] == old(f.fs.win[..]) && br in {0, 512}
      decreases left, !f.failed
    {
      ghost var pos, right1, sect1 := f.fptr, f.fs.Coherent(), f.fs.winsect;
      var rcnt;
      rcnt, written := WriteRound(f, buff, br, left, bytes, p, btr, data, written);
      Sizes(f);
      if !f.failed {
        SeesOn(f, right, sect, right1, sect1, f.fs.Coherent(), f.fs.winsect, nsects, pos / 512, f.fptr / 512);
      }
      br, left := br + rcnt, left - rcnt;
    }
  }

  lemma Sizes(f: File)
    requires f.Formed()
    ensures |f.Bytes()| == f.fsize && f.fs.Shape() && f.fs.geo.Valid(|f.fs.disk.sects|)
    ensures f.fs.Tab() == f.fs.geo.TableOf(f.fs.disk.sects)
  {
  }

  lemma SeesForIs(f: File, p: nat, n: nat)
    ensures f.SeesFor(p, n) <==> f.Enough(f.fs.Coherent(), f.fs.winsect, |f.fs.disk.sects|, p, n)
  {
  }

  lemma IsDirect(p: nat, n: nat)
    ensures Direct(p, n) <==> p % 512 == 0 && n >= 512
  {
  }

  /** f_write_inplace. Of the bytes asked for only those that fill whole sectors of the file are written; where the
      others should be written, in the first and the last sector, the file stays as it is and the buffer gets its
      bytes instead, and the answer is Ok all the same. After a device error the body holds something of at most
      its length. */
  method WriteInplace(f: File, buff: array<Byte>, btr: nat) returns (res: Result, br: nat, ghost written: seq<Byte>)
    requires f.Valid() && Distinct(f.chain) && buff != f.fs.win && btr <= buff.Length
    modifies f, f.fs`winsect, f.fs`winflag, f.fs.win, f.fs.disk, buff
    ensures f.Formed() && f.fs.Tab() == old(f.fs.Tab()) && |f.fs.disk.sects| == |old(f.fs.disk.sects)|
    ensures f.fptr == old(f.fptr) + br && br <= Clipped(f.fsize - old(f.fptr), btr)
    ensures BodyIs(old(f.Bytes()), f.Bytes(), old(f.fptr), Clipped(f.fsize - old(f.fptr), btr), old(buff[..]),
                   written, res == Ok)
    ensures Ours(old(f.fptr), Clipped(f.fsize - old(f.fptr), btr), br, old(buff[..]), buff[..])
    ensures old(f.SeesFor(f.fptr, Clipped(f.fsize - f.fptr, btr))) ==>
              Passed(old(f.Bytes()), old(f.fptr), Clipped(f.fsize - old(f.fptr), btr), br, buff[..])
    ensures res == Ok ==> !f.failed && br == Clipped(f.fsize - old(f.fptr), btr)
    ensures (f.fs.id != f.id <==> res == InvalidObject) && (res == Denied ==> !f.readable)
    ensures f.fs.disk.faults >= old(f.fs.disk.faults)
    ensures (res == NotReady ==> f.fs.disk.faults > old(f.fs.disk.faults)) && (old(f.failed) ==> res != Ok)
    ensures old(f.Granted()) && f.fs.disk.faults == old(f.fs.disk.faults) ==> res == Ok && f.Granted()
    ensures res != Ok && !(res == RwError && !old(f.failed)) ==> br == 0 && written == [] && f.failed == old(f.failed)
    ensures res == RwError ==> f.failed && (old(f.failed) || f.fs.disk.faults > old(f.fs.disk.faults))
    ensures res != RwError || f.fs.disk.keeps ==> f.Valid()
    ensures res != RwError ==> StillSees(f, old(f.fs.Coherent()), old(f.fs.winsect), f.fs.Coherent(),
                                                        f.fs.winsect, |f.fs.disk.sects|, f.fptr / 512)
    ensures old(f.fptr) == 0 && Clipped(f.fsize - old(f.fptr), btr) == 512 ==>
              f.fs.winsect == old(f.fs.winsect) && f.fs.win[..] == old(f.fs.win[..])
  {
    hide *;
    br, written := 0, [];
    PositionFits(f, btr);
    ghost var n := Clipped(f.fsize - f.fptr, btr);
    NothingYet(f.Bytes(), f.fptr, n, buff[..]);
    WroteIs(f.Bytes(), f.Bytes(), f.fptr, n, 0, buff[..], []);
    StaysSteady(f.fs.Coherent(), f.fs.winsect, f.fs.Coherent(), f.fs.winsect, f.fs.Coherent(), f.fs.winsect);
    SteadySees(f, f.fs.Coherent(), f.fs.winsect, f.fs.Coherent(), f.fs.winsect, |f.fs.disk.sects|, f.fptr / 512);
    res := f.Usable(true);
    if res != Ok {
      return;
    }
    var left := btr;
    var remain := f.fsize - f.fptr;
    if left > remain {
      left := remain % 0x10000;
    }
    br, written := WriteTransfer(f, buff, left);
    WroteIs(old(f.Bytes()), f.Bytes(), old(f.fptr), n, br, old(buff[..]), written);
    res := if f.failed then RwError else Ok;
  }

  lemma PositionFits(f: File, btr: nat)
    requires f.Formed()
    ensures f.fptr <= f.fsize == |f.Bytes()|
    ensures var remain := f.fsize - f.fptr;
            var n := Clipped(remain, btr);
            n <= btr && n <= remain && n == if btr > remain then remain % 0x10000 else btr
  {
  }

  lemma WroteIs(bytes: seq<Byte>, now: seq<Byte>, p: nat, n: nat, br: nat, data: seq<Byte>, written: seq<Byte>)
    requires WroteSo(bytes, now, p, n, br, data, written) && br <= n
    ensures BodyIs(bytes, now, p, n, data, written, br == n && |written| == Taken(p, n, n))
    ensures BodyIs(bytes, now, p, n, data, written, false)
  {
  }

  /** So the whole data has been written if and only if head and tail hold what the file has there already. */
  lemma WrittenWholeExactly(bytes: seq<Byte>, now: seq<Byte>, p: nat, data: seq<Byte>, written: seq<Byte>)
    requires BodyIs(bytes, now, p, |data|, data, written, true)
    ensures var h, w := Head(p, |data|), Body(p, |data|);
            now == Spliced(bytes, p, data) <==>
            data[..h] == bytes[p..p + h] && data[h + w..] == bytes[p + h + w..p + |data|]
  {
    PartsExactly(bytes, p, data, Head(p, |data|), Head(p, |data|) + Body(p, |data|));
  }

  lemma PartsExactly(bytes: seq<Byte>, p: nat, data: seq<Byte>, h: nat, t: nat)
    requires p + |data| <= |bytes| && h <= t <= |data|
    ensures Spliced(bytes, p + h, data[h..t]) == Spliced(bytes, p, data) <==>
            data[..h] == bytes[p..p + h] && data[t..] == bytes[p + t..p + |data|]
  {
    var done, meant := Spliced(bytes, p + h, data[h..t]), Spliced(bytes, p, data);
    InsideIs(bytes, p, data, h, t);
    InsideIs(bytes, p, data, 0, |data|);
    assert data[0..|data|] == data;
    hide *;
    if done == meant {
      OutsideSame(bytes, p, data, h, t, done);
    }
    if data[..h] == bytes[p..p + h] && data[t..] == bytes[p + t..p + |data|] {
      InsideSame(bytes, p, data, h, t, done, meant);
    }
  }

  /** `now` is `bytes` with part `h` to `t` of `data` put in its place from `p` on. */
  ghost predicate Inside(bytes: seq<Byte>, p: nat, data: seq<Byte>, h: nat, t: nat, now: seq<Byte>) {
    && p + |data| <= |bytes| == |now| && h <= t <= |data|
    && forall k :: 0 <= k < |bytes| ==> now[k] == if p + h <= k < p + t then data[k - p] else bytes[k]
  }

  lemma InsideIs(bytes: seq<Byte>, p: nat, data: seq<Byte>, h: nat, t: nat)
    requires p + |data| <= |bytes| && h <= t <= |data|
    ensures Inside(bytes, p, data, h, t, Spliced(bytes, p + h, data[h..t]))
  {
    forall k | 0 <= k < |bytes|
      ensures Spliced(bytes, p + h, data[h..t])[k] == if p + h <= k < p + t then data[k - p] else bytes[k]
    {
      SplicedAt(bytes, p + h, data[h..t], k);
    }
  }

  lemma OutsideSame(bytes: seq<Byte>, p: nat, data: seq<Byte>, h: nat, t: nat, now: seq<Byte>)
    requires Inside(bytes, p, data, h, t, now) && Inside(bytes, p, data, 0, |data|, now)
    ensures data[..h] == bytes[p..p + h] && data[t..] == bytes[p + t..p + |data|]
  {
    assert forall j :: 0 <= j < h ==> data[j] == now[p + j] == bytes[p + j];
    assert forall j :: t <= j < |data| ==> data[j] == now[p + j] == bytes[p + j];
  }

  lemma InsideSame(bytes: seq<Byte>, p: nat, data: seq<Byte>, h: nat, t: nat, done: seq<Byte>, meant: seq<Byte>)
    requires Inside(bytes, p, data, h, t, done) && Inside(bytes, p, data, 0, |data|, meant)
    requires data[..h] == bytes[p..p + h] && data[t..] == bytes[p + t..p + |data|]
    ensures done == meant
  {
    assert forall j :: 0 <= j < h ==> data[j] == data[..h][j] == bytes[p..p + h][j];
    assert forall j :: t <= j < |data| ==> data[j] == data[t..][j - t] == bytes[p + t..p + |data|][j - t];
  }

  lemma SplicedParts(bytes: seq<Byte>, at: nat, data: seq<Byte>, from: nat, to: nat)
    requires at + |data| <= |bytes| && from <= to <= |bytes|
    ensures from == at && to == at + |data| ==> Spliced(bytes, at, data)[from..to] == data
    ensures data == [] || to <= at || at + |data| <= from ==> Spliced(bytes, at, data)[from..to] == bytes[from..to]
  {
    forall k | 0 <= k < |bytes|
      ensures Spliced(bytes, at, data)[k] == if at <= k < at + |data| then data[k - at] else bytes[k]
    {
      SplicedAt(bytes, at, data, k);
    }
    hide Spliced;
    var now := Spliced(bytes, at, data);
    if from == at && to == at + |data| {
      assert now[from..to] == data;
    }
    if data == [] || to <= at || at + |data| <= from {
      assert now[from..to] == bytes[from..to];
    }
  }

  /** A write that is not seen. The window shows the file's first sector, rightly; a whole sector is written there, and
      all goes well; but what is read back of it then is what was there before. */
  method ReadsOld(f: File, buff: array<Byte>, out: array<Byte>) returns (res: Result)
    requires f.Formed() && !f.failed && f.readable && f.id == f.fs.id && Distinct(f.chain) && f.fptr == 0
    requires f.fsize >= 512
    requires buff != f.fs.win && out != f.fs.win && buff != out && buff.Length >= 512 && out.Length >= 1
    requires f.Shows(0) && f.fs.Coherent()
    modifies f, f.fs, f.fs.win, f.fs.disk, buff, out
    ensures f.Formed() && (res == Ok || res == NotReady || (res == RwError && f.fs.disk.faults > old(f.fs.disk.faults)))
    ensures res == Ok ==> f.Bytes() == Spliced(old(f.Bytes()), 0, old(buff[..512]))
    ensures res == Ok ==> f.fptr == 2 <= |f.Bytes()| && out[0] == old(f.Bytes())[1]
    ensures res == Ok ==> (out[0] == f.Bytes()[1] <==> old(buff[1]) == old(f.Bytes())[1])
  {
    hide *;
    ghost var bytes, data, w := f.Bytes(), buff[..], f.fs.win[..];
    FirstShown(f);
    WholeSector(bytes, data);
    Sizes(f);
    var br;
    ghost var written;
    res, br, written := WriteInplace(f, buff, 512);
    if res != Ok {
      return;
    }
    Sizes(f);
    res := f.LSeek(1);
    if res != Ok {
      return;
    }
    AtFirst(f);
    Aside(f);
    PositionFits(f, 1);
    SecondByte(w);
    res, br := f.Read(out, 1);
  }

  /** What the window shows of the first sector. */
  lemma FirstShown(f: File)
    requires f.Formed() && f.Shows(0) && f.fs.Coherent() && f.fsize >= 512
    ensures f.FatSeen() && |f.fs.win[..]| == 512 && f.fs.win[..][1] == f.Bytes()[1] && f.fs.geo.sectsClust >= 1
    ensures Clipped(f.fsize, 512) == 512 && !f.fs.geo.InFat(f.fs.winsect)
  {
    StretchInData(f.fs.geo, f.fs.disk.sects, f.orgClust, f.chain, f.fsize, 0, 1);
    Reaches(f.fs.geo, f.fs.disk.sects, f.chain, f.fsize, 0);
    assert f.Bytes()[1] == f.fs.disk.sects[SectorOf(f.fs.geo, f.chain, 0)][1];
  }

  lemma Aside(f: File)
    requires !f.fs.geo.InFat(f.fs.winsect)
    ensures f.FatSeen()
  {
  }

  lemma AtFirst(f: File)
    requires f.Formed() && !f.failed && f.fptr == 1 && f.Shows(0)
    ensures f.HeadShown()
  {
  }

  lemma SecondByte(w: seq<Byte>)
    requires |w| == 512
    ensures Fraction512(1, 1) == 1 && Part(w, 1, 1) == [w[1]]
  {
  }

  lemma WholeSector(bytes: seq<Byte>, data: seq<Byte>)
    requires |bytes| >= 512 && |data| >= 512
    ensures forall now, written :: BodyIs(bytes, now, 0, 512, data, written, true) ==>
              now == Spliced(bytes, 0, data[..512])
    ensures Spliced(bytes, 0, data[..512])[1] == data[1]
  {
  }

  /** What a window that is stale on the FAT can do to another file, with a driver that spoils it when a read fails: a
      sector written in place at the end of a cluster goes into the cluster that the window names, here link `j` of
      file `g`, which is spliced there. */
  method WritesElsewhere(f: File, g: File, j: nat, buff: array<Byte>) returns (ok: bool)
    requires f.Formed() && !f.failed && f.AtLink() && f.fptr % 512 == 0 && f.fptr + 512 <= f.fsize && buff.Length >= 512
    requires f.currClust < f.fs.geo.maxClust && f.fs.winsect == f.fs.geo.EntrySector(f.currClust) && buff != f.fs.win
    requires g != f && g.fs == f.fs && g.Formed() && Distinct(g.chain)
    requires j < |g.chain| && g.chain[j] == f.fs.EntrySeen(f.currClust)
    requires (j * g.fs.geo.sectsClust + 1) * 512 <= g.fsize
    modifies f, f.fs`winsect, f.fs`winflag, f.fs.win, f.fs.disk
    ensures ok ==> g.Formed() && (j * g.fs.geo.sectsClust + 1) * 512 <= g.fsize == |old(g.Bytes())| &&
                   g.Bytes() == Spliced(old(g.Bytes()), j * g.fs.geo.sectsClust * 512, buff[..512])
  {
    hide *;
    ghost var before, from := f.fs.disk.sects, j * g.fs.geo.sectsClust * 512;
    g.FormedIs();
    Sizes(g);
    FirstOfLink(g, before, j);
    ok := f.NextSector();
    if ok {
      ghost var sect := f.currSect;
      ok := WritePast(f.fs, buff, 0, f.currSect, 1);
      if ok {
        FileAfter(g.fs.geo, before, f.fs.disk.sects, g.orgClust, g.chain, g.fsize, from, 1);
        WrittenIs(f.fs.disk.sects, sect, 1, buff[..], 0);
        assert buff[..][0..512] == buff[..512];
        StillFormed(g, before);
      }
    }
  }

  /** Where link `j` of a file begins. */
  lemma FirstOfLink(g: File, sects: seq<Sector>, j: nat)
    requires g.Fits(sects) && j < |g.chain| && (j * g.fs.geo.sectsClust + 1) * 512 <= g.fsize
    ensures Follows(g.fs.geo.TableOf(sects), g.orgClust, g.chain) && Covered(g.fs.geo, sects, g.chain, g.fsize)
    ensures g.On(sects) == Content(g.fs.geo, sects, g.chain, g.fsize) && |g.On(sects)| == g.fsize
    ensures var from := j * g.fs.geo.sectsClust * 512;
            && from % 512 == 0 && from + 512 <= g.fsize
            && OnDisk(g.fs.geo, |sects|, g.chain, from / 512)
            && from / 512 % g.fs.geo.sectsClust + 1 <= g.fs.geo.sectsClust
            && SectorOf(g.fs.geo, g.chain, from / 512) == (g.chain[j] - 2) * g.fs.geo.sectsClust + g.fs.geo.database > 0
  {
    var n := g.fs.geo.sectsClust;
    g.fs.geo.Sizes(|sects|);
    var q: nat := j * n;
    assert q * 512 / 512 == q;
    Division(q, n, j, 0);
    Reaches(g.fs.geo, sects, g.chain, g.fsize, q);
  }

  lemma StillFormed(g: File, before: seq<Sector>)
    requires g.Fits(before) && g.fs.Shape() && !g.fs.winflag && |g.fs.disk.sects| == |before|
    requires g.fs.geo.TableOf(g.fs.disk.sects) == g.fs.geo.TableOf(before)
    requires Covered(g.fs.geo, g.fs.disk.sects, g.chain, g.fsize)
    ensures g.Formed() && g.Bytes() == Content(g.fs.geo, g.fs.disk.sects, g.chain, g.fsize)
  {
  }
}
