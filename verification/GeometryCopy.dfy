/** The copy loop of cnvcf.cpp: a disk image of one geometry rewritten for another. */
module GeometryCopy {
  import opened Storage

  datatype Geometry = Geometry(c: nat, h: nat, s: nat)

  /** The options of a run. A sector is 256 words; a byte image holds only their low bytes. `skip` bytes of the input
      come before its first sector, `header` goes before the first sector of the output. */
  datatype Job = Job(src: Geometry, dst: Geometry, used: Geometry, srcByte: bool, dstByte: bool, skip: nat,
                     header: seq<Byte>)

  predicate Inside(g: Geometry, c: nat, h: nat, s: nat) {
    c < g.c && h < g.h && s < g.s
  }

  /** The number of a sector in an image. */
  function Lba(g: Geometry, c: nat, h: nat, s: nat): nat {
    (c * g.h + h) * g.s + s
  }

  function SectorsOf(g: Geometry): nat {
    g.c * g.h * g.s
  }

  function At(base: nat, byteImage: bool, lba: nat): nat {
    base + lba * if byteImage then 256 else 512
  }

  /** The 512 bytes a sector of the input stands for. */
  function Loaded(input: seq<Byte>, at: nat, byteImage: bool): (buf: seq<Byte>)
    requires at + (if byteImage then 256 else 512) <= |input|
    ensures |buf| == 512
  {
    if byteImage then seq(512, i requires 0 <= i < 512 => if i % 2 == 0 then input[at + i / 2] else 0)
    else input[at..at + 512]
  }

  /** What is written for 512 bytes. */
  function Stored(buf: seq<Byte>, byteImage: bool): (bytes: seq<Byte>)
    requires |buf| == 512
    ensures |bytes| == if byteImage then 256 else 512
  {
    if byteImage then seq(256, i requires 0 <= i < 256 => buf[2 * i]) else buf
  }

  /** The sector of zeros. */
  function Blank(): (buf: seq<Byte>)
    ensures |buf| == 512
  {
    seq(512, _ => 0)
  }

  /** Whether the input is long enough to hold a sector. */
  predicate Holds(job: Job, input: seq<Byte>, lba: nat) {
    At(job.skip, job.srcByte, lba + 1) <= |input|
  }

  /** Sector (c, h, s) of the output: the same sector of the input inside the used geometry, zeros outside it. A sector
      that the input breaks off before is not determined. */
  predicate Placed(job: Job, input: seq<Byte>, out: seq<Byte>, c: nat, h: nat, s: nat) {
    var lba' := Lba(job.dst, c, h, s);
    var begin, end := At(|job.header|, job.dstByte, lba'), At(|job.header|, job.dstByte, lba' + 1);
    var lba := Lba(job.src, c, h, s);
    && end <= |out|
    && (if Inside(job.used, c, h, s) then
          Holds(job, input, lba) ==>
              out[begin..end] == Stored(Loaded(input, At(job.skip, job.srcByte, lba), job.srcByte), job.dstByte)
        else out[begin..end] == Stored(Blank(), job.dstByte))
  }

  /** What a copy is. */
  ghost predicate IsCopy(job: Job, input: seq<Byte>, out: seq<Byte>) {
    && |out| == At(|job.header|, job.dstByte, SectorsOf(job.dst)) && job.header <= out
    && forall c: nat, h: nat, s: nat :: Inside(job.dst, c, h, s) ==> Placed(job, input, out, c, h, s)
  }

  predicate Fits(small: Geometry, big: Geometry) {
    small.c <= big.c && small.h <= big.h && small.s <= big.s
  }

  // ------------------------------------------------------------ counting sectors in step with the loops

  /** How many sectors of `g` come before (c, h, s), which need not be one. */
  function Count(g: Geometry, c: nat, h: nat, s: nat): nat {
    if c >= g.c then SectorsOf(g)
    else if h >= g.h then Lba(g, c + 1, 0, 0)
    else if s >= g.s then Lba(g, c, h + 1, 0)
    else Lba(g, c, h, s)
  }

  lemma CountSector(g: Geometry, c: nat, h: nat, s: nat)
    ensures Count(g, c, h, s + 1) == Count(g, c, h, s) + if Inside(g, c, h, s) then 1 else 0
    ensures Inside(g, c, h, s) ==> Count(g, c, h, s) == Lba(g, c, h, s)
  {
    assert (c * g.h + h) * g.s + g.s == (c * g.h + (h + 1)) * g.s;
  }

  /** The end of a track is the beginning of the next, whether or not the track has fewer sectors than the loop. */
  lemma CountTrack(g: Geometry, c: nat, h: nat, s: nat)
    requires g.s <= s
    ensures Count(g, c, h, s) == Count(g, c, h + 1, 0)
  {
    if c < g.c && h < g.h && h + 1 == g.h {
      assert c * g.h + g.h == (c + 1) * g.h;
    }
  }

  lemma CountCylinder(g: Geometry, c: nat, h: nat)
    requires g.h <= h
    ensures Count(g, c, h, 0) == Count(g, c + 1, 0, 0)
  {
    if c < g.c && c + 1 == g.c {
      assert Lba(g, c + 1, 0, 0) == g.c * g.h * g.s;
    } else if c + 1 < g.c {
      assert (c + 1) * g.h == (c + 1) * g.h + 0;
      assert Lba(g, c + 1, 0, 0) == Count(g, c + 1, 0, 0) by { FirstOfCylinder(g, c + 1); }
    }
  }

  lemma FirstOfCylinder(g: Geometry, c: nat)
    requires c < g.c
    ensures Count(g, c, 0, 0) == Lba(g, c, 0, 0)
  {
    if g.h == 0 {
      assert c * g.h == 0 && (c + 1) * g.h == 0;
    } else if g.s == 0 {
      assert (c * g.h + 0) * g.s == 0 && (c * g.h + 1) * g.s == 0;
    }
  }

  predicate Before(c: nat, h: nat, s: nat, c': nat, h': nat, s': nat) {
    c < c' || (c == c' && (h < h' || (h == h' && s < s')))
  }

  ghost predicate PlacedBefore(job: Job, input: seq<Byte>, out: seq<Byte>, c: nat, h: nat, s: nat) {
    forall c': nat, h': nat, s': nat :: Inside(job.dst, c', h', s') && Before(c', h', s', c, h, s) ==>
        Placed(job, input, out, c', h', s')
  }

  /** The state at the head of the loops: the output has the sectors that came before, and the input, if it is long
      enough, has been read as far as its own. */
  ghost predicate Reached(job: Job, input: seq<Byte>, pos: nat, out: seq<Byte>, c: nat, h: nat, s: nat) {
    && |out| == At(|job.header|, job.dstByte, Count(job.dst, c, h, s)) && job.header <= out
    && InStep(job, input, pos, Count(job.src, c, h, s))
    && PlacedBefore(job, input, out, c, h, s)
  }

  predicate InStep(job: Job, input: seq<Byte>, pos: nat, sectors: nat) {
    At(job.skip, job.srcByte, sectors) <= |input| ==> pos == At(job.skip, job.srcByte, sectors)
  }

  /** What one round of the inner loop may append for (c, h, s). */
  predicate Chunk(job: Job, input: seq<Byte>, chunk: seq<Byte>, c: nat, h: nat, s: nat) {
    if Inside(job.used, c, h, s) then
      |chunk| == (if job.dstByte then 256 else 512)
      && var lba := Lba(job.src, c, h, s);
         Holds(job, input, lba) ==>
             chunk == Stored(Loaded(input, At(job.skip, job.srcByte, lba), job.srcByte), job.dstByte)
    else if Inside(job.dst, c, h, s) then chunk == Stored(Blank(), job.dstByte)
    else chunk == []
  }

  lemma PlacedStays(job: Job, input: seq<Byte>, out: seq<Byte>, chunk: seq<Byte>, c: nat, h: nat, s: nat)
    requires Placed(job, input, out, c, h, s)
    ensures Placed(job, input, out + chunk, c, h, s)
  {
    hide Lba;
    var lba' := Lba(job.dst, c, h, s);
    var begin, end := At(|job.header|, job.dstByte, lba'), At(|job.header|, job.dstByte, lba' + 1);
    assert (out + chunk)[begin..end] == out[begin..end];
  }

  lemma PlacedNow(job: Job, input: seq<Byte>, out: seq<Byte>, chunk: seq<Byte>, c: nat, h: nat, s: nat)
    requires Inside(job.dst, c, h, s) && Chunk(job, input, chunk, c, h, s)
    requires |out| == At(|job.header|, job.dstByte, Lba(job.dst, c, h, s))
    ensures Placed(job, input, out + chunk, c, h, s)
  {
    hide Lba, Stored, Loaded, Blank, At;
    var lba' := Lba(job.dst, c, h, s);
    var begin, end := At(|job.header|, job.dstByte, lba'), At(|job.header|, job.dstByte, lba' + 1);
    AtNext(|job.header|, job.dstByte, lba');
    assert (out + chunk)[begin..end] == chunk;
  }

  lemma AtNext(base: nat, byteImage: bool, lba: nat)
    ensures At(base, byteImage, lba + 1) == At(base, byteImage, lba) + if byteImage then 256 else 512
  {
    if byteImage {
      assert At(base, true, lba) == base + 256 * lba;
    } else {
      assert At(base, false, lba) == base + 512 * lba;
    }
  }

  /** One round of the inner loop keeps the state. */
  lemma Advance(job: Job, input: seq<Byte>, pos: nat, pos': nat, out: seq<Byte>, chunk: seq<Byte>, c: nat, h: nat,
                s: nat)
    requires Fits(job.used, job.src) && Fits(job.used, job.dst)
    requires Reached(job, input, pos, out, c, h, s) && Chunk(job, input, chunk, c, h, s)
    requires InStep(job, input, pos', Count(job.src, c, h, s + 1))
    ensures Reached(job, input, pos', out + chunk, c, h, s + 1)
  {
    hide Placed, InStep, Count, Lba, Holds, Loaded, Stored, Blank;
    CountSector(job.dst, c, h, s);
    assert |out + chunk| == At(|job.header|, job.dstByte, Count(job.dst, c, h, s + 1));
    assert job.header <= out + chunk;
    forall c': nat, h': nat, s': nat | Inside(job.dst, c', h', s') && Before(c', h', s', c, h, s + 1)
      ensures Placed(job, input, out + chunk, c', h', s')
    {
      if Before(c', h', s', c, h, s) {
        PlacedStays(job, input, out, chunk, c', h', s');
      } else {
        PlacedNow(job, input, out, chunk, c, h, s);
      }
    }
  }

  lemma NextTrack(job: Job, input: seq<Byte>, pos: nat, out: seq<Byte>, c: nat, h: nat, s: nat)
    requires Reached(job, input, pos, out, c, h, s) && job.src.s <= s && job.dst.s <= s
    ensures Reached(job, input, pos, out, c, h + 1, 0)
  {
    hide Placed, Count, At, InStep;
    CountTrack(job.src, c, h, s);
    CountTrack(job.dst, c, h, s);
  }

  lemma NextCylinder(job: Job, input: seq<Byte>, pos: nat, out: seq<Byte>, c: nat, h: nat)
    requires Reached(job, input, pos, out, c, h, 0) && job.src.h <= h && job.dst.h <= h
    ensures Reached(job, input, pos, out, c + 1, 0, 0)
  {
    hide Placed, Count, At, InStep;
    CountCylinder(job.src, c, h);
    CountCylinder(job.dst, c, h);
  }

  lemma Done(job: Job, input: seq<Byte>, pos: nat, out: seq<Byte>, c: nat)
    requires Reached(job, input, pos, out, c, 0, 0) && job.dst.c <= c
    ensures IsCopy(job, input, out)
  {
    hide Placed, At;
  }

  lemma Opened(job: Job, input: seq<Byte>)
    ensures Reached(job, input, job.skip, job.header, 0, 0, 0)
  {
    hide Placed;
    CountZero(job.src);
    CountZero(job.dst);
  }

  lemma CountZero(g: Geometry)
    ensures Count(g, 0, 0, 0) == 0
  {
    if g.c == 0 {
      assert 0 * g.h * g.s == 0;
    } else {
      FirstOfCylinder(g, 0);
    }
  }

  // ------------------------------------------------------------ the program

  /** fpin. */
  class InFile {
    const data: seq<Byte>
    var pos: nat

    constructor (data: seq<Byte>)
      ensures this.data == data && pos == 0
    {
      this.data := data;
      pos := 0;
    }

    /** fread of `n` bytes to `buf[at..]`. */
    method Read(buf: array<Byte>, at: nat, n: nat)
      requires at + n <= buf.Length
      modifies `pos, buf
      ensures old(pos) + n <= |data| ==> pos == old(pos) + n && buf[at..at + n] == data[old(pos)..old(pos) + n]
      ensures forall k :: 0 <= k < buf.Length && !(at <= k < at + n) ==> buf[k] == old(buf[k])
    {
      var i, start := 0, pos;
      while i < n && pos < |data|
        invariant 0 <= i <= n && pos == start + i && (i > 0 ==> pos <= |data|)
        invariant forall k :: at <= k < at + i ==> buf[k] == data[k - at + start]
        invariant forall k :: 0 <= k < buf.Length && !(at <= k < at + n) ==> buf[k] == old(buf[k])
        modifies `pos, buf
      {
        buf[at + i] := data[pos];
        pos := pos + 1;
        i := i + 1;
      }
    }

    /** The "read sector" part of the inner loop. */
    method ReadSector(buf: array<Byte>, byteImage: bool)
      requires buf.Length == 512
      modifies `pos, buf
      ensures var size := if byteImage then 256 else 512;
              old(pos) + size <= |data| ==> pos == old(pos) + size && buf[..] == Loaded(data, old(pos), byteImage)
    {
      if byteImage {
        var i := 0;
        while i < 256
          invariant 0 <= i <= 256
          invariant old(pos) + 256 <= |data| ==> pos == old(pos) + i
          invariant old(pos) + 256 <= |data| ==> forall k :: 0 <= k < i ==> buf[2 * k] == data[old(pos) + k]
          invariant forall k :: 0 <= k < i ==> buf[2 * k + 1] == 0
        {
          ghost var before, start := buf[..], pos;
          Read(buf, 2 * i, 1);
          if old(pos) + 256 <= |data| {
            assert buf[2 * i] == buf[2 * i..2 * i + 1][0] == data[start];
          }
          buf[2 * i + 1] := 0;
          i := i + 1;
        }
        if old(pos) + 256 <= |data| {
          AllWords(buf[..], data, old(pos));
        }
      } else {
        Read(buf, 0, 512);
        assert buf[..] == buf[0..512];
      }
    }
  }

  lemma AllWords(buf: seq<Byte>, data: seq<Byte>, at: nat)
    requires |buf| == 512 && at + 256 <= |data|
    requires forall k :: 0 <= k < 256 ==> buf[2 * k] == data[at + k] && buf[2 * k + 1] == 0
    ensures buf == Loaded(data, at, true)
  {
    forall i | 0 <= i < 512 ensures buf[i] == Loaded(data, at, true)[i] {
      assert i == 2 * (i / 2) || i == 2 * (i / 2) + 1;
    }
  }

  function Max(a: nat, b: nat): nat { if a > b then a else b }

  /** The write part of the inner loop. */
  method SectorOut(buf: array<Byte>, job: Job, c: nat, h: nat, s: nat) returns (chunk: seq<Byte>)
    requires buf.Length == 512
    ensures chunk == if Inside(job.used, c, h, s) then Stored(buf[..], job.dstByte)
                     else if Inside(job.dst, c, h, s) then Stored(Blank(), job.dstByte)
                     else []
  {
    chunk := [];
    if c < job.used.c && h < job.used.h && s < job.used.s {
      if job.dstByte {
        var i := 0;
        while i < 256
          invariant 0 <= i <= 256 && |chunk| == i && forall k :: 0 <= k < i ==> chunk[k] == buf[2 * k]
        {
          chunk := chunk + [buf[2 * i]];
          i := i + 1;
        }
      } else {
        chunk := buf[..];
      }
    } else if c < job.dst.c && h < job.dst.h && s < job.dst.s {
      chunk := if job.dstByte then Blank()[..256] else Blank();
    }
  }

  /** One round of the inner loop: read a sector if the source has it, write one if the target wants it. */
  method CopySector(job: Job, fpin: InFile, c: nat, h: nat, s: nat, ghost out: seq<Byte>) returns (chunk: seq<Byte>)
    requires Fits(job.used, job.src) && Fits(job.used, job.dst) && Reached(job, fpin.data, fpin.pos, out, c, h, s)
    modifies fpin`pos
    ensures Reached(job, fpin.data, fpin.pos, out + chunk, c, h, s + 1)
  {
    hide Lba, Loaded, Stored, Blank, PlacedBefore, Count;
    ghost var pos := fpin.pos;
    CountSector(job.src, c, h, s);
    var buf := new Byte[512];
    if c < job.src.c && h < job.src.h && s < job.src.s {
      fpin.ReadSector(buf, job.srcByte);
    }
    chunk := SectorOut(buf, job, c, h, s);
    Advance(job, fpin.data, pos, fpin.pos, out, chunk, c, h, s);
  }

  /** The program from the guard on, for an input that holds `input`. */
  method Convert(job: Job, input: seq<Byte>) returns (ok: bool, out: seq<Byte>)
    ensures ok <==> Fits(job.used, job.src) && Fits(job.used, job.dst)
    ensures ok ==> IsCopy(job, input, out)
  {
    hide Reached, IsCopy;
    ok, out := true, [];
    if job.used.c > job.src.c || job.used.c > job.dst.c || job.used.h > job.src.h || job.used.h > job.dst.h
       || job.used.s > job.src.s || job.used.s > job.dst.s {
      ok := false;
      return;
    }
    var fpin := new InFile(input);
    var maxC, maxH, maxS := Max(job.src.c, job.dst.c), Max(job.src.h, job.dst.h), Max(job.src.s, job.dst.s);
    fpin.pos := job.skip;
    out := job.header;
    Opened(job, input);
    var c: nat := 0;
    while c < maxC
      invariant c <= maxC && Reached(job, input, fpin.pos, out, c, 0, 0)
    {
      var h: nat := 0;
      while h < maxH
        invariant h <= maxH && Reached(job, input, fpin.pos, out, c, h, 0)
      {
        var s: nat := 0;
        while s < maxS
          invariant s <= maxS && Reached(job, input, fpin.pos, out, c, h, s)
        {
          var chunk := CopySector(job, fpin, c, h, s, out);
          out := out + chunk;
          s := s + 1;
        }
        NextTrack(job, input, fpin.pos, out, c, h, s);
        h := h + 1;
      }
      NextCylinder(job, input, fpin.pos, out, c, h);
      c := c + 1;
    }
    Done(job, input, fpin.pos, out, c);
  }

  // ------------------------------------------------------------ what a copy determines

  lemma Grow(a: nat, b: nat, c: nat)
    requires a <= b
    ensures a * c <= b * c
  {
  }

  lemma Nothing(a: nat, b: nat, c: nat)
    ensures b == 0 || c == 0 ==> a * b * c == 0
  {
  }

  /** Every number below the size of an image is the number of a sector of it. */
  lemma Locate(g: Geometry, lba: nat) returns (c: nat, h: nat, s: nat)
    requires lba < SectorsOf(g)
    ensures Inside(g, c, h, s) && Lba(g, c, h, s) == lba
  {
    Nothing(g.c, g.h, g.s);
    var t: nat := lba / g.s;
    s := lba % g.s;
    c, h := t / g.h, t % g.h;
    assert t * g.s + s == lba && c * g.h + h == t;
    if c >= g.c {
      Grow(g.c, c, g.h);
      Grow(g.c * g.h, t, g.s);
    }
  }

  /** Images that agree in their headers and in every sector agree. */
  lemma SameImage(g: Geometry, base: nat, byteImage: bool, x: seq<Byte>, y: seq<Byte>)
    requires |x| == |y| == At(base, byteImage, SectorsOf(g)) && x[..base] == y[..base]
    requires forall c: nat, h: nat, s: nat :: Inside(g, c, h, s) ==> SameSector(base, byteImage, x, y, Lba(g, c, h, s))
    ensures x == y
  {
    hide Lba, Inside, SameSector, SectorsOf;
    forall i | 0 <= i < |x| ensures x[i] == y[i] {
      if i < base {
        assert x[i] == x[..base][i];
        assert y[i] == y[..base][i];
      } else {
        var lba: nat := SectorNumber(base, byteImage, i);
        WhichSector(base, byteImage, SectorsOf(g), i);
        var c, h, s := Locate(g, lba);
        SameByte(base, byteImage, x, y, lba, i);
      }
    }
  }

  function SectorNumber(base: nat, byteImage: bool, i: nat): nat
    requires base <= i
  {
    (i - base) / if byteImage then 256 else 512
  }

  lemma WhichSector(base: nat, byteImage: bool, sectors: nat, i: nat)
    requires base <= i < At(base, byteImage, sectors)
    ensures var lba := SectorNumber(base, byteImage, i);
            lba < sectors && At(base, byteImage, lba) <= i < At(base, byteImage, lba + 1)
  {
    if byteImage {
      assert (i - base) / 256 < sectors;
    } else {
      assert (i - base) / 512 < sectors;
    }
  }

  lemma SameByte(base: nat, byteImage: bool, x: seq<Byte>, y: seq<Byte>, lba: nat, i: nat)
    requires SameSector(base, byteImage, x, y, lba) && i < |x| && i < |y|
    requires At(base, byteImage, lba) <= i < At(base, byteImage, lba + 1)
    ensures x[i] == y[i]
  {
    var begin, end := At(base, byteImage, lba), At(base, byteImage, lba + 1);
    hide At;
    assert x[i] == x[begin..end][i - begin] && y[i] == y[begin..end][i - begin];
  }

  predicate SameSector(base: nat, byteImage: bool, x: seq<Byte>, y: seq<Byte>, lba: nat) {
    var begin, end := At(base, byteImage, lba), At(base, byteImage, lba + 1);
    end <= |x| && end <= |y| && x[begin..end] == y[begin..end]
  }

  lemma SectorHeld(job: Job, input: seq<Byte>, c: nat, h: nat, s: nat)
    requires Fits(job.used, job.src) && Inside(job.used, c, h, s)
    requires At(job.skip, job.srcByte, SectorsOf(job.src)) <= |input|
    ensures Holds(job, input, Lba(job.src, c, h, s))
  {
    LbaInside(job.src, c, h, s);
  }

  lemma LbaInside(g: Geometry, c: nat, h: nat, s: nat)
    requires Inside(g, c, h, s)
    ensures Lba(g, c, h, s) < SectorsOf(g)
  {
    Grow(c + 1, g.c, g.h);
    assert (c + 1) * g.h == c * g.h + g.h;
    Grow(c * g.h + h + 1, g.c * g.h, g.s);
    assert (c * g.h + h + 1) * g.s == (c * g.h + h) * g.s + g.s;
  }

  /** An input that is not cut short determines the whole output. */
  lemma CopyDetermined(job: Job, input: seq<Byte>, x: seq<Byte>, y: seq<Byte>)
    requires Fits(job.used, job.src) && At(job.skip, job.srcByte, SectorsOf(job.src)) <= |input|
    requires IsCopy(job, input, x) && IsCopy(job, input, y)
    ensures x == y
  {
    hide Lba, SectorsOf, Loaded, Stored, Blank;
    forall c: nat, h: nat, s: nat | Inside(job.dst, c, h, s)
      ensures SameSector(|job.header|, job.dstByte, x, y, Lba(job.dst, c, h, s))
    {
      assert Placed(job, input, x, c, h, s) && Placed(job, input, y, c, h, s);
      if Inside(job.used, c, h, s) { SectorHeld(job, input, c, h, s); }
    }
    SameImage(job.dst, |job.header|, job.dstByte, x, y);
  }

  /** Byte by byte, for sectors of the used geometry: `from` and `to` are where the sector begins in the input and in
      the output. Images of the same kind have the same bytes; the byte of a byte image is the first one of a word. */
  lemma CopiedBytes(job: Job, input: seq<Byte>, out: seq<Byte>, c: nat, h: nat, s: nat, from: nat, to: nat, i: nat)
    requires Fits(job.used, job.src) && Fits(job.used, job.dst) && IsCopy(job, input, out)
    requires c < job.used.c && h < job.used.h && s < job.used.s
    requires At(job.skip, job.srcByte, SectorsOf(job.src)) <= |input|
    requires from == job.skip + (if job.srcByte then 256 else 512) * ((c * job.src.h + h) * job.src.s + s)
    requires to == |job.header| + (if job.dstByte then 256 else 512) * ((c * job.dst.h + h) * job.dst.s + s)
    requires i < 256
    ensures from + (if job.srcByte then 256 else 512) <= |input| && to + (if job.dstByte then 256 else 512) <= |out|
    ensures !job.srcByte && !job.dstByte ==>
              out[to + i] == input[from + i] && out[to + 256 + i] == input[from + 256 + i]
    ensures job.srcByte && job.dstByte ==> out[to + i] == input[from + i]
    ensures job.srcByte && !job.dstByte ==> out[to + 2 * i] == input[from + i] && out[to + 2 * i + 1] == 0
    ensures !job.srcByte && job.dstByte ==> out[to + i] == input[from + 2 * i]
  {
    SectorWritten(job, input, out, c, h, s);
    AtIs(job.skip, job.srcByte, Lba(job.src, c, h, s));
    AtIs(|job.header|, job.dstByte, Lba(job.dst, c, h, s));
    BytesOfSector(input, from, job.srcByte, out, to, job.dstByte, i);
  }

  lemma SectorWritten(job: Job, input: seq<Byte>, out: seq<Byte>, c: nat, h: nat, s: nat)
    requires Fits(job.used, job.src) && Fits(job.used, job.dst) && IsCopy(job, input, out)
    requires Inside(job.used, c, h, s) && At(job.skip, job.srcByte, SectorsOf(job.src)) <= |input|
    ensures Holds(job, input, Lba(job.src, c, h, s)) && Placed(job, input, out, c, h, s)
  {
    hide At, Lba, SectorsOf, Holds, Placed;
    SectorHeld(job, input, c, h, s);
  }

  lemma BytesOfSector(input: seq<Byte>, from: nat, srcByte: bool, out: seq<Byte>, to: nat, dstByte: bool, i: nat)
    requires from + (if srcByte then 256 else 512) <= |input| && to + (if dstByte then 256 else 512) <= |out|
    requires out[to..to + if dstByte then 256 else 512] == Stored(Loaded(input, from, srcByte), dstByte) && i < 256
    ensures !srcByte && !dstByte ==> out[to + i] == input[from + i] && out[to + 256 + i] == input[from + 256 + i]
    ensures srcByte && dstByte ==> out[to + i] == input[from + i]
    ensures srcByte && !dstByte ==> out[to + 2 * i] == input[from + i] && out[to + 2 * i + 1] == 0
    ensures !srcByte && dstByte ==> out[to + i] == input[from + 2 * i]
  {
    hide Loaded, Stored;
    var first := Loaded(input, from, srcByte);
    SliceAt(out, to, Stored(first, dstByte), i);
    StoredAt(first, dstByte, i);
    LoadedAt(input, from, srcByte, i);
    LoadedAt(input, from, srcByte, 2 * i);
    LoadedAt(input, from, srcByte, 2 * i + 1);
    LoadedAt(input, from, srcByte, 256 + i);
    if !dstByte {
      SliceAt(out, to, Stored(first, dstByte), 2 * i);
      SliceAt(out, to, Stored(first, dstByte), 2 * i + 1);
      SliceAt(out, to, Stored(first, dstByte), 256 + i);
      StoredAt(first, dstByte, 2 * i);
      StoredAt(first, dstByte, 2 * i + 1);
      StoredAt(first, dstByte, 256 + i);
    }
  }

  lemma AtIs(base: nat, byteImage: bool, lba: nat)
    ensures At(base, byteImage, lba) == base + (if byteImage then 256 else 512) * lba
    ensures At(base, byteImage, lba + 1) == At(base, byteImage, lba) + if byteImage then 256 else 512
  {
    AtNext(base, byteImage, lba);
  }

  /** All other sectors are zeros. */
  lemma OthersAreZero(job: Job, input: seq<Byte>, out: seq<Byte>, c: nat, h: nat, s: nat, to: nat, i: nat)
    requires IsCopy(job, input, out) && c < job.dst.c && h < job.dst.h && s < job.dst.s
    requires !(c < job.used.c && h < job.used.h && s < job.used.s)
    requires to == |job.header| + (if job.dstByte then 256 else 512) * ((c * job.dst.h + h) * job.dst.s + s)
    requires i < if job.dstByte then 256 else 512
    ensures to + i < |out| && out[to + i] == 0
  {
    BlankWritten(job, input, out, c, h, s);
    AtIs(|job.header|, job.dstByte, Lba(job.dst, c, h, s));
    hide Stored, Blank;
    SliceAt(out, to, Stored(Blank(), job.dstByte), i);
    StoredAt(Blank(), job.dstByte, i);
    BlankAt(if job.dstByte then 2 * i else i);
  }

  lemma BlankWritten(job: Job, input: seq<Byte>, out: seq<Byte>, c: nat, h: nat, s: nat)
    requires IsCopy(job, input, out) && Inside(job.dst, c, h, s)
    ensures Placed(job, input, out, c, h, s)
  {
  }

  lemma BlankAt(i: nat)
    requires i < 512
    ensures Blank()[i] == 0
  {
  }

  /** The way back: the same sectors from the bigger geometry into the smaller one. */
  function Back(job: Job, input: seq<Byte>): Job
    requires job.skip <= |input|
  {
    Job(job.dst, job.src, job.used, job.dstByte, job.srcByte, |job.header|, input[..job.skip])
  }

  /** What is left of an image that has been there and back: everything, but where words went through bytes the odd
      bytes of its sectors are zero. */
  function Survives(job: Job, input: seq<Byte>): (r: seq<Byte>)
    ensures |r| == |input|
  {
    seq(|input|, i requires 0 <= i < |input| => if Lost(job, i) then 0 else input[i])
  }

  predicate Lost(job: Job, i: nat) {
    !job.srcByte && job.dstByte && i >= job.skip && (i - job.skip) % 2 == 1
  }

  lemma SurvivesSlice(job: Job, input: seq<Byte>, at: nat, size: nat, i: nat)
    requires at + size <= |input| && i < size
    ensures Survives(job, input)[at..at + size][i] == if Lost(job, at + i) then 0 else input[at + i]
  {
  }

  /** One sector there and back. */
  lemma SectorRoundTrip(job: Job, input: seq<Byte>, at: nat, mid: seq<Byte>, at': nat)
    requires at + (if job.srcByte then 256 else 512) <= |input| && at' + (if job.dstByte then 256 else 512) <= |mid|
    requires at >= job.skip && (!job.srcByte ==> (at - job.skip) % 2 == 0)
    requires mid[at'..at' + if job.dstByte then 256 else 512] == Stored(Loaded(input, at, job.srcByte), job.dstByte)
    ensures Stored(Loaded(mid, at', job.dstByte), job.srcByte)
         == Survives(job, input)[at..at + if job.srcByte then 256 else 512]
  {
    var size := if job.srcByte then 256 else 512;
    var back := Stored(Loaded(mid, at', job.dstByte), job.srcByte);
    forall i | 0 <= i < size ensures back[i] == Survives(job, input)[at..at + size][i] {
      SurvivesSlice(job, input, at, size, i);
      ByteRoundTrip(job, input, at, mid, at', i);
    }
  }

  lemma LoadedAt(input: seq<Byte>, at: nat, byteImage: bool, i: nat)
    requires at + (if byteImage then 256 else 512) <= |input| && i < 512
    ensures Loaded(input, at, byteImage)[i]
         == if !byteImage then input[at + i] else if i % 2 == 0 then input[at + i / 2] else 0
  {
  }

  lemma StoredAt(buf: seq<Byte>, byteImage: bool, i: nat)
    requires |buf| == 512 && i < if byteImage then 256 else 512
    ensures Stored(buf, byteImage)[i] == if byteImage then buf[2 * i] else buf[i]
  {
  }

  lemma SliceAt(mid: seq<Byte>, at: nat, there: seq<Byte>, j: nat)
    requires at + |there| <= |mid| && mid[at..at + |there|] == there && j < |there|
    ensures mid[at + j] == there[j]
  {
  }

  lemma ByteRoundTrip(job: Job, input: seq<Byte>, at: nat, mid: seq<Byte>, at': nat, i: nat)
    requires at + (if job.srcByte then 256 else 512) <= |input| && at' + (if job.dstByte then 256 else 512) <= |mid|
    requires at >= job.skip && (!job.srcByte ==> (at - job.skip) % 2 == 0) && i < if job.srcByte then 256 else 512
    requires mid[at'..at' + if job.dstByte then 256 else 512] == Stored(Loaded(input, at, job.srcByte), job.dstByte)
    ensures Stored(Loaded(mid, at', job.dstByte), job.srcByte)[i] == if Lost(job, at + i) then 0 else input[at + i]
  {
    hide Loaded, Stored;
    var first := Loaded(input, at, job.srcByte);
    var there := Stored(first, job.dstByte);
    var second := Loaded(mid, at', job.dstByte);
    var j: nat := if job.srcByte then 2 * i else i;
    StoredAt(second, job.srcByte, i);
    LoadedAt(mid, at', job.dstByte, j);
    LoadedAt(input, at, job.srcByte, j);
    if !job.dstByte {
      SliceAt(mid, at', there, j);
      StoredAt(first, false, j);
    } else if j % 2 == 0 {
      SliceAt(mid, at', there, j / 2);
      StoredAt(first, true, j / 2);
    }
  }

  lemma EvenSectors(job: Job, lba: nat)
    ensures At(job.skip, job.srcByte, lba) >= job.skip
    ensures !job.srcByte ==> (At(job.skip, job.srcByte, lba) - job.skip) % 2 == 0
  {
    if job.srcByte {
      assert At(job.skip, true, lba) == job.skip + 256 * lba;
    } else {
      assert At(job.skip, false, lba) == job.skip + 2 * (256 * lba);
    }
  }

  /** What comes back of an image that is copied whole into a bigger geometry. */
  lemma CopyBack(job: Job, input: seq<Byte>, mid: seq<Byte>, out: seq<Byte>)
    requires job.used == job.src && Fits(job.src, job.dst)
    requires |input| == At(job.skip, job.srcByte, SectorsOf(job.src))
    requires IsCopy(job, input, mid) && IsCopy(Back(job, input), mid, out)
    ensures out == Survives(job, input)
  {
    hide Lba, SectorsOf, Loaded, Stored, Blank, Survives;
    var back := Back(job, input);
    forall c: nat, h: nat, s: nat | Inside(job.src, c, h, s)
      ensures SameSector(job.skip, job.srcByte, out, Survives(job, input), Lba(job.src, c, h, s))
    {
      SectorHeld(job, input, c, h, s);
      SectorHeld(back, mid, c, h, s);
      assert Placed(job, input, mid, c, h, s) && Placed(back, mid, out, c, h, s);
      EvenSectors(job, Lba(job.src, c, h, s));
      SectorRoundTrip(job, input, At(job.skip, job.srcByte, Lba(job.src, c, h, s)),
                      mid, At(|job.header|, job.dstByte, Lba(job.dst, c, h, s)));
    }
    HeaderSurvives(job, input);
    SameImage(job.src, job.skip, job.srcByte, out, Survives(job, input));
  }

  lemma HeaderSurvives(job: Job, input: seq<Byte>)
    requires job.skip <= |input|
    ensures Survives(job, input)[..job.skip] == input[..job.skip]
  {
  }

  /** So it comes back unchanged, header and all, if and only if its words did not go through bytes or every odd byte of
      its sectors is zero. */
  lemma CopyRoundTrip(job: Job, input: seq<Byte>, mid: seq<Byte>, out: seq<Byte>)
    requires job.used == job.src && Fits(job.src, job.dst)
    requires |input| == At(job.skip, job.srcByte, SectorsOf(job.src))
    requires IsCopy(job, input, mid) && IsCopy(Back(job, input), mid, out)
    ensures out == input <==> job.srcByte || !job.dstByte ||
                              forall i :: job.skip <= i < |input| && (i - job.skip) % 2 == 1 ==> input[i] == 0
  {
    hide IsCopy, At, SectorsOf, Back;
    CopyBack(job, input, mid, out);
    assert forall i :: 0 <= i < |out| ==> out[i] == if Lost(job, i) then 0 else input[i];
  }
}
