/** The floppy image of fddimage.c, a client of f_lseek, f_read and f_write_inplace: track, side and sector against the
    flat file. */
module FddImage {
  import opened Storage
  import opened FatVolume
  import opened FatFile
  import opened FatInplace

  const FDD_SECTOR_SIZE: nat := 1024
  const FDD_NSIDES: nat := 2
  const FDD_NSECTORS: nat := 5

  /** calc_offset, in 32-bit unsigned arithmetic. */
  function CalcOffset(side: nat, track: nat, sector: nat): nat {
    ((FDD_NSIDES * track + (1 - side)) * FDD_NSECTORS + sector - 1) * FDD_SECTOR_SIZE % 0x1_0000_0000
  }

  predicate OnDisk(side: nat, track: nat, sector: nat) {
    side < FDD_NSIDES && track < 256 && 1 <= sector <= FDD_NSECTORS
  }

  /** The address of image sector `k`: side 1 comes first on every track. */
  function Address(k: nat): (nat, nat, nat) {
    (1 - k / FDD_NSECTORS % FDD_NSIDES, k / (FDD_NSECTORS * FDD_NSIDES), k % FDD_NSECTORS + 1)
  }

  /** Addresses and image sectors correspond one to one, without gaps. */
  lemma OffsetsAreSectors(side: nat, track: nat, sector: nat)
    requires OnDisk(side, track, sector)
    ensures var k := CalcOffset(side, track, sector) / FDD_SECTOR_SIZE;
            k < 256 * 10 && CalcOffset(side, track, sector) == k * FDD_SECTOR_SIZE &&
                Address(k) == (side, track, sector)
  {
    var k := (FDD_NSIDES * track + (1 - side)) * FDD_NSECTORS + sector - 1;
    assert k == 10 * track + 5 * (1 - side) + (sector - 1);
    assert k / 5 == 2 * track + (1 - side);
  }

  lemma EverySectorHasAnAddress(k: nat)
    requires k < 256 * 10
    ensures var (side, track, sector) := Address(k);
            OnDisk(side, track, sector) && CalcOffset(side, track, sector) == k * FDD_SECTOR_SIZE
  {
    assert k / 5 / 2 == k / 10;
  }

  /** An address of an image of `ntracks` tracks. */
  predicate OnImage(side: nat, track: nat, sector: nat, ntracks: nat) {
    side < FDD_NSIDES && track < ntracks && 1 <= sector <= FDD_NSECTORS
  }

  /** The wrong addresses that fdd_seek lets pass. */
  predicate Unreported(side: nat, track: nat, sector: nat, ntracks: nat) {
    && side <= FDD_NSIDES && track <= ntracks && sector <= FDD_NSECTORS
    && (side == FDD_NSIDES || track == ntracks || sector == 0)
  }

  /** The address whose sector is transferred instead: side 2 is side 0 of the track before, and sector 0 the last
      sector of what comes before. */
  function Instead(side: nat, track: nat, sector: nat): (nat, nat, nat)
    requires track >= 1
  {
    if side == 2 then (if sector == 0 then (1, track - 1, 5) else (0, track - 1, sector))
    else if sector == 0 then (if side == 0 then (1, track, 5) else (0, track - 1, 5))
    else (side, track, sector)
  }

  lemma OffsetIs(side: nat, track: nat, sector: nat)
    requires side <= 2 && track < 256 && sector <= 5
    ensures var k := 10 * track + 5 * (1 - side) + sector - 1;
            CalcOffset(side, track, sector) == if k >= 0 then 1024 * k else 0x1_0000_0000 + 1024 * k
  {
  }

  /** What becomes of them. Behind the first track they stand for another sector of the image, or, on the track behind
      the last, for one behind its end; on the first track also for one that no file of less than 4 GB reaches. */
  lemma UnreportedReads(side: nat, track: nat, sector: nat, ntracks: nat)
    requires Unreported(side, track, sector, ntracks) && track < 256
    ensures !OnImage(side, track, sector, ntracks)
    ensures track >= 1 ==>
              var (side', track', sector') := Instead(side, track, sector);
              && OnDisk(side', track', sector')
              && CalcOffset(side, track, sector) == CalcOffset(side', track', sector')
              && (track == ntracks && side != FDD_NSIDES && (sector != 0 || side == 0) ==>
                    CalcOffset(side, track, sector) >= ntracks * (FDD_NSIDES * FDD_NSECTORS * FDD_SECTOR_SIZE))
    ensures track == 0 && side == 0 && sector == 0 ==> CalcOffset(0, 0, 0) == CalcOffset(1, 0, 5)
    ensures track == 0 && (side == 2 || (side == 1 && sector == 0)) ==>
              CalcOffset(side, track, sector) >= 0xFFFF_E800
  {
    OffsetIs(side, track, sector);
    if track >= 1 {
      var (side', track', sector') := Instead(side, track, sector);
      OffsetIs(side', track', sector');
    }
  }

  /** For example: side 2 of track 1 passes, and is side 0 of track 0. */
  lemma SideTwoPasses()
    ensures Unreported(2, 1, 1, 80) && CalcOffset(2, 1, 1) == CalcOffset(0, 0, 1)
  {
  }

  class Drive {
    const file: File
    const buffer: array<Byte>
    const ntracks: nat
    var curSide: nat
    var curTrack: nat
    var curSector: nat
    var seekError: bool

    ghost predicate Formed()
      reads file, file.fs`winsect, file.fs`winflag, file.fs.disk`sects, file.fs.win
    {
      file.Formed() && Distinct(file.chain) && buffer.Length >= FDD_SECTOR_SIZE && buffer != file.fs.win
    }

    /** What every call needs: a device that keeps the window when a read fails never loses it. */
    ghost predicate Valid(): (valid: bool)
      reads file, file.fs`winsect, file.fs`winflag, file.fs.disk`sects, file.fs.win
      ensures valid <==> Formed() && file.FatSeen()
    {
      Formed() && file.FatSeen()
    }

    /** The window is not stale on the FAT nor on a last part of a sector, which is the only one read through it. */
    ghost predicate Seen()
      reads file.fs`winsect, file.fs`winflag, file.fs.disk`sects, file.fs.win
    {
      file.Sees(file.fsize / 512)
    }

    constructor (file: File, buffer: array<Byte>, ntracks: nat)
      requires file.Formed() && Distinct(file.chain) && buffer.Length >= FDD_SECTOR_SIZE && buffer != file.fs.win
      ensures Formed() && this.file == file && this.buffer == buffer && this.ntracks == ntracks && !seekError
    {
      this.file, this.buffer, this.ntracks := file, buffer, ntracks;
      seekError := false;
    }

    /** fdd_seek: the address is remembered even when it is reported as wrong. What is reported is wrong, but side 2,
        sector 0 and the track behind the last one are wrong and not reported. */
    method Seek(side: nat, track: nat, sector: nat)
      modifies `curSide, `curTrack, `curSector, `seekError
      ensures (curSide, curTrack, curSector) == (side, track, sector)
      ensures seekError ==> !OnImage(side, track, sector, ntracks)
      ensures !seekError && !OnImage(side, track, sector, ntracks) <==> Unreported(side, track, sector, ntracks)
    {
      seekError := side > FDD_NSIDES || track > ntracks || sector > FDD_NSECTORS;
      curSide, curTrack, curSector := side, track, sector;
    }

    /** fdd_readsector: the buffer gets the image sector, as far as the file reaches; what is behind that stays. */
    method ReadSector() returns (res: Result)
      requires Valid()
      modifies file, file.fs`winsect, file.fs`winflag, file.fs.win, file.fs.disk, buffer
      ensures Formed() && file.Bytes() == old(file.Bytes())
      ensures res != RwError || file.fs.disk.keeps ==> Valid()
      ensures old(Seen()) && (res != RwError || file.fs.disk.keeps) ==> Seen()
      ensures file.fs.disk.faults >= old(file.fs.disk.faults)
      ensures old(file.Granted()) && file.fs.disk.faults == old(file.fs.disk.faults) ==> res == Ok && file.Granted()
      ensures var (start, end) := Extent(file.fsize, CalcOffset(curSide, curTrack, curSector));
              && (res == Ok && old(Seen()) ==> buffer[..end - start] == file.Bytes()[start..end])
              && forall k :: end - start <= k < buffer.Length ==> buffer[k] == old(buffer[k])
    {
      hide *;
      var offset := CalcOffset(curSide, curTrack, curSector);
      ExtentIs(file.fsize, curSide, curTrack, curSector);
      Roomy();
      Before(this);
      ghost var right, sect := file.fs.Coherent(), file.fs.winsect;
      res := file.LSeek(offset);
      Roomy();
      if res != RwError || file.fs.disk.keeps {
        After(this, right, sect);
      }
      if res != Ok {
        return;
      }
      ghost var (start, end) := Extent(file.fsize, offset);
      Enough(this, start, end - start);
      Before(this);
      right, sect := file.fs.Coherent(), file.fs.winsect;
      var bytesread;
      res, bytesread := file.Read(buffer, FDD_SECTOR_SIZE);
      Roomy();
      if res != RwError || file.fs.disk.keeps {
        After(this, right, sect);
      }
    }

    /** fdd_writesector: the image sector gets the buffer, as far as the file has whole device sectors; a rest of the
        file behind them is not written, but read into the buffer. A device error may leave anything in that place, and
        nowhere else in the file. */
    method WriteSector() returns (res: Result, ghost written: seq<Byte>)
      requires Valid()
      modifies file, file.fs`winsect, file.fs`winflag, file.fs.win, file.fs.disk, buffer
      ensures Formed()
      ensures res != RwError || file.fs.disk.keeps ==> Valid()
      ensures old(Seen()) && res != RwError ==> Seen()
      ensures file.fs.disk.faults >= old(file.fs.disk.faults)
      ensures old(file.Granted()) && file.fs.disk.faults == old(file.fs.disk.faults) ==> res == Ok && file.Granted()
      ensures var (start, end) := Extent(file.fsize, CalcOffset(curSide, curTrack, curSector));
              && |written| <= Whole(end - start) && file.Bytes() == Spliced(old(file.Bytes()), start, written)
              && (res == Ok ==> written == old(buffer[..])[..Whole(end - start)])
              && (forall k :: 0 <= k < buffer.Length && !(Whole(end - start) <= k < end - start) ==>
                  buffer[k] == old(buffer[k]))
              && (res == Ok && old(Seen()) ==>
                    buffer[Whole(end - start)..end - start] == old(file.Bytes())[start + Whole(end - start)..end])
    {
      hide *;
      var offset := CalcOffset(curSide, curTrack, curSector);
      ghost var (start, end) := Extent(file.fsize, offset);
      ExtentIs(file.fsize, curSide, curTrack, curSector);
      Roomy();
      Before(this);
      ghost var right, sect, bytes, data := file.fs.Coherent(), file.fs.winsect, file.Bytes(), buffer[..];
      written := [];
      SplicedNothing(bytes, start);
      WholeIs(end - start);
      res := file.LSeek(offset);
      Roomy();
      if res != RwError {
        After(this, right, sect);
      }
      if res != Ok {
        return;
      }
      Enough(this, start, end - start);
      Before(this);
      right, sect := file.fs.Coherent(), file.fs.winsect;
      var bytesread;
      res, bytesread, written := WriteInplace(file, buffer, FDD_SECTOR_SIZE);
      PartsAre(bytes, file.Bytes(), start, end - start, data, written, res == Ok, bytesread, buffer[..]);
      Roomy();
      if res != RwError {
        AfterWrite(this, right, sect);
      }
    }

    lemma Roomy()
      ensures Formed() <==>
                file.Formed() && Distinct(file.chain) && buffer.Length >= FDD_SECTOR_SIZE && buffer != file.fs.win
      ensures Formed() ==> file.fptr <= file.fsize == |file.Bytes()|
    {
    }
  }

  /** The bytes of whole device sectors among `n`. */
  function Whole(n: nat): nat {
    n / 512 * 512
  }

  lemma WholeIs(n: nat)
    ensures Whole(n) <= n < Whole(n) + 512 && Whole(n) % 512 == 0
  {
  }

  lemma Before(d: Drive)
    ensures d.Seen() <==>
              d.file.SeesAt(d.file.fs.Coherent(), d.file.fs.winsect, |d.file.fs.disk.sects|, d.file.fsize / 512)
    ensures d.file.FatSeen() <==> d.file.fs.Coherent() || !d.file.fs.geo.InFat(d.file.fs.winsect)
    ensures d.Seen() ==> d.file.FatSeen()
  {
  }

  /** A call without an error leaves the window as good as it was. */
  lemma After(d: Drive, right: bool, sect: nat)
    requires Steady(right, sect, d.file.fs.Coherent(), d.file.fs.winsect)
    ensures right || !d.file.fs.geo.InFat(sect) ==> d.file.FatSeen()
    ensures d.file.SeesAt(right, sect, |d.file.fs.disk.sects|, d.file.fsize / 512) ==> d.Seen()
  {
  }

  lemma AfterWrite(d: Drive, right: bool, sect: nat)
    requires StillSees(d.file, right, sect, d.file.fs.Coherent(), d.file.fs.winsect, |d.file.fs.disk.sects|,
                       d.file.fptr / 512)
    requires d.file.fptr <= d.file.fsize
    ensures d.file.SeesAt(right, sect, |d.file.fs.disk.sects|, d.file.fsize / 512) ==> d.Seen()
  {
    hide File.SeesAt;
    assert d.file.fptr / 512 <= d.file.fsize / 512;
  }

  /** Only a last part of a sector is read through the window. */
  lemma Enough(d: Drive, start: nat, n: nat)
    requires (start % 512 == 0 && n % 512 == 0) || FirstCopied(start, n) == d.file.fsize / 512
    ensures d.Seen() ==> d.file.SeesFor(start, n)
  {
  }

  lemma PartsAre(bytes: seq<Byte>, now: seq<Byte>, start: nat, n: nat, data: seq<Byte>, written: seq<Byte>, all: bool,
                 br: nat, buff: seq<Byte>)
    requires BodyIs(bytes, now, start, n, data, written, all) && Ours(start, n, br, data, buff) && br <= n
    requires Head(start, n) == 0 && Body(start, n) == Whole(n)
    ensures |written| <= Whole(n) && now == Spliced(bytes, start, written) && Whole(n) <= n <= |data|
    ensures start + n <= |bytes|
    ensures all ==> written == data[..Whole(n)]
    ensures |buff| == |data| && forall k :: 0 <= k < |buff| && !(Whole(n) <= k < n) ==> buff[k] == data[k]
    ensures Passed(bytes, start, n, br, buff) && br == n ==> buff[Whole(n)..n] == bytes[start + Whole(n)..start + n]
  {
    hide Head, Body, Whole, Spliced;
  }

  /** The part of a file of `size` bytes that a sector at `offset` is. */
  function Extent(size: nat, offset: nat): (r: (nat, nat))
    ensures r.0 <= r.1 <= size && r.1 - r.0 <= FDD_SECTOR_SIZE
  {
    var start := if offset > size then size else offset;
    (start, if start + FDD_SECTOR_SIZE > size then size else start + FDD_SECTOR_SIZE)
  }

  /** It begins on a sector boundary or is empty, f_read's clipping is right for it, and it ends in part of a sector
      only if that is the last one of the file. */
  lemma ExtentIs(size: nat, side: nat, track: nat, sector: nat)
    ensures var (start, end) := Extent(size, CalcOffset(side, track, sector));
            && start == (if CalcOffset(side, track, sector) > size then size else CalcOffset(side, track, sector))
            && Clipped(size - start, FDD_SECTOR_SIZE) == end - start
            && Head(start, end - start) == 0 && Body(start, end - start) == Whole(end - start)
            && ((start % 512 == 0 && (end - start) % 512 == 0) || FirstCopied(start, end - start) == size / 512)
  {
    OffsetIsWhole((FDD_NSIDES * track + (1 - side)) * FDD_NSECTORS + sector - 1);
    assert CalcOffset(side, track, sector) % 512 == 0;
    hide CalcOffset;
    var (start, end) := Extent(size, CalcOffset(side, track, sector));
    if start % 512 == 0 {
      assert FirstCopied(start, end - start) == end / 512;
    } else {
      assert start == size == end;
    }
  }

  /** Cutting a multiple of 1024 to 32 bits leaves one of 512. */
  lemma OffsetIsWhole(x: int)
    ensures x * FDD_SECTOR_SIZE % 0x1_0000_0000 % 512 == 0
  {
    var q := x * 1024 / 0x1_0000_0000;
    assert x * 1024 % 0x1_0000_0000 == 512 * (2 * x - q * 0x80_0000);
  }

  // ------------------------------------------------------------ the image as a memory of sectors

  type SectorData = s: seq<Byte> | |s| == 1024 witness seq(1024, _ => 0)

  datatype Op =
    | ReadAt(side: nat, track: nat, sector: nat)
    | WriteAt(side: nat, track: nat, sector: nat, data: SectorData)

  function ExtentOf(size: nat, op: Op): (r: (nat, nat))
    ensures r.0 <= r.1 <= size && r.1 - r.0 <= FDD_SECTOR_SIZE
  {
    Extent(size, CalcOffset(op.side, op.track, op.sector))
  }

  /** The flat image after an operation, and what it has delivered if it is a read. */
  function Operated(image: seq<Byte>, op: Op): (r: (seq<Byte>, seq<seq<Byte>>))
    ensures |r.0| == |image|
  {
    var (start, end) := ExtentOf(|image|, op);
    match op
    case ReadAt(_, _, _) => (image, [image[start..end]])
    case WriteAt(_, _, _, data) => (Spliced(image, start, data[..Whole(end - start)]), [])
  }

  /** The same after some operations. */
  function Memory(bytes: seq<Byte>, ops: seq<Op>): (r: (seq<Byte>, seq<seq<Byte>>))
    ensures |r.0| == |bytes|
  {
    if ops == [] then (bytes, [])
    else
      var (image, got) := Memory(bytes, ops[..|ops| - 1]);
      var (next, more) := Operated(image, ops[|ops| - 1]);
      (next, got + more)
  }

  lemma MemoryStep(bytes: seq<Byte>, ops: seq<Op>, i: nat)
    requires i <= |ops|
    ensures i == 0 ==> Memory(bytes, ops[..i]) == (bytes, [])
    ensures i < |ops| ==>
              var (image, got) := Memory(bytes, ops[..i]);
              var (next, more) := Operated(image, ops[i]);
              Memory(bytes, ops[..i + 1]) == (next, got + more)
  {
    if i < |ops| {
      assert ops[..i + 1][..i] == ops[..i];
    }
  }

  /** Any run of seeks, sector reads and sector writes behaves like the flat image, although its transfers bypass the
      window: what the window may come to show stale is never read through it. */
  method Operate(d: Drive, ops: seq<Op>) returns (res: Result, got: seq<seq<Byte>>)
    requires d.Formed() && d.Seen()
    modifies d, d.file, d.file.fs`winsect, d.file.fs`winflag, d.file.fs.win, d.file.fs.disk, d.buffer
    ensures d.Formed()
    ensures d.file.fs.disk.faults >= old(d.file.fs.disk.faults)
    ensures old(d.file.Granted()) && d.file.fs.disk.faults == old(d.file.fs.disk.faults) ==> res == Ok
    ensures res == Ok ==> d.Seen() && (d.file.Bytes(), got) == Memory(old(d.file.Bytes()), ops)
  {
    hide *;
    got := [];
    d.Roomy();
    ghost var bytes := d.file.Bytes();
    MemoryStep(bytes, ops, 0);
    for i := 0 to |ops|
      invariant d.Formed() && d.file.Formed() && d.Seen() && (d.file.Bytes(), got) == Memory(bytes, ops[..i])
      invariant d.file.fs.disk.faults >= old(d.file.fs.disk.faults)
      invariant old(d.file.Granted()) && d.file.fs.disk.faults == old(d.file.fs.disk.faults) ==> d.file.Granted()
    {
      MemoryStep(bytes, ops, i);
      var more;
      res, more := OneOp(d, ops[i]);
      if res != Ok {
        return;
      }
      got := got + more;
    }
    assert ops[..|ops|] == ops;
    res := Ok;
  }

  /** One of them. */
  method OneOp(d: Drive, op: Op) returns (res: Result, got: seq<seq<Byte>>)
    requires d.Formed() && d.Seen()
    modifies d, d.file, d.file.fs`winsect, d.file.fs`winflag, d.file.fs.win, d.file.fs.disk, d.buffer
    ensures d.Formed() && d.file.Formed()
    ensures d.file.fs.disk.faults >= old(d.file.fs.disk.faults)
    ensures old(d.file.Granted()) && d.file.fs.disk.faults == old(d.file.fs.disk.faults) ==>
              res == Ok && d.file.Granted()
    ensures res == Ok ==> d.Seen() && (d.file.Bytes(), got) == Operated(old(d.file.Bytes()), op)
  {
    hide *;
    d.Roomy();
    Before(d);
    d.Seek(op.side, op.track, op.sector);
    match op
    case ReadAt(side, track, sector) =>
      res := d.ReadSector();
      d.Roomy();
      got := [];
      if res == Ok {
        var (start, end) := Extent(d.file.fsize, CalcOffset(side, track, sector));
        got := [d.buffer[..end - start]];
        ReadIs(old(d.file.Bytes()), op);
      }
    case WriteAt(_, _, _, data) =>
      got := [];
      Fill(d.buffer, data);
      Before(d);
      WriteIs(d.file.Bytes(), op, d.buffer[..]);
      ghost var written;
      res, written := d.WriteSector();
      d.Roomy();
  }

  lemma ReadIs(image: seq<Byte>, op: Op)
    requires op.ReadAt?
    ensures var (start, end) := Extent(|image|, CalcOffset(op.side, op.track, op.sector));
            Operated(image, op) == (image, [image[start..end]])
  {
  }

  lemma WriteIs(image: seq<Byte>, op: Op, buff: seq<Byte>)
    requires op.WriteAt? && |buff| >= FDD_SECTOR_SIZE && buff[..FDD_SECTOR_SIZE] == op.data
    ensures var (start, end) := Extent(|image|, CalcOffset(op.side, op.track, op.sector));
            Operated(image, op) == (Spliced(image, start, buff[..Whole(end - start)]), [])
  {
    hide CalcOffset, Spliced;
    var (start, end) := ExtentOf(|image|, op);
    WholeIs(end - start);
    assert buff[..Whole(end - start)] == op.data[..Whole(end - start)];
  }

  method Fill(buffer: array<Byte>, data: SectorData)
    requires buffer.Length >= FDD_SECTOR_SIZE
    modifies buffer
    ensures buffer[..FDD_SECTOR_SIZE] == data
  {
    for k := 0 to FDD_SECTOR_SIZE
      invariant buffer[..k] == data[..k]
    {
      buffer[k] := data[k];
    }
  }

  /** What is written at an address is read there, as far as the file has whole device sectors, and at no other address
      does anything change. */
  lemma SectorsAreCells(bytes: seq<Byte>, side: nat, track: nat, sector: nat, data: SectorData,
                        side': nat, track': nat, sector': nat)
    requires OnDisk(side, track, sector) && OnDisk(side', track', sector')
    ensures var (start, end) := Extent(|bytes|, CalcOffset(side, track, sector));
            var (start', end') := Extent(|bytes|, CalcOffset(side', track', sector'));
            Whole(end - start) <= end - start &&
            Spliced(bytes, start, data[..Whole(end - start)])[start'..end']
            == if (side, track, sector) == (side', track', sector')
               then data[..Whole(end - start)] + bytes[start + Whole(end - start)..end] else bytes[start'..end']
  {
    hide CalcOffset, Address, OnDisk, Extent, Spliced;
    OffsetsAreSectors(side, track, sector);
    OffsetsAreSectors(side', track', sector');
    Cells(bytes, CalcOffset(side, track, sector), CalcOffset(side', track', sector'), data);
  }

  lemma Cells(bytes: seq<Byte>, o: nat, o': nat, data: SectorData)
    requires o == o' || o + FDD_SECTOR_SIZE <= o' || o' + FDD_SECTOR_SIZE <= o
    ensures var (start, end) := Extent(|bytes|, o);
            var (start', end') := Extent(|bytes|, o');
            var w := Whole(end - start);
            w <= end - start && Spliced(bytes, start, data[..w])[start'..end']
            == if o == o' then data[..w] + bytes[start + w..end] else bytes[start'..end']
  {
    var (start, end) := Extent(|bytes|, o);
    var (start', end') := Extent(|bytes|, o');
    ExtentsApart(|bytes|, o, o');
    WholeIs(end - start);
    var w := Whole(end - start);
    hide *;
    if o == o' {
      CellItself(bytes, start, end, data[..w]);
    } else if start == end {
      SplicedNothing(bytes, start);
      assert data[..w] == [];
    } else {
      SplicedParts(bytes, start, data[..w], start', end');
    }
  }

  lemma ExtentsApart(size: nat, o: nat, o': nat)
    requires o == o' || o + FDD_SECTOR_SIZE <= o' || o' + FDD_SECTOR_SIZE <= o
    ensures var (start, end) := Extent(size, o);
            var (start', end') := Extent(size, o');
            start == end || start' == end' || o == o' || end <= start' || end' <= start
  {
  }

  lemma CellItself(bytes: seq<Byte>, start: nat, end: nat, data: seq<Byte>)
    requires start + |data| <= end <= |bytes|
    ensures Spliced(bytes, start, data)[start..end] == data + bytes[start + |data|..end]
  {
    var t := start + |data|;
    SplicedParts(bytes, start, data, start, t);
    SplicedParts(bytes, start, data, t, end);
    hide Spliced;
    var now := Spliced(bytes, start, data);
    assert now[start..end] == now[start..t] + now[t..end];
  }
}
