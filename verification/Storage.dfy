/** The block device under tff.c. A transfer of `count` sectors succeeds or fails as the device likes, and fails for
    sure on a bad or worn sector. A failed transfer is counted, and leaves its target with any content; but with the
    driver of the repository a failed read of one sector leaves it alone. */
module Storage {

  type Byte = b: int | 0 <= b < 256

  const SECTOR_SIZE := 512

  type Sector = s: seq<Byte> | |s| == 512 witness seq(512, _ => 0)

  class Disk {
    var sects: seq<Sector>
    /** The sectors that can no longer be read, */
    const bad: set<nat>
    /** and those that can no longer be written. */
    const worn: set<nat>
    /** Whether a read of one sector that fails has not touched its target. It has not with the driver in mmc.c
        (MmcCard). */
    const keeps: bool
    /** How many transfers have failed so far, and how often the card was not there. */
    ghost var faults: nat
    /** Whether it may still be at work on what it has been given to store. */
    ghost var pending: bool

    /** disk_status: whether the card is there. */
    method Initialised() returns (ready: bool)
      modifies this`faults
      ensures ready <==> faults == old(faults)
      ensures faults >= old(faults)
    {
      ready := *;
      if !ready { faults := faults + 1; }
    }

    /** disk_read: fill `buff[at..]` with `count` sectors from `sector` on. */
    method Read(buff: array<Byte>, at: nat, sector: nat, count: nat) returns (ok: bool)
      requires count >= 1 && at + 512 * count <= buff.Length
      modifies buff, this`faults
      ensures ok <==> faults == old(faults)
      ensures faults >= old(faults)
      ensures ok ==> sector + count <= |sects| && forall s :: sector <= s < sector + count ==> s !in bad
      ensures ok ==> forall k :: at <= k < at + 512 * count ==>
                buff[k] == sects[sector + (k - at) / 512][(k - at) % 512]
      ensures forall k :: 0 <= k < buff.Length && !(at <= k < at + 512 * count) ==> buff[k] == old(buff[k])
      ensures sector + count <= |sects| || !ok
      ensures keeps && count == 1 && !ok ==> buff[..] == old(buff[..])
    {
      ok := false;
      if sector + count <= |sects| && forall s :: sector <= s < sector + count ==> s !in bad {
        if * { ok := true; }
      }
      if ok {
        forall k | at <= k < at + 512 * count {
          buff[k] := sects[sector + (k - at) / 512][(k - at) % 512];
        }
      } else {
        if !keeps || count != 1 {
          var noise: int -> Byte := *;
          forall k | at <= k < at + 512 * count {
            buff[k] := noise(k);
          }
        }
        faults := faults + 1;
      }
    }

    /** disk_ioctl with CTRL_SYNC: wait until the device has finished. */
    method Flush() returns (ok: bool)
      modifies this`faults, this`pending
      ensures ok <==> faults == old(faults)
      ensures faults >= old(faults) && (ok ==> !pending)
    {
      ok := *;
      if ok {
        pending := false;
      } else {
        faults := faults + 1;
      }
    }

    /** disk_write: store `count` sectors from `buff[at..]` at `sector` and behind. */
    method Write(buff: array<Byte>, at: nat, sector: nat, count: nat) returns (ok: bool)
      requires count >= 1 && at + 512 * count <= buff.Length
      modifies this
      ensures ok <==> faults == old(faults)
      ensures faults >= old(faults) && |sects| == |old(sects)| && pending
      ensures ok ==> sector + count <= |sects|
      ensures ok ==> forall s :: sector <= s < sector + count ==> sects[s] == Slice(buff[..], at, s - sector)
      ensures ok ==> forall s :: sector <= s < sector + count ==> s !in worn
      ensures forall s :: 0 <= s < |sects| && (!(sector <= s < sector + count) || s in worn) ==>
                sects[s] == old(sects[s])
    {
      ok, pending := false, true;
      if sector + count <= |sects| && forall s :: sector <= s < sector + count ==> s !in worn {
        if * { ok := true; }
      }
      if ok {
        var data := seq<Sector>(count, j requires 0 <= j < count reads buff => Slice(buff[..], at, j));
        sects := Overwritten(sects, sector, data);
      } else {
        var noise: int -> Sector := *;
        ghost var before := sects;
        forall s | sector <= s < sector + count && s < |sects| && s in worn
          ensures Spoilt(before, worn, sector, count, noise)[s - sector] == before[s]
        {
          assert Stays(before, worn, sector + (s - sector), noise) == before[s];
        }
        sects := Overwritten(sects, sector, Spoilt(sects, worn, sector, count, noise));
        faults := faults + 1;
      }
    }
  }

  function Overwritten(sects: seq<Sector>, sector: nat, data: seq<Sector>): seq<Sector> {
    seq<Sector>(|sects|, s requires 0 <= s < |sects| => Either(sects, sector, data, s))
  }

  /** What a failed write may leave of `count` sectors. */
  function Spoilt(sects: seq<Sector>, worn: set<nat>, sector: nat, count: nat, noise: int -> Sector): (r: seq<Sector>)
    ensures |r| == count
  {
    seq<Sector>(count, j requires 0 <= j < count => Stays(sects, worn, sector + j, noise))
  }

  function Stays(sects: seq<Sector>, worn: set<nat>, s: nat, noise: int -> Sector): Sector {
    if s < |sects| && s in worn then sects[s] else noise(s)
  }

  function Either(sects: seq<Sector>, sector: nat, data: seq<Sector>, s: nat): Sector
    requires s < |sects|
  {
    if sector <= s < sector + |data| then data[s - sector] else sects[s]
  }

  /** Sector `j` of a buffer, counted from `at`. */
  function Slice(data: seq<Byte>, at: nat, j: nat): Sector
    requires at + 512 * (j + 1) <= |data|
  {
    data[at + 512 * j..at + 512 * (j + 1)]
  }
}
