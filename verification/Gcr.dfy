/** The GCR encoder of d64toc.cpp. A byte is a list of eight bits, the bit of weight 1 first; on the disk the bit of
    weight 128 comes first. */
module Gcr {
  import opened BitLists

  type Byte = b: Bits | |b| == 8 witness Zeros(8)

  const ZERO: Byte := Zeros(8)
  const ONES: Byte := Not(Zeros(8))

  // ------------------------------------------------------------ the code

  /** bin_2_gcr, each entry with its value. */
  function Bin2Gcr(n: nat): Byte
    requires n < 16
  {
    [ Word(8, {1, 3}) /* 0a */, Word(8, {0, 1, 3}) /* 0b */, Word(8, {1, 4}) /* 12 */, Word(8, {0, 1, 4}) /* 13 */,
      Word(8, {1, 2, 3}) /* 0e */, Word(8, {0, 1, 2, 3}) /* 0f */, Word(8, {1, 2, 4}) /* 16 */,
      Word(8, {0, 1, 2, 4}) /* 17 */, Word(8, {0, 3}) /* 09 */, Word(8, {0, 3, 4}) /* 19 */,
      Word(8, {1, 3, 4}) /* 1a */, Word(8, {0, 1, 3, 4}) /* 1b */, Word(8, {0, 2, 3}) /* 0d */,
      Word(8, {0, 2, 3, 4}) /* 1d */, Word(8, {1, 2, 3, 4}) /* 1e */, Word(8, {0, 2, 4}) /* 15 */ ][n]
  }

  function Weight(bit: bool, w: nat): nat {
    if bit then w else 0
  }

  /** `b >> 4` and `b & 0xf`. */
  function High(b: Byte): (n: nat)
    ensures n < 16
  {
    Weight(b[7], 8) + Weight(b[6], 4) + Weight(b[5], 2) + Weight(b[4], 1)
  }

  function Low(b: Byte): (n: nat)
    ensures n < 16
  {
    Weight(b[3], 8) + Weight(b[2], 4) + Weight(b[1], 2) + Weight(b[0], 1)
  }

  /** The five bits of a code as they go to the disk. */
  function Five(n: nat): (bits: seq<bool>)
    requires n < 16
    ensures |bits| == 5
  {
    LowFive(Bin2Gcr(n))
  }

  function LowFive(g: Byte): (bits: seq<bool>)
    ensures |bits| == 5
  {
    [g[4], g[3], g[2], g[1], g[0]]
  }

  predicate FiveWide(g: Byte) {
    !g[5] && !g[6] && !g[7]
  }

  /** The codes leave the top of their byte clear, no two are alike, none begins or ends with two zeros, holds three
      zeros in a row, or is all ones. */
  lemma CodeShape(n: nat)
    requires n < 16
    ensures FiveWide(Bin2Gcr(n))
    ensures (Five(n)[0] || Five(n)[1]) && (Five(n)[3] || Five(n)[4]) && (Five(n)[1] || Five(n)[2] || Five(n)[3])
    ensures !(Five(n)[0] && Five(n)[1] && Five(n)[2] && Five(n)[3] && Five(n)[4])
  {
  }

  /** The entries as numbers. */
  lemma CodeValue(n: nat)
    requires n < 16
    ensures var f := Five(n);
            Weight(f[0], 16) + Weight(f[1], 8) + Weight(f[2], 4) + Weight(f[3], 2) + Weight(f[4], 1)
            == [0xa, 0xb, 0x12, 0x13, 0xe, 0xf, 0x16, 0x17, 9, 0x19, 0x1a, 0x1b, 0xd, 0x1d, 0x1e, 0x15][n]
  {
  }

  /** No two codes are alike. */
  lemma CodesDiffer(m: nat, n: nat)
    requires m < 16 && n < 16 && Five(m) == Five(n)
    ensures m == n
  {
    hide Five;
    CodeValue(m);
    CodeValue(n);
  }

  lemma NibblesDetermine(a: Byte, b: Byte)
    requires High(a) == High(b) && Low(a) == Low(b)
    ensures a == b
  {
    assert a[7] == b[7] && a[6] == b[6] && a[5] == b[5] && a[4] == b[4];
    assert a[3] == b[3] && a[2] == b[2] && a[1] == b[1] && a[0] == b[0];
  }

  /** What gcr_double_2_gcr puts at `dest[0..5]`. */
  function Pack(a: Byte, b: Byte, c: Byte, d: Byte): (dest: seq<Byte>)
    ensures |dest| == 5
  {
    var g0, g1, g2, g3 := Bin2Gcr(High(a)), Bin2Gcr(Low(a)), Bin2Gcr(High(b)), Bin2Gcr(Low(b));
    var g4, g5, g6, g7 := Bin2Gcr(High(c)), Bin2Gcr(Low(c)), Bin2Gcr(High(d)), Bin2Gcr(Low(d));
    [Or(Shl(g0, 3), Shr(g1, 2)),
     Or(Or(Shl(g1, 6), Shl(g2, 1)), Shr(g3, 4)),
     Or(Shl(g3, 4), Shr(g4, 1)),
     Or(Or(Shl(g4, 7), Shl(g5, 2)), Shr(g6, 3)),
     Or(Shl(g6, 5), g7)]
  }

  /** What a stream of bytes has been turned into when `s` has been fed to the helper: whole groups of four only. */
  function Encode(s: seq<Byte>): (out: seq<Byte>)
    ensures |out| == |s| / 4 * 5
  {
    if |s| < 4 then []
    else if |s| % 4 != 0 then Encode(s[..|s| - 1])
    else
      assert |s[..|s| - 4]| / 4 == |s| / 4 - 1;
      Encode(s[..|s| - 4]) + Pack(s[|s| - 4], s[|s| - 3], s[|s| - 2], s[|s| - 1])
  }

  /** What the helper still holds. */
  function Held(s: seq<Byte>): seq<Byte> {
    s[|s| / 4 * 4..]
  }

  // ------------------------------------------------------------ the disk's view

  function OnDisk(b: Byte): (bits: seq<bool>)
    ensures |bits| == 8
  {
    [b[7], b[6], b[5], b[4], b[3], b[2], b[1], b[0]]
  }

  function Stream(bytes: seq<Byte>): (bits: seq<bool>)
    ensures |bits| == 8 * |bytes|
  {
    if bytes == [] then [] else Stream(bytes[..|bytes| - 1]) + OnDisk(bytes[|bytes| - 1])
  }

  /** The codes of all half bytes, one behind the other. */
  function Codes(s: seq<Byte>): (bits: seq<bool>)
    ensures |bits| == 10 * |s|
  {
    if s == [] then [] else Codes(s[..|s| - 1]) + Five(High(s[|s| - 1])) + Five(Low(s[|s| - 1]))
  }

  /** The ends of a code. */
  lemma Ends(g: Byte)
    ensures LowFive(g)[..1] == [g[4]] && LowFive(g)[1..] == [g[3], g[2], g[1], g[0]]
    ensures LowFive(g)[..2] == [g[4], g[3]] && LowFive(g)[2..] == [g[2], g[1], g[0]]
    ensures LowFive(g)[..3] == [g[4], g[3], g[2]] && LowFive(g)[3..] == [g[1], g[0]]
    ensures LowFive(g)[..4] == [g[4], g[3], g[2], g[1]] && LowFive(g)[4..] == [g[0]]
  {
  }

  lemma Byte0(g0: Byte, g1: Byte)
    requires FiveWide(g0) && FiveWide(g1)
    ensures OnDisk(Or(Shl(g0, 3), Shr(g1, 2))) == LowFive(g0) + LowFive(g1)[..3]
  {
    Ends(g1);
    assert OnDisk(Or(Shl(g0, 3), Shr(g1, 2))) == [g0[4], g0[3], g0[2], g0[1], g0[0], g1[4], g1[3], g1[2]];
  }

  lemma Byte1(g1: Byte, g2: Byte, g3: Byte)
    requires FiveWide(g1) && FiveWide(g2) && FiveWide(g3)
    ensures OnDisk(Or(Or(Shl(g1, 6), Shl(g2, 1)), Shr(g3, 4))) == LowFive(g1)[3..] + LowFive(g2) + LowFive(g3)[..1]
  {
    Ends(g1);
    Ends(g3);
    assert OnDisk(Or(Or(Shl(g1, 6), Shl(g2, 1)), Shr(g3, 4)))
        == [g1[1], g1[0], g2[4], g2[3], g2[2], g2[1], g2[0], g3[4]];
  }

  lemma Byte2(g3: Byte, g4: Byte)
    requires FiveWide(g3) && FiveWide(g4)
    ensures OnDisk(Or(Shl(g3, 4), Shr(g4, 1))) == LowFive(g3)[1..] + LowFive(g4)[..4]
  {
    Ends(g3);
    Ends(g4);
    assert OnDisk(Or(Shl(g3, 4), Shr(g4, 1))) == [g3[3], g3[2], g3[1], g3[0], g4[4], g4[3], g4[2], g4[1]];
  }

  lemma Byte3(g4: Byte, g5: Byte, g6: Byte)
    requires FiveWide(g4) && FiveWide(g5) && FiveWide(g6)
    ensures OnDisk(Or(Or(Shl(g4, 7), Shl(g5, 2)), Shr(g6, 3))) == LowFive(g4)[4..] + LowFive(g5) + LowFive(g6)[..2]
  {
    Ends(g4);
    Ends(g6);
    assert OnDisk(Or(Or(Shl(g4, 7), Shl(g5, 2)), Shr(g6, 3)))
        == [g4[0], g5[4], g5[3], g5[2], g5[1], g5[0], g6[4], g6[3]];
  }

  lemma Byte4(g6: Byte, g7: Byte)
    requires FiveWide(g6) && FiveWide(g7)
    ensures OnDisk(Or(Shl(g6, 5), g7)) == LowFive(g6)[2..] + LowFive(g7)
  {
    Ends(g6);
    assert OnDisk(Or(Shl(g6, 5), g7)) == [g6[2], g6[1], g6[0], g7[4], g7[3], g7[2], g7[1], g7[0]];
  }

  /** Where the eight codes lie in the five bytes. */
  lemma PackedBytes(a: Byte, b: Byte, c: Byte, d: Byte)
    ensures var p := Pack(a, b, c, d);
            && OnDisk(p[0]) == Five(High(a)) + Five(Low(a))[..3]
            && OnDisk(p[1]) == Five(Low(a))[3..] + Five(High(b)) + Five(Low(b))[..1]
            && OnDisk(p[2]) == Five(Low(b))[1..] + Five(High(c))[..4]
            && OnDisk(p[3]) == Five(High(c))[4..] + Five(Low(c)) + Five(High(d))[..2]
            && OnDisk(p[4]) == Five(High(d))[2..] + Five(Low(d))
  {
    hide Bin2Gcr, High, Low, Or, Shl, Shr, OnDisk, LowFive;
    var g0, g1, g2, g3 := Bin2Gcr(High(a)), Bin2Gcr(Low(a)), Bin2Gcr(High(b)), Bin2Gcr(Low(b));
    var g4, g5, g6, g7 := Bin2Gcr(High(c)), Bin2Gcr(Low(c)), Bin2Gcr(High(d)), Bin2Gcr(Low(d));
    CodeShape(High(a)); CodeShape(Low(a)); CodeShape(High(b)); CodeShape(Low(b));
    CodeShape(High(c)); CodeShape(Low(c)); CodeShape(High(d)); CodeShape(Low(d));
    Byte0(g0, g1); Byte1(g1, g2, g3); Byte2(g3, g4); Byte3(g4, g5, g6); Byte4(g6, g7);
  }

  lemma Regroup(f: seq<seq<bool>>)
    requires |f| == 8 && forall k :: 0 <= k < 8 ==> |f[k]| == 5
    ensures (f[0] + f[1][..3]) + (f[1][3..] + f[2] + f[3][..1]) + (f[3][1..] + f[4][..4])
            + (f[4][4..] + f[5] + f[6][..2]) + (f[6][2..] + f[7])
         == f[0] + f[1] + f[2] + f[3] + f[4] + f[5] + f[6] + f[7]
  {
    assert f[1] == f[1][..3] + f[1][3..] && f[3] == f[3][..1] + f[3][1..];
    assert f[4] == f[4][..4] + f[4][4..] && f[6] == f[6][..2] + f[6][2..];
  }

  lemma PackOnDisk(a: Byte, b: Byte, c: Byte, d: Byte)
    ensures Stream(Pack(a, b, c, d)) == Codes([a, b, c, d])
  {
    hide Five, High, Low, Pack, OnDisk;
    PackedBytes(a, b, c, d);
    StreamFive(Pack(a, b, c, d));
    CodesFour(a, b, c, d);
    Regroup([Five(High(a)), Five(Low(a)), Five(High(b)), Five(Low(b)), Five(High(c)), Five(Low(c)), Five(High(d)),
             Five(Low(d))]);
  }

  lemma StreamFive(p: seq<Byte>)
    requires |p| == 5
    ensures Stream(p) == OnDisk(p[0]) + OnDisk(p[1]) + OnDisk(p[2]) + OnDisk(p[3]) + OnDisk(p[4])
  {
    hide OnDisk;
    assert p[..4][..3] == p[..3] && p[..3][..2] == p[..2] && p[..2][..1] == p[..1] && p[..1][..0] == [];
    assert Stream(p[..1]) == OnDisk(p[0]);
    assert Stream(p[..2]) == OnDisk(p[0]) + OnDisk(p[1]);
    assert Stream(p[..3]) == OnDisk(p[0]) + OnDisk(p[1]) + OnDisk(p[2]);
  }

  lemma CodesFour(a: Byte, b: Byte, c: Byte, d: Byte)
    ensures Codes([a, b, c, d]) == Five(High(a)) + Five(Low(a)) + Five(High(b)) + Five(Low(b))
                                   + Five(High(c)) + Five(Low(c)) + Five(High(d)) + Five(Low(d))
  {
    hide Five, High, Low;
    assert [a, b, c, d][..3] == [a, b, c] && [a, b, c][..2] == [a, b] && [a, b][..1] == [a] && [a][..0] == [];
    assert Codes([a]) == Five(High(a)) + Five(Low(a));
    assert Codes([a, b]) == Five(High(a)) + Five(Low(a)) + Five(High(b)) + Five(Low(b));
    assert Codes([a, b, c])
        == Five(High(a)) + Five(Low(a)) + Five(High(b)) + Five(Low(b)) + Five(High(c)) + Five(Low(c));
  }

  lemma {:induction false} StreamSplit(u: seq<Byte>, v: seq<Byte>)
    ensures Stream(u + v) == Stream(u) + Stream(v)
  {
    hide OnDisk;
    if v == [] {
      assert u + v == u;
    } else {
      StreamSplit(u, v[..|v| - 1]);
      assert (u + v)[..|u + v| - 1] == u + v[..|v| - 1];
    }
  }

  lemma {:induction false} CodesSplit(u: seq<Byte>, v: seq<Byte>)
    ensures Codes(u + v) == Codes(u) + Codes(v)
  {
    hide Five, High, Low;
    if v == [] {
      assert u + v == u;
    } else {
      CodesSplit(u, v[..|v| - 1]);
      assert (u + v)[..|u + v| - 1] == u + v[..|v| - 1];
    }
  }

  /** The bytes the encoder writes, read bit by bit, are the codes one behind the other. */
  lemma {:induction false} EncodedStream(s: seq<Byte>)
    requires |s| % 4 == 0
    ensures Stream(Encode(s)) == Codes(s)
  {
    hide Five, High, Low, Pack, OnDisk;
    if s == [] {
    } else {
      var n := |s| - 4;
      EncodedStream(s[..n]);
      PackOnDisk(s[n], s[n + 1], s[n + 2], s[n + 3]);
      StreamSplit(Encode(s[..n]), Pack(s[n], s[n + 1], s[n + 2], s[n + 3]));
      CodesSplit(s[..n], [s[n], s[n + 1], s[n + 2], s[n + 3]]);
      assert s == s[..n] + [s[n], s[n + 1], s[n + 2], s[n + 3]];
    }
  }

  lemma {:induction false} CodesDetermine(s: seq<Byte>, t: seq<Byte>)
    requires Codes(s) == Codes(t)
    ensures s == t
  {
    hide Five, High, Low;
    if s == [] {
    } else {
      var n := |s| - 1;
      var a, b := s[n], t[n];
      assert Codes(s)[..10 * n] == Codes(s[..n]) && Codes(t)[..10 * n] == Codes(t[..n]);
      CodesDetermine(s[..n], t[..n]);
      assert Codes(s)[10 * n..10 * n + 5] == Five(High(a)) && Codes(t)[10 * n..10 * n + 5] == Five(High(b));
      assert Codes(s)[10 * n + 5..] == Five(Low(a)) && Codes(t)[10 * n + 5..] == Five(Low(b));
      CodesDiffer(High(a), High(b));
      CodesDiffer(Low(a), Low(b));
      NibblesDetermine(a, b);
    }
  }

  /** The code is uniquely decodable. A length that is no multiple of four leaves bytes in the helper, unwritten. */
  lemma UniquelyDecodable(s: seq<Byte>, t: seq<Byte>)
    requires |s| % 4 == 0 && |t| % 4 == 0 && Encode(s) == Encode(t)
    ensures s == t
  {
    EncodedStream(s);
    EncodedStream(t);
    CodesDetermine(s, t);
  }

  function HalfByte(s: seq<Byte>, j: nat): nat
    requires j < 2 * |s|
  {
    if j % 2 == 0 then High(s[j / 2]) else Low(s[j / 2])
  }

  /** Which bit of which code a bit is. */
  lemma {:induction false} CodeAt(s: seq<Byte>, j: nat, k: nat)
    requires j < 2 * |s| && k < 5
    ensures HalfByte(s, j) < 16 && Codes(s)[5 * j + k] == Five(HalfByte(s, j))[k]
  {
    hide Five, High, Low;
    var n := |s| - 1;
    if j < 2 * n {
      CodeAt(s[..n], j, k);
    }
  }

  predicate AllOnes(bits: seq<bool>, from: nat, count: nat) {
    from + count <= |bits| && forall k :: from <= k < from + count ==> bits[k]
  }

  predicate AllZeros(bits: seq<bool>, from: nat, count: nat) {
    from + count <= |bits| && forall k :: from <= k < from + count ==> !bits[k]
  }

  /** Nine bits hold a whole code, and no code is all ones. */
  lemma NeverNineOnes(s: seq<Byte>, from: nat)
    requires from + 9 <= |Codes(s)|
    ensures !AllOnes(Codes(s), from, 9)
  {
    hide Five, Codes, HalfByte;
    var j := (from + 4) / 5;
    CodeAt(s, j, 0); CodeAt(s, j, 1); CodeAt(s, j, 2); CodeAt(s, j, 3); CodeAt(s, j, 4);
    CodeShape(HalfByte(s, j));
  }

  /** Three zeros would be three in one code, or two at its end or beginning. */
  lemma NeverThreeZeros(s: seq<Byte>, from: nat)
    requires from + 3 <= |Codes(s)|
    ensures !AllZeros(Codes(s), from, 3)
  {
    hide Five, Codes, HalfByte;
    var j := from / 5;
    CodeAt(s, j, 0); CodeAt(s, j, 1); CodeAt(s, j, 2); CodeAt(s, j, 3); CodeAt(s, j, 4);
    CodeShape(HalfByte(s, j));
    if from % 5 >= 3 {
      CodeAt(s, j + 1, 0); CodeAt(s, j + 1, 1);
      CodeShape(HalfByte(s, j + 1));
    }
  }

  // ------------------------------------------------------------ where a sector is in the image file

  const MAX_TRACKS: nat := 35
  const IMAGE_SIZE: nat := 174848

  /** d64_sectors_per_track, in the four zones of the disk. */
  function SectorsPerTrack(track: nat): nat {
    if track < 17 then 21 else if track < 24 then 19 else if track < 30 then 18 else 17
  }

  /** The byte at which a track begins: what the tracks before it hold. */
  function TrackStart(track: nat): nat {
    if track == 0 then 0 else TrackStart(track - 1) + SectorsPerTrack(track - 1) * 256
  }

  lemma FirstTrackStart()
    ensures TrackStart(0) == 0
  {
  }

  lemma NextTrackStart(track: nat)
    ensures TrackStart(track + 1) == TrackStart(track) + SectorsPerTrack(track) * 256
  {
  }

  predicate IsSectorId(track: nat, sector: nat) {
    1 <= track <= MAX_TRACKS && sector < SectorsPerTrack(track - 1)
  }

  function SectorStart(track: nat, sector: nat): nat
    requires track >= 1
  {
    TrackStart(track - 1) + sector * 256
  }

  lemma {:induction false} StartsGrow(s: nat, t: nat)
    requires s < t
    ensures TrackStart(s) + SectorsPerTrack(s) * 256 <= TrackStart(t)
  {
    if s < t - 1 { StartsGrow(s, t - 1); }
  }

  lemma LastTrackEnds()
    ensures TrackStart(MAX_TRACKS) == IMAGE_SIZE
  {
    assert TrackStart(5) == 26880 && TrackStart(10) == 53760 && TrackStart(15) == 80640;
    assert TrackStart(20) == 105984 && TrackStart(25) == 130048 && TrackStart(30) == 153088;
  }

  /** The sectors lie in the file without gap or overlap: every 256-byte slot belongs to exactly one of them. */
  lemma SectorsFit(track: nat, sector: nat)
    requires IsSectorId(track, sector)
    ensures SectorStart(track, sector) + 256 <= IMAGE_SIZE && SectorStart(track, sector) % 256 == 0
  {
    LastTrackEnds();
    if track < MAX_TRACKS { StartsGrow(track - 1, MAX_TRACKS); }
    Aligned(track - 1);
  }

  lemma {:induction false} Aligned(track: nat)
    ensures TrackStart(track) % 256 == 0
  {
    if track == 0 {
    } else {
      Aligned(track - 1);
    }
  }

  lemma SectorsApart(t: nat, s: nat, t': nat, s': nat)
    requires IsSectorId(t, s) && IsSectorId(t', s') && SectorStart(t, s) == SectorStart(t', s')
    ensures t == t' && s == s'
  {
    if t < t' { StartsGrow(t - 1, t' - 1); }
    if t' < t { StartsGrow(t' - 1, t - 1); }
  }

  lemma {:induction false} EverySlotIsASector(slot: nat, tracks: nat) returns (t: nat, s: nat)
    requires tracks <= MAX_TRACKS && slot * 256 < TrackStart(tracks)
    ensures IsSectorId(t, s) && SectorStart(t, s) == slot * 256
    decreases tracks
  {
    if slot * 256 < TrackStart(tracks - 1) {
      t, s := EverySlotIsASector(slot, tracks - 1);
    } else {
      Aligned(tracks - 1);
      t, s := tracks, slot - TrackStart(tracks - 1) / 256;
    }
  }

  // ------------------------------------------------------------ the sector image

  /** The bit of weight `w`. */
  predicate Digit(v: nat, w: nat)
    requires w > 0
  {
    v / w % 2 == 1
  }

  /** A small number as a byte. */
  function Number(v: nat): Byte {
    [Digit(v, 1), Digit(v, 2), Digit(v, 4), Digit(v, 8), Digit(v, 16), Digit(v, 32), Digit(v, 64), Digit(v, 128)]
  }

  /** `a ^ b`. */
  function Mix(a: Byte, b: Byte): Byte {
    Xor(a, b)
  }

  const SYNC: seq<Byte> := [ONES, ONES, ONES, ONES, ONES]
  const GAP: seq<Byte> := [ZERO, ZERO, ZERO, ZERO, ZERO, ZERO, ZERO, ZERO]

  function Header(track: nat, sector: nat, id1: Byte, id2: Byte): (header: seq<Byte>)
    ensures |header| == 8
  {
    [Number(8), Mix(Mix(Mix(Number(sector), Number(track)), id1), id2), Number(sector), Number(track), id1, id2,
     Number(15), Number(15)]
  }

  function Checksum(bytes: seq<Byte>): Byte {
    if bytes == [] then ZERO else Mix(Checksum(bytes[..|bytes| - 1]), bytes[|bytes| - 1])
  }

  function Block(bytes: seq<Byte>): (block: seq<Byte>)
    ensures |block| == |bytes| + 4
  {
    [Number(7)] + bytes + [Checksum(bytes), ZERO, ZERO]
  }

  /** Sync, header, gap, sync, data, gap. */
  function Framed(header: seq<Byte>, block: seq<Byte>): (out: seq<Byte>)
    ensures |out| == 30 + |header| / 4 * 5 + |block| / 4 * 5
  {
    SYNC + Encode(header) + Encode(GAP) + SYNC + Encode(block) + Encode(GAP)
  }

  function Id(image: seq<Byte>, k: nat): Byte
    requires |image| == IMAGE_SIZE && k < 2
  {
    SectorsFit(18, 0);
    image[SectorStart(18, 0) + 162 + k]
  }

  /** The 256 bytes of a sector. */
  function SectorBytes(track: nat, sector: nat, image: seq<Byte>): (bytes: seq<Byte>)
    requires IsSectorId(track, sector) && |image| == IMAGE_SIZE
    ensures |bytes| == 256
  {
    SectorsFit(track, sector);
    image[SectorStart(track, sector)..SectorStart(track, sector) + 256]
  }

  function SectorImage(track: nat, sector: nat, image: seq<Byte>): seq<Byte>
    requires IsSectorId(track, sector) && |image| == IMAGE_SIZE
  {
    Framed(Header(track, sector, Id(image, 0), Id(image, 1)), Block(SectorBytes(track, sector, image)))
  }

  /** What the encoder leaves of the cleared buffer. */
  const REST: seq<Byte> := [ZERO, ZERO, ZERO, ZERO, ZERO]

  /** What goes to the file for a sector. */
  function Written(track: nat, sector: nat, image: seq<Byte>): seq<Byte>
    requires IsSectorId(track, sector) && |image| == IMAGE_SIZE
  {
    SectorImage(track, sector, image) + REST
  }

  // ------------------------------------------------------------ the emulated drive

  /** A buffer with `bytes` stored from `at` on. */
  function Put(buffer: seq<Byte>, at: nat, bytes: seq<Byte>): (after: seq<Byte>)
    requires at + |bytes| <= |buffer|
    ensures |after| == |buffer|
  {
    buffer[..at] + bytes + buffer[at + |bytes|..]
  }

  lemma PutFirst(buffer: seq<Byte>, bytes: seq<Byte>)
    requires |bytes| <= |buffer|
    ensures Put(buffer, 0, bytes) == bytes + buffer[|bytes|..]
  {
  }

  lemma PutBehind(buffer: seq<Byte>, at: nat, a: seq<Byte>, b: seq<Byte>)
    requires at + |a| + |b| <= |buffer|
    ensures Put(Put(buffer, at, a), at + |a|, b) == Put(buffer, at, a + b)
  {
  }

  /** vc1541 with its gcr_helper. */
  class Drive {
    const head: array<Byte>
    const data: array<Byte>
    var count: nat
    const offsets: array<nat>
    const d64: array?<Byte>

    /** What has been fed to the helper since the buffer was `was` and the stream began at `begin`. */
    ghost var fed: seq<Byte>
    ghost var begin: nat
    ghost var was: seq<Byte>

    ghost predicate Valid()
      reads `count
    {
      && head.Length == 370 && data.Length == 4 && offsets.Length == MAX_TRACKS
      && head != data && (d64 != null ==> d64.Length == IMAGE_SIZE && d64 != head && d64 != data) && count < 4
    }

    /** The bytes fed so far are in the buffer as far as they make groups of four; the rest is in the helper. */
    ghost predicate Streaming(pos: nat)
      reads this, head, data
    {
      && Valid() && |was| == 370 && pos == begin + |fed| / 4 * 5 <= 370
      && head[..] == Put(was, begin, Encode(fed)) && count == |fed| % 4 && data[..count] == Held(fed)
    }

    lemma Streamed(pos: nat)
      requires Streaming(pos)
      ensures Valid() && |was| == 370 && pos == begin + |fed| / 4 * 5 <= 370 && count == |fed| % 4
      ensures head[..] == Put(was, begin, Encode(fed))
    {
    }

    constructor (d64: array?<Byte>)
      requires d64 != null ==> d64.Length == IMAGE_SIZE
      ensures Valid() && this.d64 == d64 && fresh(head) && fresh(data) && fresh(offsets)
    {
      this.d64 := d64;
      head := new Byte[370](_ => ZERO);
      data := new Byte[4](_ => ZERO);
      offsets := new nat[MAX_TRACKS](_ => 0);
      count, fed, begin, was := 0, [], 0, [];
    }

    /** cbm_drive_open_helper, up to the last slot of the table. */
    method OpenHelper()
      requires offsets.Length == MAX_TRACKS
      modifies offsets
      ensures forall t :: 0 <= t < MAX_TRACKS ==> offsets[t] == TrackStart(t)
    {
      hide SectorsPerTrack, TrackStart;
      FirstTrackStart();
      offsets[0] := 0;
      var i: nat := 1;
      while i < MAX_TRACKS
        invariant 1 <= i <= MAX_TRACKS
        invariant forall t :: 0 <= t < i ==> offsets[t] == TrackStart(t)
      {
        NextTrackStart(i - 1);
        offsets[i] := offsets[i - 1] + SectorsPerTrack(i - 1) * 256;
        i := i + 1;
      }
    }

    /** d64_tracksector2offset. */
    method Offset(track: nat, sector: nat) returns (offset: nat)
      requires 1 <= track <= MAX_TRACKS && offsets.Length == MAX_TRACKS
      requires forall t :: 0 <= t < MAX_TRACKS ==> offsets[t] == TrackStart(t)
      ensures offset == SectorStart(track, sector)
    {
      offset := offsets[track - 1] + sector * 256;
    }

    /** gcr_double_2_gcr. */
    method Double2Gcr(a: Byte, b: Byte, c: Byte, d: Byte, dest: nat)
      requires dest + 5 <= head.Length
      modifies head
      ensures head[..] == Put(old(head[..]), dest, Pack(a, b, c, d))
    {
      hide Pack;
      var packed := Pack(a, b, c, d);
      head[dest], head[dest + 1], head[dest + 2], head[dest + 3], head[dest + 4]
        := packed[0], packed[1], packed[2], packed[3], packed[4];
    }

    /** vc1541_sector_start. */
    method Start(ghost pos: nat)
      requires Valid() && pos <= 370
      modifies `count, `fed, `begin, `was
      ensures Streaming(pos) && fed == [] && begin == pos && was == head[..] && count == 0
    {
      count := 0;
      GoOn(pos);
    }

    /** A stream begins where another has ended: the helper is not reset, it is empty. */
    ghost method GoOn(pos: nat)
      requires Valid() && count == 0 && pos <= 370
      modifies `fed, `begin, `was
      ensures Streaming(pos) && fed == [] && begin == pos && was == head[..]
    {
      fed, begin, was := [], pos, head[..];
    }

    /** vc1541_sector_data. */
    method Feed(d: Byte, pos: nat) returns (next: nat)
      requires Streaming(pos) && begin + (|fed| + 1) / 4 * 5 <= 370
      modifies `count, `fed, head, data
      ensures Streaming(next) && fed == old(fed) + [d] && |fed| == |old(fed)| + 1
      ensures next == begin + |fed| / 4 * 5
    {
      hide Pack, Encode, Held, Put;
      ghost var before := fed;
      if count < 3 { OneMore(before, d); } else { FourthOne(before, d); }
      data[count] := d;
      count := count + 1;
      fed := fed + [d];
      next := pos;
      assert data[..count] == Held(before) + [d];
      if count == 4 {
        PutBehind(was, begin, Encode(before), Pack(data[0], data[1], data[2], data[3]));
        Double2Gcr(data[0], data[1], data[2], data[3], pos);
        next := pos + 5;
        count := 0;
      }
    }

    /** The five stores of a sync mark. */
    method Sync(pos: nat) returns (next: nat)
      requires pos + 5 <= head.Length
      modifies head
      ensures next == pos + 5 && head[..] == Put(old(head[..]), pos, SYNC)
    {
      hide ONES;
      next := pos;
      head[next] := ONES; next := next + 1;
      head[next] := ONES; next := next + 1;
      head[next] := ONES; next := next + 1;
      head[next] := ONES; next := next + 1;
      head[next] := ONES; next := next + 1;
    }

    method WriteGap(pos: nat) returns (next: nat)
      requires pos + 10 <= head.Length
      modifies head
      ensures next == pos + 10 && head[..] == Put(old(head[..]), pos, Encode(GAP))
    {
      hide Pack, Encode, ZERO, Put;
      GapIsTwo();
      PutBehind(head[..], pos, Pack(ZERO, ZERO, ZERO, ZERO), Pack(ZERO, ZERO, ZERO, ZERO));
      next := pos;
      Double2Gcr(ZERO, ZERO, ZERO, ZERO, next);
      next := next + 5;
      Double2Gcr(ZERO, ZERO, ZERO, ZERO, next);
      next := next + 5;
    }

    /** The eight bytes of the header. */
    method WriteHeader(track: nat, sector: nat, id1: Byte, id2: Byte, pos: nat) returns (next: nat)
      requires Valid() && pos + 10 <= 370
      modifies `count, `fed, `begin, `was, head, data
      ensures Valid() && count == 0 && next == pos + 10
      ensures head[..] == Put(old(head[..]), pos, Encode(Header(track, sector, id1, id2)))
    {
      hide Encode, Held, Number, Mix, Streaming;
      Start(pos);
      next := Feed(Number(8), pos);
      var chksum := Mix(Mix(Mix(Number(sector), Number(track)), id1), id2);
      next := Feed(chksum, next);
      next := Feed(Number(sector), next);
      next := Feed(Number(track), next);
      next := Feed(id1, next);
      next := Feed(id2, next);
      next := Feed(Number(15), next);
      next := Feed(Number(15), next);
      assert fed == Header(track, sector, id1, id2);
      Streamed(next);
    }

    /** The loop over the data bytes. */
    method FeedData(offset: nat, pos: nat) returns (next: nat, chksum: Byte)
      requires Streaming(pos) && |fed| == 1 && begin + 320 <= 370 && d64 != null && offset + 256 <= IMAGE_SIZE
      modifies `count, `fed, head, data
      ensures Streaming(next) && fed == old(fed) + d64[offset..offset + 256]
      ensures chksum == Checksum(d64[offset..offset + 256])
    {
      hide Encode, Held, Mix, Streaming;
      Streamed(pos);
      next, chksum := pos, ZERO;
      var j := 0;
      while j < 256
        invariant 0 <= j <= 256 && Streaming(next)
        invariant fed == old(fed) + d64[offset..offset + j] && chksum == Checksum(d64[offset..offset + j])
      {
        assert d64[offset..offset + j + 1][..j] == d64[offset..offset + j];
        assert d64[offset..offset + j + 1] == d64[offset..offset + j] + [d64[offset + j]];
        chksum := Mix(chksum, d64[offset + j]);
        next := Feed(d64[offset + j], next);
        j := j + 1;
      }
    }

    /** The data part: mark, 256 bytes, their checksum, padding. */
    method WriteBlock(offset: nat, pos: nat) returns (next: nat)
      requires Valid() && count == 0 && pos + 325 <= 370 && d64 != null && offset + 256 <= IMAGE_SIZE
      modifies `count, `fed, `begin, `was, head, data
      ensures Valid() && count == 0 && next == pos + 325
      ensures head[..] == Put(old(head[..]), pos, Encode(Block(d64[offset..offset + 256])))
    {
      hide Encode, Held, Number, Mix, Checksum, Streaming;
      GoOn(pos);
      var chksum;
      next := Feed(Number(7), pos);
      next, chksum := FeedData(offset, next);
      next := Feed(chksum, next);
      next := Feed(ZERO, next);
      next := Feed(ZERO, next);
      assert fed == Block(d64[offset..offset + 256]);
      Streamed(next);
    }
  
    /** vc1541_sector_to_gcr. */
    method SectorToGcr(track: nat, sector: nat)
      requires Valid() && IsSectorId(track, sector)
      requires forall t :: 0 <= t < MAX_TRACKS ==> offsets[t] == TrackStart(t)
      modifies `count, `fed, `begin, `was, head, data
      ensures Valid()
      ensures d64 == null ==> head[..] == old(head[..]) && count == old(count)
      ensures d64 != null ==> head[..] == SectorImage(track, sector, d64[..]) + old(head[365..]) && count == 0
    {
      hide TrackStart, Encode, Header, Block, Put;
      if d64 == null {
        return;
      }
      SectorsFit(track, sector);
      SectorsFit(18, 0);
      ghost var image, before := d64[..], head[..];
      var idAt := Offset(18, 0);
      var id1, id2 := d64[idAt + 162], d64[idAt + 163];
      var offset := Offset(track, sector);
      ghost var header, block := Encode(Header(track, sector, id1, id2)), Encode(Block(d64[offset..offset + 256]));
      assert d64[offset..offset + 256] == image[offset..offset + 256];
      assert SectorImage(track, sector, image)
          == Framed(Header(track, sector, id1, id2), Block(d64[offset..offset + 256]));
      var i := Sync(0);
      i := WriteHeader(track, sector, id1, id2, i);
      PutBehind(before, 0, SYNC, header);
      i := WriteGap(i);
      PutBehind(before, 0, SYNC + header, Encode(GAP));
      i := Sync(i);
      PutBehind(before, 0, SYNC + header + Encode(GAP), SYNC);
      i := WriteBlock(offset, i);
      PutBehind(before, 0, SYNC + header + Encode(GAP) + SYNC, block);
      i := WriteGap(i);
      PutBehind(before, 0, SYNC + header + Encode(GAP) + SYNC + block, Encode(GAP));
      PutFirst(before, Framed(Header(track, sector, id1, id2), Block(d64[offset..offset + 256])));
    }

    /** One round of the loop over the sectors: clear the buffer, encode, and hand out what is written to the file. */
    method Produce(track: nat, sector: nat) returns (out: seq<Byte>)
      requires Valid() && IsSectorId(track, sector) && d64 != null
      requires forall t :: 0 <= t < MAX_TRACKS ==> offsets[t] == TrackStart(t)
      modifies `count, `fed, `begin, `was, head, data
      ensures Valid() && out == Written(track, sector, d64[..])
    {
      hide TrackStart, SectorImage;
      var i := 0;
      while i < head.Length
        invariant 0 <= i <= head.Length && forall k :: 0 <= k < i ==> head[k] == ZERO
        modifies head
      {
        head[i] := ZERO;
        i := i + 1;
      }
      assert head[365..] == REST;
      SectorToGcr(track, sector);
      out := head[..];
    }
  }

  /** One more byte for the helper, and the byte that fills it. */
  lemma OneMore(s: seq<Byte>, d: Byte)
    requires |s| % 4 < 3
    ensures Encode(s + [d]) == Encode(s) && Held(s + [d]) == Held(s) + [d] && |s + [d]| % 4 == |s| % 4 + 1
  {
    hide Pack;
    assert (s + [d])[..|s|] == s;
    assert |s + [d]| / 4 == |s| / 4;
  }

  lemma FourthOne(s: seq<Byte>, d: Byte)
    requires |s| % 4 == 3
    ensures |Held(s)| == 3 && |s + [d]| % 4 == 0 && Held(s + [d]) == []
    ensures Encode(s + [d]) == Encode(s) + Pack(Held(s)[0], Held(s)[1], Held(s)[2], d)
  {
    hide Pack;
    var n := |s| - 3;
    assert |s + [d]| / 4 * 4 == |s| + 1 && |s| / 4 * 4 == n;
    assert (s + [d])[..n] == s[..n] && s[..|s| - 1][..|s| - 2] == s[..|s| - 2] && s[..|s| - 2][..n] == s[..n];
    assert Encode(s) == Encode(s[..|s| - 1]) == Encode(s[..|s| - 2]) == Encode(s[..n]);
  }

  lemma GapIsTwo()
    ensures Encode(GAP) == Pack(ZERO, ZERO, ZERO, ZERO) + Pack(ZERO, ZERO, ZERO, ZERO)
  {
    hide Pack, ZERO;
    assert GAP[..4] == [ZERO, ZERO, ZERO, ZERO] && GAP[..4][..0] == [];
    assert Encode(GAP[..4]) == Pack(ZERO, ZERO, ZERO, ZERO);
  }

  // ------------------------------------------------------------ what a sector on disk looks like

  function Ones(n: nat): (bits: seq<bool>)
    ensures |bits| == n
  {
    seq(n, _ => true)
  }

  lemma SyncOnDisk()
    ensures Stream(SYNC) == Ones(40)
  {
    StreamFive(SYNC);
    assert OnDisk(ONES) == Ones(8);
  }

  lemma RestOnDisk()
    ensures |Stream(REST)| == 40 && forall k :: 0 <= k < 40 ==> !Stream(REST)[k]
  {
    StreamFive(REST);
    assert OnDisk(ZERO) == [false, false, false, false, false, false, false, false];
  }

  lemma StreamSeven(a: seq<Byte>, b: seq<Byte>, c: seq<Byte>, d: seq<Byte>, e: seq<Byte>, f: seq<Byte>, g: seq<Byte>)
    ensures Stream(a + b + c + d + e + f + g)
         == Stream(a) + Stream(b) + Stream(c) + Stream(d) + Stream(e) + Stream(f) + Stream(g)
  {
    hide Stream;
    StreamSplit(a, b);
    StreamSplit(a + b, c);
    StreamSplit(a + b + c, d);
    StreamSplit(a + b + c + d, e);
    StreamSplit(a + b + c + d + e, f);
    StreamSplit(a + b + c + d + e + f, g);
  }

  lemma Regrouped(a: seq<bool>, b: seq<bool>, c: seq<bool>, d: seq<bool>, e: seq<bool>, f: seq<bool>, g: seq<bool>)
    ensures a + b + c + d + e + f + g == a + (b + c) + d + (e + f) + g
  {
    assert a + b + c == a + (b + c);
    assert a + (b + c) + d + e + f == a + (b + c) + d + (e + f);
  }

  lemma FramedOnDisk(header: seq<Byte>, block: seq<Byte>)
    requires |header| % 4 == 0 && |block| % 4 == 0
    ensures Stream(Framed(header, block) + REST)
              == Ones(40) + Codes(header + GAP) + Ones(40) + Codes(block + GAP) + Stream(REST)
  {
    hide Encode, Codes, Stream, Ones, SYNC, GAP, REST;
    StreamSeven(SYNC, Encode(header), Encode(GAP), SYNC, Encode(block), Encode(GAP), REST);
    SyncOnDisk();
    EncodedStream(header); GapOnDisk(); EncodedStream(block);
    CodesSplit(header, GAP);
    CodesSplit(block, GAP);
    Regrouped(Stream(SYNC), Codes(header), Codes(GAP), Stream(SYNC), Codes(block), Codes(GAP), Stream(REST));
  }

  lemma GapOnDisk()
    ensures Stream(Encode(GAP)) == Codes(GAP)
  {
    EncodedStream(GAP);
  }

  /** A sequence of codes that begins with a code that begins with 0 and ends with a code that ends with 0. */
  predicate Bounded(bits: seq<bool>) {
    bits != [] && !bits[0] && !bits[|bits| - 1]
  }

  lemma MarksBeginWithZero()
    ensures High(Number(8)) == 0 && High(Number(7)) == 0
  {
  }

  lemma BeginsWithZero(s: seq<Byte>)
    requires s != [] && High(s[0]) == 0
    ensures !Codes(s)[0]
  {
    CodeAt(s, 0, 0);
  }

  lemma HeaderBounded(track: nat, sector: nat, id1: Byte, id2: Byte)
    ensures Bounded(Codes(Header(track, sector, id1, id2) + GAP))
    ensures |Codes(Header(track, sector, id1, id2) + GAP)| == 160
  {
    hide Number, Mix, Codes, GAP;
    EndsWithGap(Header(track, sector, id1, id2));
    MarksBeginWithZero();
    BeginsWithZero(Header(track, sector, id1, id2) + GAP);
    assert |GAP| == 8 by { GapSize(); }
  }

  lemma BlockBounded(bytes: seq<Byte>)
    requires |bytes| == 256
    ensures Bounded(Codes(Block(bytes) + GAP)) && |Codes(Block(bytes) + GAP)| == 2680
  {
    hide Number, Checksum, Codes, GAP;
    EndsWithGap(Block(bytes));
    MarksBeginWithZero();
    BeginsWithZero(Block(bytes) + GAP);
    assert |GAP| == 8 by { GapSize(); }
  }

  lemma GapSize()
    ensures |GAP| == 8
  {
  }

  lemma EndsWithGap(u: seq<Byte>)
    ensures var bits := Codes(u + GAP); bits != [] && !bits[|bits| - 1]
  {
    var s := u + GAP;
    CodeAt(s, 2 * |s| - 1, 4);
    assert s[|s| - 1] == ZERO;
    assert Low(ZERO) == 0;
  }

  /** Ten ones in a row, the drive's sign of a sync mark, are found in the two sync marks and nowhere else. */
  lemma SyncsOnly(a: seq<bool>, b: seq<bool>, rest: seq<bool>, i: nat)
    requires |a| == 160 && |b| == 2680 && |rest| == 40 && Bounded(a) && Bounded(b) && forall k :: 0 <= k < 40 ==>
               !rest[k]
    requires forall k: nat :: k + 9 <= 160 ==> !AllOnes(a, k, 9)
    requires forall k: nat :: k + 9 <= 2680 ==> !AllOnes(b, k, 9)
    ensures AllOnes(Ones(40) + a + Ones(40) + b + rest, i, 10) <==> i <= 30 || 200 <= i <= 230
  {
    var all := Ones(40) + a + Ones(40) + b + rest;
    assert forall k :: 2920 <= k < 2960 ==> all[k] == rest[k - 2920];
    NoTen(a, all, 40, i);
    NoTen(b, all, 240, i);
    if AllOnes(all, i, 10) {
      assert all[i];
      assert all[40] == a[0] && all[199] == a[159] && all[240] == b[0] && all[2919] == b[2679];
    }
  }

  /** No ten ones inside a part without nine. */
  lemma NoTen(part: seq<bool>, all: seq<bool>, at: nat, i: nat)
    requires at + |part| <= |all| && forall k :: 0 <= k < |part| ==> all[at + k] == part[k]
    requires forall k: nat :: k + 9 <= |part| ==> !AllOnes(part, k, 9)
    ensures at <= i && i + 10 <= at + |part| ==> !AllOnes(all, i, 10)
  {
    if at <= i && i + 10 <= at + |part| {
      assert !AllOnes(part, i - at, 9);
      var k: nat :| i - at <= k < i - at + 9 && !part[k];
      assert !all[at + k];
    }
  }

  /** In the image of any sector. */
  lemma SyncsExactly(track: nat, sector: nat, image: seq<Byte>, i: nat)
    requires IsSectorId(track, sector) && |image| == IMAGE_SIZE
    ensures AllOnes(Stream(Written(track, sector, image)), i, 10) <==> i <= 30 || 200 <= i <= 230
  {
    hide Stream, Codes, Header, Block, AllOnes, Bounded, Framed, REST, GAP, Id, SectorBytes;
    var header := Header(track, sector, Id(image, 0), Id(image, 1));
    var block := Block(SectorBytes(track, sector, image));
    FramedOnDisk(header, block);
    RestOnDisk();
    HeaderBounded(track, sector, Id(image, 0), Id(image, 1));
    BlockBounded(SectorBytes(track, sector, image));
    forall k: nat | k + 9 <= 160 ensures !AllOnes(Codes(header + GAP), k, 9) { NeverNineOnes(header + GAP, k); }
    forall k: nat | k + 9 <= 2680 ensures !AllOnes(Codes(block + GAP), k, 9) { NeverNineOnes(block + GAP, k); }
    SyncsOnly(Codes(header + GAP), Codes(block + GAP), Stream(REST), i);
  }

  /** A bit and what lies above it. */
  lemma BitAbove(u: nat, v: nat, w: nat)
    requires w in {1, 2, 4, 8, 16, 32, 64} && u / (2 * w) == v / (2 * w) && Digit(u, w) == Digit(v, w)
    ensures u / w == v / w
  {
    HalfOf(u, w);
    HalfOf(v, w);
  }

  lemma HalfOf(u: nat, w: nat)
    requires w in {1, 2, 4, 8, 16, 32, 64}
    ensures u / w / 2 == u / (2 * w)
  {
  }

  lemma SameDigits(u: nat, v: nat)
    requires Number(u) == Number(v)
    ensures Digit(u, 1) == Digit(v, 1) && Digit(u, 2) == Digit(v, 2) && Digit(u, 4) == Digit(v, 4)
    ensures Digit(u, 8) == Digit(v, 8)
    ensures Digit(u, 16) == Digit(v, 16) && Digit(u, 32) == Digit(v, 32) && Digit(u, 64) == Digit(v, 64)
    ensures Digit(u, 128) == Digit(v, 128)
  {
    hide Digit;
    var a, b := Number(u), Number(v);
    assert a[0] == b[0] && a[1] == b[1] && a[2] == b[2] && a[3] == b[3];
    assert a[4] == b[4] && a[5] == b[5] && a[6] == b[6] && a[7] == b[7];
  }

  lemma NumberDetermines(u: nat, v: nat)
    requires u < 256 && v < 256 && Number(u) == Number(v)
    ensures u == v
  {
    hide Number;
    SameDigits(u, v);
    assert u / 128 == v / 128;
    hide Digit;
    BitAbove(u, v, 64);
    BitAbove(u, v, 32);
    BitAbove(u, v, 16);
    BitAbove(u, v, 8);
    BitAbove(u, v, 4);
    BitAbove(u, v, 2);
    BitAbove(u, v, 1);
  }

  /** From what is written for a sector its number, its track, the disk's id and all its bytes can be read back. */
  lemma WrittenDetermines(t: nat, s: nat, image: seq<Byte>, t': nat, s': nat, image': seq<Byte>)
    requires IsSectorId(t, s) && |image| == IMAGE_SIZE && IsSectorId(t', s') && |image'| == IMAGE_SIZE
    requires Written(t, s, image) == Written(t', s', image')
    ensures t == t' && s == s' && Id(image, 0) == Id(image', 0) && Id(image, 1) == Id(image', 1)
    ensures SectorBytes(t, s, image) == SectorBytes(t', s', image')
  {
    hide Encode, Number, Checksum, Id, SectorBytes, ZERO, ONES, Mix;
    var h, h' := Header(t, s, Id(image, 0), Id(image, 1)), Header(t', s', Id(image', 0), Id(image', 1));
    var b, b' := Block(SectorBytes(t, s, image)), Block(SectorBytes(t', s', image'));
    SameParts(h, b, h', b');
    assert h[2] == h'[2] && h[3] == h'[3] && h[4] == h'[4] && h[5] == h'[5];
    NumberDetermines(t, t');
    NumberDetermines(s, s');
    assert b[1..257] == SectorBytes(t, s, image) && b'[1..257] == SectorBytes(t', s', image');
  }

  lemma SameParts(h: seq<Byte>, b: seq<Byte>, h': seq<Byte>, b': seq<Byte>)
    requires |h| == |h'| == 8 && |b| == |b'| == 260
    requires Framed(h, b) + REST == Framed(h', b') + REST
    ensures h == h' && b == b'
  {
    hide Encode;
    var w, w' := Framed(h, b) + REST, Framed(h', b') + REST;
    assert w[5..15] == Encode(h) && w'[5..15] == Encode(h');
    assert w[30..355] == Encode(b) && w'[30..355] == Encode(b');
    UniquelyDecodable(h, h');
    UniquelyDecodable(b, b');
  }

  lemma MixCancels(a: Byte, b: Byte, c: Byte)
    ensures Mix(a, a) == ZERO && Mix(ZERO, a) == a
    ensures Mix(a, c) == Mix(b, c) ==> a == b
    ensures Mix(c, a) == Mix(c, b) ==> a == b
  {
    if Mix(a, c) == Mix(b, c) {
      forall k | 0 <= k < 8 ensures a[k] == b[k] { assert Mix(a, c)[k] == Mix(b, c)[k]; }
    }
    if Mix(c, a) == Mix(c, b) {
      forall k | 0 <= k < 8 ensures a[k] == b[k] { assert Mix(c, a)[k] == Mix(c, b)[k]; }
    }
  }

  /** The bytes and their checksum cancel, as the drive's own test has it. */
  lemma ChecksumCancels(bytes: seq<Byte>)
    ensures Checksum(bytes + [Checksum(bytes)]) == ZERO
  {
    assert (bytes + [Checksum(bytes)])[..|bytes|] == bytes;
    MixCancels(Checksum(bytes), ZERO, ZERO);
  }

  /** The checksum tells two blocks apart that differ in exactly one byte. */
  lemma {:induction false} ChecksumDetects(bytes: seq<Byte>, at: nat, wrong: Byte)
    requires at < |bytes| && wrong != bytes[at]
    ensures Checksum(bytes[at := wrong]) != Checksum(bytes)
  {
    hide Mix;
    var n := |bytes| - 1;
    if at < n {
      ChecksumDetects(bytes[..n], at, wrong);
      assert bytes[at := wrong][..n] == bytes[..n][at := wrong];
      MixCancels(Checksum(bytes[..n]), Checksum(bytes[..n][at := wrong]), bytes[n]);
    } else {
      assert bytes[at := wrong][..n] == bytes[..n];
      MixCancels(bytes[n], wrong, Checksum(bytes[..n]));
    }
  }

  /** So do bytes 1 to 5 of the header, and a single wrong one among them is noticed. */
  lemma HeaderChecks(track: nat, sector: nat, id1: Byte, id2: Byte, at: nat, wrong: Byte)
    requires 1 <= at < 6 && wrong != Header(track, sector, id1, id2)[at]
    ensures Checksum(Header(track, sector, id1, id2)[1..6]) == ZERO
    ensures Checksum(Header(track, sector, id1, id2)[at := wrong][1..6]) != ZERO
  {
    hide Number;
    var h, s, t := Header(track, sector, id1, id2), Number(sector), Number(track);
    var sum := Mix(Mix(Mix(s, t), id1), id2);
    assert h[1..6] == [sum, s, t, id1, id2];
    SumOfFive(sum, s, t, id1, id2);
    assert Mix(Mix(Mix(Mix(sum, s), t), id1), id2) == ZERO;
    assert h[at := wrong][1..6] == h[1..6][at - 1 := wrong];
    ChecksumDetects(h[1..6], at - 1, wrong);
  }

  lemma SumOfFive(a: Byte, b: Byte, c: Byte, d: Byte, e: Byte)
    ensures Checksum([a, b, c, d, e]) == Mix(Mix(Mix(Mix(a, b), c), d), e)
  {
    hide Mix;
    assert Checksum([]) == ZERO && [a][..0] == [] && [a, b][..1] == [a] && [a, b, c][..2] == [a, b];
    assert [a, b, c, d][..3] == [a, b, c] && [a, b, c, d, e][..4] == [a, b, c, d];
    assert Checksum([a]) == Mix(ZERO, a) == a by { MixCancels(a, a, a); }
    assert Checksum([a, b]) == Mix(a, b);
    assert Checksum([a, b, c]) == Mix(Mix(a, b), c);
    assert Checksum([a, b, c, d]) == Mix(Mix(Mix(a, b), c), d);
  }

  // ------------------------------------------------------------ what a drive reads

  function Value(b: Byte): nat {
    Weight(b[0], 1) + 2 * Weight(b[1], 1) + 4 * Weight(b[2], 1) + 8 * Weight(b[3], 1)
    + 16 * Weight(b[4], 1) + 32 * Weight(b[5], 1) + 64 * Weight(b[6], 1) + 128 * Weight(b[7], 1)
  }

  /** Two codes from bit `at` on stand for the byte value `v`. */
  predicate Reads(bits: seq<bool>, at: nat, v: nat) {
    v < 256 && at + 10 <= |bits| && bits[at..at + 5] == Five(v / 16) && bits[at + 5..at + 10] == Five(v % 16)
  }

  lemma NibblesOf(b: Byte)
    ensures Value(b) < 256 && Value(b) / 16 == High(b) && Value(b) % 16 == Low(b)
  {
    assert Value(b) == 16 * High(b) + Low(b);
  }

  lemma NumberBit(v: nat, k: nat)
    requires k < 8
    ensures Weight(Number(v)[k], 1) == v / [1, 2, 4, 8, 16, 32, 64, 128][k] % 2
  {
  }

  lemma ValueOfNumber(v: nat)
    requires v < 256
    ensures Value(Number(v)) == v
  {
    hide Value, Number;
    DigitsOfValue(v);
    SumOfDigits(v);
  }

  lemma DigitsOfValue(v: nat)
    ensures Value(Number(v)) == v % 2 + 2 * (v / 2 % 2) + 4 * (v / 4 % 2) + 8 * (v / 8 % 2)
                                + 16 * (v / 16 % 2) + 32 * (v / 32 % 2) + 64 * (v / 64 % 2) + 128 * (v / 128 % 2)
  {
    hide Weight, Number;
    NumberBit(v, 0); NumberBit(v, 1); NumberBit(v, 2); NumberBit(v, 3);
    NumberBit(v, 4); NumberBit(v, 5); NumberBit(v, 6); NumberBit(v, 7);
  }

  lemma SumOfDigits(v: nat)
    requires v < 256
    ensures v % 2 + 2 * (v / 2 % 2) + 4 * (v / 4 % 2) + 8 * (v / 8 % 2)
            + 16 * (v / 16 % 2) + 32 * (v / 32 % 2) + 64 * (v / 64 % 2) + 128 * (v / 128 % 2) == v
  {
    assert v / 2 / 2 == v / 4 && v / 4 / 2 == v / 8 && v / 8 / 2 == v / 16 && v / 16 / 2 == v / 32;
    assert v / 32 / 2 == v / 64 && v / 64 / 2 == v / 128 && v / 128 < 2;
  }

  lemma CodesRead(s: seq<Byte>, k: nat)
    requires k < |s|
    ensures Reads(Codes(s), 10 * k, Value(s[k]))
  {
    hide Five, High, Low, Codes, Value, Reads;
    NibblesOf(s[k]);
    forall i | 0 <= i < 5 ensures Codes(s)[10 * k..][i] == Five(High(s[k]))[i] {
      CodeAt(s, 2 * k, i);
    }
    forall i | 0 <= i < 5 ensures Codes(s)[10 * k..][5 + i] == Five(Low(s[k]))[i] {
      CodeAt(s, 2 * k + 1, i);
    }
    TwoCodes(Codes(s), 10 * k, Value(s[k]));
  }

  lemma TwoCodes(bits: seq<bool>, at: nat, v: nat)
    requires v < 256 && at + 10 <= |bits|
    requires forall i :: 0 <= i < 5 ==> bits[at..][i] == Five(v / 16)[i]
    requires forall i :: 0 <= i < 5 ==> bits[at..][5 + i] == Five(v % 16)[i]
    ensures Reads(bits, at, v)
  {
    hide Five;
    assert bits[at..at + 5] == bits[at..][..5] && bits[at + 5..at + 10] == bits[at..][5..10];
  }

  lemma ReadsInside(part: seq<bool>, all: seq<bool>, at: nat, i: nat, v: nat)
    requires at + |part| <= |all| && all[at..at + |part|] == part && Reads(part, i, v)
    ensures Reads(all, at + i, v)
  {
    hide Five;
    assert forall k :: at + i <= k < at + i + 10 ==> all[k] == all[at..at + |part|][k - at];
    assert all[at + i..at + i + 5] == part[i..i + 5] && all[at + i + 5..at + i + 10] == part[i + 5..i + 10];
  }

  lemma PartReads(part: seq<Byte>, w: seq<bool>, at: nat, k: nat)
    requires k < |part| && at + 10 * |part| <= |w| && w[at..at + 10 * |part|] == Codes(part)
    ensures Reads(w, at + 10 * k, Value(part[k]))
  {
    hide Reads, Codes, Value;
    CodesRead(part, k);
    ReadsInside(Codes(part), w, at, 10 * k, Value(part[k]));
  }

  /** Where the two parts lie in what is written for a sector. */
  lemma PartsOnDisk(track: nat, sector: nat, image: seq<Byte>)
    requires IsSectorId(track, sector) && |image| == IMAGE_SIZE
    ensures var w := Stream(Written(track, sector, image));
            && |w| == 2960 && w[40..200] == Codes(Header(track, sector, Id(image, 0), Id(image, 1)) + GAP)
            && w[240..2920] == Codes(Block(SectorBytes(track, sector, image)) + GAP)
            && forall k :: 2920 <= k < 2960 ==> !w[k]
  {
    hide Stream, Codes, Header, Block, Framed, REST, GAP, Id, SectorBytes, Bounded;
    var header := Header(track, sector, Id(image, 0), Id(image, 1));
    var block := Block(SectorBytes(track, sector, image));
    FramedOnDisk(header, block);
    RestOnDisk();
    HeaderBounded(track, sector, Id(image, 0), Id(image, 1));
    BlockBounded(SectorBytes(track, sector, image));
  }

  /** The header of a sector of the disk reads as mark, checksum, sector, track, the disk's id, two filling bytes and
      eight zeros; the id is the two bytes at 0xA2 of the first sector of track 18. */
  lemma HeaderReads(track: nat, sector: nat, image: seq<Byte>)
    requires IsSectorId(track, sector) && |image| == IMAGE_SIZE
    ensures var w := Stream(Written(track, sector, image));
            && Reads(w, 40, 0x08) && Reads(w, 60, sector) && Reads(w, 70, track)
            && Reads(w, 80, Value(image[91392 + 0xA2])) && Reads(w, 90, Value(image[91392 + 0xA3]))
            && Reads(w, 100, 0x0F) && Reads(w, 110, 0x0F) && (forall k: nat :: k < 8 ==> Reads(w, 120 + 10 * k, 0))
            && Reads(w, 50, Value(Header(track, sector, Id(image, 0), Id(image, 1))[1]))
  {
    hide Stream, Codes, Written, Reads, Value, GAP, Number, Id, Mix;
    var h := Header(track, sector, Id(image, 0), Id(image, 1));
    var w := Stream(Written(track, sector, image));
    PartsOnDisk(track, sector, image);
    var part := h + GAP;
    assert |GAP| == 8 by { GapSize(); }
    PartReads(part, w, 40, 0); PartReads(part, w, 40, 1); PartReads(part, w, 40, 2); PartReads(part, w, 40, 3);
    PartReads(part, w, 40, 4); PartReads(part, w, 40, 5); PartReads(part, w, 40, 6); PartReads(part, w, 40, 7);
    ValueOfNumber(8);
    ValueOfNumber(15);
    ValueOfNumber(track);
    ValueOfNumber(sector);
    IdIsAt(image);
    forall k: nat | k < 8 ensures Reads(w, 120 + 10 * k, 0) {
      PartReads(part, w, 40, k + 8);
      GapIsZero(h, k);
    }
  }

  lemma IdIsAt(image: seq<Byte>)
    requires |image| == IMAGE_SIZE
    ensures Id(image, 0) == image[91392 + 0xA2] && Id(image, 1) == image[91392 + 0xA3]
  {
    ZoneStart(17);
  }

  lemma GapIsZero(u: seq<Byte>, k: nat)
    requires k < 8
    ensures |GAP| == 8 && (u + GAP)[|u| + k] == ZERO && Value(ZERO) == 0
  {
  }

  /** The data part reads as mark, the sector's bytes in order, their checksum, two zeros and eight more; behind it no
      bit is set. */
  lemma DataReads(track: nat, sector: nat, image: seq<Byte>)
    requires IsSectorId(track, sector) && |image| == IMAGE_SIZE
    ensures SectorStart(track, sector) + 256 <= IMAGE_SIZE
    ensures var w := Stream(Written(track, sector, image));
            var at := SectorStart(track, sector);
            && Reads(w, 240, 0x07) && (forall k: nat :: k < 256 ==> Reads(w, 250 + 10 * k, Value(image[at + k])))
            && Reads(w, 2810, Value(Checksum(image[at..at + 256]))) && Reads(w, 2820, 0) && Reads(w, 2830, 0)
            && (forall k: nat :: k < 8 ==> Reads(w, 2840 + 10 * k, 0))
            && |w| == 2960 && forall k :: 2920 <= k < 2960 ==> !w[k]
  {
    hide Stream, Codes, Written, Reads, Value, GAP, Number, Checksum, SectorStart;
    SectorsFit(track, sector);
    var bytes := SectorBytes(track, sector, image);
    var b := Block(bytes);
    var w := Stream(Written(track, sector, image));
    PartsOnDisk(track, sector, image);
    assert |GAP| == 8 by { GapSize(); }
    var part := b + GAP;
    PartReads(part, w, 240, 0); PartReads(part, w, 240, 257); PartReads(part, w, 240, 258);
    PartReads(part, w, 240, 259);
    forall k: nat | k < 256 ensures Reads(w, 250 + 10 * k, Value(bytes[k])) {
      PartReads(part, w, 240, k + 1);
    }
    ValueOfNumber(7);
    forall k: nat | k < 8 ensures Reads(w, 2840 + 10 * k, 0) {
      PartReads(part, w, 240, k + 260);
      GapIsZero(b, k);
    }
    GapIsZero(b, 0);
  }

  /** Where the tracks begin, zone by zone. */
  lemma {:induction false} ZoneStart(track: nat)
    requires track <= MAX_TRACKS
    ensures TrackStart(track) == if track <= 17 then 5376 * track else if track <= 24 then 91392 + 4864 * (track - 17)
                                 else if track <= 30 then 125440 + 4608 * (track - 24)
                                 else 153088 + 4352 * (track - 30)
  {
    if track == 0 {
    } else {
      ZoneStart(track - 1);
    }
  }
}
