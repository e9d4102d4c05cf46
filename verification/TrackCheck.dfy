/** The track recogniser of chkrtf.cpp: a byte automaton that counts the complete sectors on a raw MFM track. */
module TrackCheck {
  import opened Storage

  datatype State = Unknown
                 | Gap2Fill | Gap2Zero | Gap2Sync
                 | IdAddrMark | Track | Side | Sector | SecLen | Crc1
                 | Gap3Fill | Gap3Zero | Gap3Sync
                 | Dam | UserData | Crc2

  const MIN_GAP2_4E: nat := 15
  const MIN_GAP2_00: nat := 8

  /** The variables the loop carries from byte to byte. */
  datatype Auto = Auto(state: State, count: nat, nSecs: nat)

  /** The iteration that takes no byte. */
  function Wake(a: Auto): Auto {
    if a.state.Unknown? then a.(state := Gap2Fill, count := 0) else a
  }

  function Lost(a: Auto): Auto {
    a.(state := Unknown)
  }

  function Next(a: Auto, state: State, count: nat): Auto {
    a.(state := state, count := count)
  }

  /** A run of `b == fill` of at least `least`, then `next` begins a new run. */
  function Gap(a: Auto, b: Byte, fill: Byte, least: nat, next: Byte, state: State): Auto {
    if b == fill then (if a.count < least then a.(count := a.count + 1) else a)
    else if b == next && a.count == least then Next(a, state, 1)
    else Lost(a)
  }

  /** One byte. */
  function Consume(a: Auto, b: Byte): Auto
    requires !a.state.Unknown?
  {
    match a.state
    case Gap2Fill => Gap(a, b, 0x4E, MIN_GAP2_4E, 0x00, Gap2Zero)
    case Gap2Zero => Gap(a, b, 0x00, MIN_GAP2_00, 0xA1, Gap2Sync)
    case Gap2Sync =>
      if b == 0xA1 then Next(a, if a.count + 1 == 3 then IdAddrMark else Gap2Sync, a.count + 1) else Lost(a)
    case IdAddrMark => if b == 0xFE then a.(state := Track) else Lost(a)
    case Track => a.(state := Side)
    case Side => a.(state := Sector)
    case Sector => a.(state := SecLen)
    case SecLen => Next(a, Crc1, 0)
    case Crc1 => if a.count + 1 == 2 then Next(a, Gap3Fill, 0) else a.(count := a.count + 1)
    case Gap3Fill => Gap(a, b, 0x4E, 22, 0x00, Gap3Zero)
    case Gap3Zero => Gap(a, b, 0x00, 8, 0xA1, Gap3Sync)
    case Gap3Sync =>
      if b == 0xA1 then Next(a, if a.count + 1 == 3 then Dam else Gap3Sync, a.count + 1) else Lost(a)
    case Dam => Next(a, UserData, 0)
    case UserData => if a.count + 1 == 256 then Next(a, Crc2, 0) else a.(count := a.count + 1)
    case Crc2 =>
      if a.count + 1 == 2 then Auto(Unknown, 2, a.nSecs + 1) else a.(count := a.count + 1)
  }

  function Feed(a: Auto, bytes: seq<Byte>): Auto {
    if bytes == [] then a else Consume(Wake(Feed(a, bytes[..|bytes| - 1])), bytes[|bytes| - 1])
  }

  const START: Auto := Auto(Unknown, 0, 0)

  // ------------------------------------------------------------ what counts as a sector

  predicate All(w: seq<Byte>, from: nat, to: nat, v: Byte) {
    from <= to <= |w| && forall i :: from <= i < to ==> w[i] == v
  }

  /** `w[s..e]` has the layout of a sector: first gap up to `p`, zeros up to `h`, header, second gap from `h + 10` up to
      `q`, zeros up to `m`, data field. */
  ghost predicate Layout(w: seq<Byte>, s: nat, p: nat, h: nat, q: nat, m: nat, e: nat) {
    && HeaderAt(w, s, p, h) && GapAt(w, h + 10, q, m) && e == m + 262 <= |w|
    && All(w, m, m + 3, 0xA1)
  }

  /** At least 15 bytes 4E, at least 8 bytes 00, three A1, FE, four id bytes, two check bytes. */
  ghost predicate HeaderAt(w: seq<Byte>, s: nat, p: nat, h: nat) {
    && s + 15 <= p && p + 8 <= h && h + 10 <= |w|
    && All(w, s, p, 0x4E) && All(w, p, h, 0x00) && All(w, h, h + 3, 0xA1) && w[h + 3] == 0xFE
  }

  /** At least 22 bytes 4E, at least 8 bytes 00. */
  ghost predicate GapAt(w: seq<Byte>, k: nat, q: nat, m: nat) {
    k + 22 <= q && q + 8 <= m <= |w| && All(w, k, q, 0x4E) && All(w, q, m, 0x00)
  }

  /** The window from `s` to `e` is a sector. */
  ghost predicate IsSector(w: seq<Byte>, s: nat, e: nat) {
    exists p: nat, h: nat, q: nat, m: nat :: Layout(w, s, p, h, q, m, e)
  }

  /** Windows of `w[..end]` that are sectors, one behind the other. */
  ghost predicate Windows(w: seq<Byte>, ws: seq<(nat, nat)>, end: nat) {
    && (forall i :: 0 <= i < |ws| ==> IsSector(w, ws[i].0, ws[i].1) && ws[i].1 <= end)
    && (forall i, j :: 0 <= i < j < |ws| ==> ws[i].1 <= ws[j].0)
  }

  function Min(a: nat, b: nat): nat { if a < b then a else b }

  /** Where in a sector the automaton stands after `w[..i]`, with the boundaries passed so far. */
  ghost predicate Within(w: seq<Byte>, i: nat, state: State, count: nat, s: nat, p: nat, h: nat, q: nat, m: nat) {
    match state
    case Unknown => true
    case Gap2Fill => All(w, s, i, 0x4E) && count == Min(i - s, 15)
    case Gap2Zero => s + 15 <= p < i && All(w, s, p, 0x4E) && All(w, p, i, 0x00) && count == Min(i - p, 8)
    case Gap2Sync =>
      s + 15 <= p && p + 8 <= h && All(w, s, p, 0x4E) && All(w, p, h, 0x00) && All(w, h, i, 0xA1) &&
          i == h + count && 1 <= count <= 2
    case IdAddrMark =>
      s + 15 <= p && p + 8 <= h && All(w, s, p, 0x4E) && All(w, p, h, 0x00) && All(w, h, i, 0xA1) && i == h + 3
    case Track => InHeader(w, i, s, p, h) && i == h + 4
    case Side => InHeader(w, i, s, p, h) && i == h + 5
    case Sector => InHeader(w, i, s, p, h) && i == h + 6
    case SecLen => InHeader(w, i, s, p, h) && i == h + 7
    case Crc1 => InHeader(w, i, s, p, h) && i == h + 8 + count && count <= 1
    case Gap3Fill => HeaderAt(w, s, p, h) && All(w, h + 10, i, 0x4E) && count == Min(i - (h + 10), 22)
    case Gap3Zero =>
      HeaderAt(w, s, p, h) && h + 32 <= q < i && All(w, h + 10, q, 0x4E) && All(w, q, i, 0x00) && count == Min(i - q, 8)
    case Gap3Sync =>
      HeaderAt(w, s, p, h) && GapAt(w, h + 10, q, m) && All(w, m, i, 0xA1) && i == m + count && 1 <= count <= 2
    case Dam => HeaderAt(w, s, p, h) && GapAt(w, h + 10, q, m) && All(w, m, m + 3, 0xA1) && i == m + 3
    case UserData =>
      HeaderAt(w, s, p, h) && GapAt(w, h + 10, q, m) && All(w, m, m + 3, 0xA1) && i == m + 4 + count && count < 256
    case Crc2 =>
      HeaderAt(w, s, p, h) && GapAt(w, h + 10, q, m) && All(w, m, m + 3, 0xA1) && i == m + 260 + count && count < 2
  }

  ghost predicate InHeader(w: seq<Byte>, i: nat, s: nat, p: nat, h: nat) {
    && s + 15 <= p && p + 8 <= h && h + 4 <= i <= |w|
    && All(w, s, p, 0x4E) && All(w, p, h, 0x00) && All(w, h, h + 3, 0xA1) && w[h + 3] == 0xFE
  }

  lemma AllNext(w: seq<Byte>, from: nat, to: nat, v: Byte)
    requires to < |w| && (from == to || All(w, from, to, v)) && w[to] == v
    ensures All(w, from, to + 1, v)
  {
  }

  lemma AllNone(w: seq<Byte>, from: nat, v: Byte)
    requires from <= |w|
    ensures All(w, from, from, v)
  {
  }

  /** The place after one more byte: which boundaries have moved. */
  ghost predicate StepsTo(w: seq<Byte>, i: nat, a: Auto, s: nat, p: nat, h: nat, q: nat, m: nat)
    requires i < |w| && !a.state.Unknown?
  {
    var b := Consume(a, w[i]);
    && Within(w, i + 1, b.state, b.count, s, if a.state.Gap2Fill? then i else p, if a.state.Gap2Zero? then i else h,
              if a.state.Gap3Fill? then i else q, if a.state.Gap3Zero? then i else m)
    && if a.state.Crc2? && a.count == 1
       then b.nSecs == a.nSecs + 1 && b.state.Unknown? && Layout(w, s, p, h, q, m, i + 1)
       else b.nSecs == a.nSecs
  }

  lemma StepInHeader(w: seq<Byte>, i: nat, a: Auto, s: nat, p: nat, h: nat, q: nat, m: nat)
    requires i < |w| && s <= i && Within(w, i, a.state, a.count, s, p, h, q, m)
    requires a.state in {Gap2Fill, Gap2Zero, Gap2Sync, IdAddrMark, Track, Side, Sector, SecLen, Crc1}
    ensures StepsTo(w, i, a, s, p, h, q, m)
  {
    hide All;
    match a.state
    case Gap2Fill =>
      if w[i] == 0x4E { AllNext(w, s, i, 0x4E); } else if w[i] == 0x00 { AllNext(w, i, i, 0x00); }
    case Gap2Zero =>
      if w[i] == 0x00 { AllNext(w, p, i, 0x00); } else if w[i] == 0xA1 { AllNext(w, i, i, 0xA1); }
    case Gap2Sync =>
      if w[i] == 0xA1 { AllNext(w, h, i, 0xA1); }
    case Crc1 =>
      if a.count == 1 { AllNone(w, i + 1, 0x4E); }
    case _ =>
  }

  lemma StepInData(w: seq<Byte>, i: nat, a: Auto, s: nat, p: nat, h: nat, q: nat, m: nat)
    requires i < |w| && s <= i && Within(w, i, a.state, a.count, s, p, h, q, m)
    requires a.state in {Gap3Fill, Gap3Zero, Gap3Sync, Dam, UserData, Crc2}
    ensures StepsTo(w, i, a, s, p, h, q, m)
  {
    hide All;
    match a.state
    case Gap3Fill =>
      if w[i] == 0x4E { AllNext(w, h + 10, i, 0x4E); } else if w[i] == 0x00 { AllNext(w, i, i, 0x00); }
    case Gap3Zero =>
      if w[i] == 0x00 { AllNext(w, q, i, 0x00); } else if w[i] == 0xA1 { AllNext(w, i, i, 0xA1); }
    case Gap3Sync =>
      if w[i] == 0xA1 { AllNext(w, m, i, 0xA1); }
    case _ =>
  }

  /** What the automaton has counted are windows in order, and the place it has reached lies behind them. */
  ghost predicate Counted(w: seq<Byte>, i: nat, a: Auto, ws: seq<(nat, nat)>, s: nat, p: nat, h: nat, q: nat, m: nat) {
    && i <= |w| && s <= i && |ws| == a.nSecs && Windows(w, ws, s)
    && Within(w, i, a.state, a.count, s, p, h, q, m) && (a.state.Unknown? ==> s == i)
  }

  /** The track loop of main: the iteration that wakes the automaton takes no byte, every other one takes one. */
  method CountSectors(trkbuf: seq<Byte>) returns (nSecs: nat, ghost ws: seq<(nat, nat)>)
    ensures nSecs == Feed(START, trkbuf).nSecs
    ensures |ws| == nSecs && Windows(trkbuf, ws, |trkbuf|)
  {
    hide Consume, Within, StepsTo, Windows;
    var a := START;
    var i := 0;
    ws := [];
    ghost var s, p, h, q, m := 0, 0, 0, 0, 0;
    NoWindows(trkbuf);
    while i < |trkbuf|
      invariant 0 <= i <= |trkbuf|
      invariant Wake(a) == Wake(Feed(START, trkbuf[..i])) && a.nSecs == Feed(START, trkbuf[..i]).nSecs
      invariant Counted(trkbuf, i, a, ws, s, p, h, q, m)
      decreases |trkbuf| - i, a.state.Unknown?
    {
      if a.state.Unknown? {
        a := Auto(Gap2Fill, 0, a.nSecs);
        Woken(trkbuf, i, s, p, h, q, m);
      } else {
        ghost var before := a;
        a := Consume(a, trkbuf[i]);
        assert trkbuf[..i + 1][..i] == trkbuf[..i];
        ws, s, p, h, q, m := CountOn(trkbuf, i, before, ws, s, p, h, q, m);
        i := i + 1;
      }
    }
    assert trkbuf[..|trkbuf|] == trkbuf;
    Widen(trkbuf, ws, s, |trkbuf|);
    nSecs := a.nSecs;
  }

  lemma NoWindows(w: seq<Byte>)
    ensures Windows(w, [], 0) && Within(w, 0, Unknown, 0, 0, 0, 0, 0, 0)
  {
  }

  lemma Woken(w: seq<Byte>, i: nat, s: nat, p: nat, h: nat, q: nat, m: nat)
    requires i <= |w| && s == i
    ensures Within(w, i, Gap2Fill, 0, s, p, h, q, m)
  {
  }

  lemma Widen(w: seq<Byte>, ws: seq<(nat, nat)>, s: nat, e: nat)
    requires Windows(w, ws, s) && s <= e
    ensures Windows(w, ws, e)
  {
  }

  lemma MoreWindows(w: seq<Byte>, ws: seq<(nat, nat)>, s: nat, e: nat)
    requires Windows(w, ws, s) && IsSector(w, s, e) && s <= e
    ensures Windows(w, ws + [(s, e)], e)
  {
  }

  lemma CountOn(w: seq<Byte>, i: nat, a: Auto, ws: seq<(nat, nat)>, s: nat, p: nat, h: nat, q: nat, m: nat)
    returns (ws': seq<(nat, nat)>, s': nat, p': nat, h': nat, q': nat, m': nat)
    requires i < |w| && !a.state.Unknown? && Counted(w, i, a, ws, s, p, h, q, m)
    ensures Counted(w, i + 1, Consume(a, w[i]), ws', s', p', h', q', m')
  {
    hide Within, Consume, Windows, Layout;
    if a.state in {Gap2Fill, Gap2Zero, Gap2Sync, IdAddrMark, Track, Side, Sector, SecLen, Crc1} {
      StepInHeader(w, i, a, s, p, h, q, m);
    } else {
      StepInData(w, i, a, s, p, h, q, m);
    }
    ws', s', p', h', q', m' := ws, s, if a.state.Gap2Fill? then i else p, if a.state.Gap2Zero? then i else h,
                               if a.state.Gap3Fill? then i else q, if a.state.Gap3Zero? then i else m;
    if a.state.Crc2? && a.count == 1 {
      assert IsSector(w, s, i + 1);
      MoreWindows(w, ws, s, i + 1);
      ws' := ws + [(s, i + 1)];
    }
    if Consume(a, w[i]).state.Unknown? {
      Widen(w, ws', if |ws'| > |ws| then i + 1 else s, i + 1);
      s' := i + 1;
      Lose(w, i + 1, Consume(a, w[i]).count, s', p', h', q', m');
    }
  }

  lemma Lose(w: seq<Byte>, i: nat, count: nat, s: nat, p: nat, h: nat, q: nat, m: nat)
    ensures Within(w, i, Unknown, count, s, p, h, q, m)
  {
  }

  // ------------------------------------------------------------ every sector of a formatted track is counted

  /** A formatted track: padding and sectors in any order. */
  datatype Piece = Pad(length: nat) | Whole(bytes: seq<Byte>)

  function Bytes(piece: Piece): seq<Byte> {
    match piece
    case Pad(n) => seq(n, _ => 0x4E)
    case Whole(bytes) => bytes
  }

  function Formatted(pieces: seq<Piece>): seq<Byte> {
    if pieces == [] then [] else Formatted(pieces[..|pieces| - 1]) + Bytes(pieces[|pieces| - 1])
  }

  function SectorsIn(pieces: seq<Piece>): nat {
    if pieces == [] then 0
    else SectorsIn(pieces[..|pieces| - 1]) + if pieces[|pieces| - 1].Whole? then 1 else 0
  }

  ghost predicate WellFormatted(pieces: seq<Piece>) {
    forall k :: 0 <= k < |pieces| && pieces[k].Whole? ==> IsSector(pieces[k].bytes, 0, |pieces[k].bytes|)
  }

  /** Between sectors. */
  predicate Idle(a: Auto) {
    a.state.Unknown? || (a.state.Gap2Fill? && a.count <= MIN_GAP2_4E)
  }

  lemma {:induction false} FeedSplit(a: Auto, u: seq<Byte>, v: seq<Byte>)
    ensures Feed(a, u + v) == Feed(Feed(a, u), v)
    decreases |v|
  {
    if v == [] {
      assert u + v == u;
    } else {
      FeedSplit(a, u, v[..|v| - 1]);
      assert (u + v)[..|u + v| - 1] == u + v[..|v| - 1];
    }
  }

  /** Padding keeps the automaton between sectors. */
  lemma {:induction false} FeedPad(a: Auto, n: nat)
    requires Idle(a)
    ensures Idle(Feed(a, Bytes(Pad(n)))) && Feed(a, Bytes(Pad(n))).nSecs == a.nSecs
  {
    if n == 0 {
    } else {
      FeedPad(a, n - 1);
      assert Bytes(Pad(n))[..n - 1] == Bytes(Pad(n - 1));
    }
  }

  /** Where the automaton is after `i > 0` bytes of a sector with the given boundaries. */
  function Inside(a: Auto, p: nat, h: nat, q: nat, m: nat, i: nat): Auto
    requires Idle(a) && 0 < i <= m + 262 && p <= h && h + 10 <= q <= m
  {
    var j := if i < h then 0 else i - h;
    var k := if i < m then 0 else i - m;
    if i <= p then Auto(Gap2Fill, Min(Wake(a).count + i, 15), a.nSecs)
    else if i <= h then Auto(Gap2Zero, Min(i - p, 8), a.nSecs)
    else if i < h + 3 then Auto(Gap2Sync, j, a.nSecs)
    else if i < h + 8 then Auto([IdAddrMark, Track, Side, Sector, SecLen][j - 3], 3, a.nSecs)
    else if i < h + 10 then Auto(Crc1, j - 8, a.nSecs)
    else if i <= q then Auto(Gap3Fill, Min(i - (h + 10), 22), a.nSecs)
    else if i <= m then Auto(Gap3Zero, Min(i - q, 8), a.nSecs)
    else if i < m + 3 then Auto(Gap3Sync, k, a.nSecs)
    else if i < m + 4 then Auto(Dam, 3, a.nSecs)
    else if i < m + 260 then Auto(UserData, k - 4, a.nSecs)
    else if i < m + 262 then Auto(Crc2, k - 260, a.nSecs)
    else Auto(Unknown, 2, a.nSecs + 1)
  }

  lemma FirstInside(a: Auto, w: seq<Byte>, p: nat, h: nat, q: nat, m: nat)
    requires Idle(a) && Layout(w, 0, p, h, q, m, |w|)
    ensures Consume(Wake(a), w[0]) == Inside(a, p, h, q, m, 1)
  {
  }

  lemma StepInside(a: Auto, w: seq<Byte>, p: nat, h: nat, q: nat, m: nat, i: nat)
    requires Idle(a) && Layout(w, 0, p, h, q, m, |w|) && 0 < i < |w|
    ensures var b := Inside(a, p, h, q, m, i); !b.state.Unknown? && Consume(b, w[i]) == Inside(a, p, h, q, m, i + 1)
  {
  }

  lemma {:induction false} FeedInside(a: Auto, w: seq<Byte>, p: nat, h: nat, q: nat, m: nat, i: nat)
    requires Idle(a) && Layout(w, 0, p, h, q, m, |w|) && 0 < i <= |w|
    ensures Feed(a, w[..i]) == Inside(a, p, h, q, m, i)
  {
    hide Consume, Inside, Layout;
    assert w[..i][..i - 1] == w[..i - 1];
    if i == 1 {
      FirstInside(a, w, p, h, q, m);
      assert w[..1][..0] == [];
    } else {
      FeedInside(a, w, p, h, q, m, i - 1);
      StepInside(a, w, p, h, q, m, i - 1);
    }
  }

  lemma FeedSector(a: Auto, w: seq<Byte>)
    requires Idle(a) && IsSector(w, 0, |w|)
    ensures Feed(a, w) == Auto(Unknown, 2, a.nSecs + 1)
  {
    hide Consume;
    var p: nat, h: nat, q: nat, m: nat :| Layout(w, 0, p, h, q, m, |w|);
    FeedInside(a, w, p, h, q, m, |w|);
    assert w[..|w|] == w;
  }

  /** A track made of sectors and padding counts exactly its sectors, however short the padding between them is. */
  lemma {:induction false} FormattedCountsAll(pieces: seq<Piece>)
    requires WellFormatted(pieces)
    ensures Idle(Feed(START, Formatted(pieces))) && Feed(START, Formatted(pieces)).nSecs == SectorsIn(pieces)
  {
    hide Consume, IsSector;
    if pieces == [] {
    } else {
      var before, last := pieces[..|pieces| - 1], pieces[|pieces| - 1];
      FormattedCountsAll(before);
      FeedSplit(START, Formatted(before), Bytes(last));
      if last.Pad? {
        FeedPad(Feed(START, Formatted(before)), last.length);
      } else {
        FeedSector(Feed(START, Formatted(before)), last.bytes);
      }
    }
  }
}
