/** 8.3 names of tff.c: get_fileinfo prints the 11 bytes of a directory entry, make_dirfile reads one path segment into
    such bytes. Configuration without Shift-JIS and without the NT flag. Characters are bytes. */
module FatNames {
  import opened Storage

  const SPACE: Byte := 0x20
  const DOT: Byte := 0x2E
  const SLASH: Byte := 0x2F

  /** The 8 + 3 bytes of a name field. */
  type DirName = d: seq<Byte> | |d| == 11 witness seq(11, _ => 0)

  // ------------------------------------------------------------ printing

  function UntilSpace(s: seq<Byte>): seq<Byte> {
    if s == [] || s[0] == SPACE then [] else [s[0]] + UntilSpace(s[1..])
  }

  /** 0x05 stands for 0xE5, which marks a deleted entry ("FAT Directory Structure", DIR_Name[0]). */
  function Shown(c: Byte): Byte {
    if c == 0x05 then 0xE5 else c
  }

  function ShownAll(s: seq<Byte>): (r: seq<Byte>)
    ensures |r| == |s|
  {
    seq(|s|, i requires 0 <= i < |s| => Shown(s[i]))
  }

  /** The printed name: the body up to its first space, and the extension, if it has one, behind a dot. */
  function Printed(d: DirName): seq<Byte> {
    ShownAll(UntilSpace(d[..8])) + if d[8] == SPACE then [] else [DOT] + UntilSpace(d[8..])
  }

  lemma {:induction false} UntilSpaceIs(s: seq<Byte>, n: nat)
    requires n <= |s| && (forall i :: 0 <= i < n ==> s[i] != SPACE) && (n == |s| || s[n] == SPACE)
    ensures UntilSpace(s) == s[..n]
  {
    if n == 0 {
    } else {
      UntilSpaceIs(s[1..], n - 1);
      assert s[..n] == [s[0]] + s[1..][..n - 1];
    }
  }

  lemma BodyIs(d: DirName, n: nat)
    requires n <= 8 && (forall i :: 0 <= i < n ==> d[i] != SPACE) && (n == 8 || d[n] == SPACE)
    ensures UntilSpace(d[..8]) == d[..n]
  {
    UntilSpaceIs(d[..8], n);
    assert d[..8][..n] == d[..n];
  }

  lemma ExtensionIs(d: DirName, n: nat)
    requires 8 <= n <= 11 && (forall i :: 8 <= i < n ==> d[i] != SPACE) && (n == 11 || d[n] == SPACE)
    ensures UntilSpace(d[8..]) == d[8..n]
  {
    UntilSpaceIs(d[8..], n - 8);
    assert d[8..][..n - 8] == d[8..n];
  }

  lemma ShownNext(s: seq<Byte>, n: nat)
    requires n < |s|
    ensures ShownAll(s[..0]) == [] && ShownAll(s[..n + 1]) == ShownAll(s[..n]) + [Shown(s[n])]
  {
  }

  /** The two name loops of get_fileinfo. */
  method PrintName(dir: seq<Byte>) returns (fname: seq<Byte>)
    requires |dir| >= 11
    ensures fname == Printed(dir[..11])
  {
    hide UntilSpace, ShownAll;
    fname := [];
    var n := 0;
    ShownNext(dir, 0);
    while n < 8 && dir[n] != SPACE
      invariant 0 <= n <= 8 && fname == ShownAll(dir[..n])
      invariant forall i :: 0 <= i < n ==> dir[i] != SPACE
    {
      ShownNext(dir, n);
      var c := dir[n];
      if c == 0x05 {
        c := 0xE5;
      }
      fname := fname + [c];
      n := n + 1;
    }
    BodyIs(dir[..11], n);
    assert dir[..11][..n] == dir[..n];
    if dir[8] != SPACE {
      fname := fname + [DOT];
      ghost var head := fname;
      n := 8;
      while n < 11 && dir[n] != SPACE
        invariant 8 <= n <= 11 && fname == head + dir[8..n]
        invariant forall i :: 8 <= i < n ==> dir[i] != SPACE
      {
        fname := fname + [dir[n]];
        n := n + 1;
      }
      ExtensionIs(dir[..11], n);
      assert dir[8..n] == dir[..11][8..n];
    }
  }

  /** Character by character: 0x05 at any place of the body is shown as 0xE5, everything else as it is. */
  lemma PrintedBytes(d: DirName, b: nat, x: nat)
    requires b <= 8 && (forall i :: 0 <= i < b ==> d[i] != SPACE) && (b == 8 || d[b] == SPACE)
    requires x <= 3 && (forall i :: 8 <= i < 8 + x ==> d[i] != SPACE) && (x == 3 || d[8 + x] == SPACE)
    ensures |Printed(d)| == if x == 0 then b else b + 1 + x
    ensures forall i :: 0 <= i < b ==> Printed(d)[i] == if d[i] == 0x05 then 0xE5 else d[i]
    ensures x > 0 ==> Printed(d)[b] == 0x2E && forall i :: 8 <= i < 8 + x ==> Printed(d)[b + 1 + (i - 8)] == d[i]
  {
    hide UntilSpace;
    BodyIs(d, b);
    ExtensionIs(d, 8 + x);
  }

  // ------------------------------------------------------------ reading

  /** What make_dirfile takes into a name: printable, and none of the characters reserved on FAT volumes. The two
      characters it handles before, the dot and the slash, are not among them. */
  predicate Accepted(c: Byte) {
    c > SPACE && c != 0x7F && c != DOT && c != SLASH && c != 0x22 && !(0x2A <= c <= 0x2C) && !(0x3A <= c <= 0x3F)
    && c != 0x7C && !(0x5B <= c <= 0x5D)
  }

  function Upper(c: Byte): Byte {
    if 0x61 <= c <= 0x7A then c - 0x20 else c
  }

  /** These are letters, digits, sixteen other characters, and everything beyond ASCII. */
  lemma AcceptedExactly(c: Byte)
    ensures Accepted(c) <==>
            || 'A' <= c as char <= 'Z' || 'a' <= c as char <= 'z' || '0' <= c as char <= '9' || c >= 0x80
            || c as char in {'!', '#', '$', '%', '&', '\'', '(', ')', '-', '@', '^', '_', '`', '{', '}', '~'}
  {
  }

  function Padded(s: seq<Byte>, width: nat): (r: seq<Byte>)
    requires |s| <= width
    ensures |r| == width
  {
    seq(width, i requires 0 <= i < width => if i < |s| then Upper(s[i]) else SPACE)
  }

  /** `seg` reads as a name: a body of `b` characters, dots up to `e`, and an extension. */
  ghost predicate Shape(seg: seq<Byte>, b: nat, e: nat) {
    && 1 <= b <= 8 && b <= e <= |seg| <= e + 3 && (b == e ==> e == |seg|)
    && (forall i :: 0 <= i < b ==> Accepted(seg[i]))
    && (forall i :: b <= i < e ==> seg[i] == DOT)
    && (forall i :: e <= i < |seg| ==> Accepted(seg[i]))
  }

  /** The 11 bytes such a segment stands for. */
  function NameOf(seg: seq<Byte>, b: nat, e: nat): DirName
    requires b <= 8 && b <= e <= |seg| <= e + 3
  {
    Padded(seg[..b], 8) + Padded(seg[e..], 3)
  }

  /** Without Upper: letters are made capital, the rest is kept, spaces fill up. */
  lemma NameBytes(seg: seq<Byte>, b: nat, e: nat)
    requires b <= 8 && b <= e <= |seg| <= e + 3
    ensures var d := NameOf(seg, b, e);
            && (forall i :: 0 <= i < b ==> d[i] as int == if 0x61 <= seg[i] <= 0x7A then seg[i] - 0x20 else seg[i])
            && (forall i :: e <= i < |seg| ==>
                  d[8 + (i - e)] as int == if 0x61 <= seg[i] <= 0x7A then seg[i] - 0x20 else seg[i])
            && (forall i :: b <= i < 8 ==> d[i] == 0x20) && (forall i :: 8 + (|seg| - e) <= i < 11 ==> d[i] == 0x20)
            && (forall i :: 0 <= i < 11 ==> !(0x61 <= d[i] <= 0x7A))
  {
    assert forall i :: e <= i < |seg| ==> seg[e..][i - e] == seg[i];
  }

  /** `c` and `d` are the same letter in either case, or the same character. */
  predicate SameButCase(c: Byte, d: Byte) {
    c == d || (0x41 <= c <= 0x5A && d == c + 0x20) || (0x41 <= d <= 0x5A && c == d + 0x20)
  }

  /** Segments that differ in case only are taken alike and make the same name. */
  lemma CaseIgnored(seg: seq<Byte>, seg': seq<Byte>, b: nat, e: nat)
    requires |seg| == |seg'| && forall i :: 0 <= i < |seg| ==> SameButCase(seg[i], seg'[i])
    ensures Shape(seg, b, e) <==> Shape(seg', b, e)
    ensures Shape(seg, b, e) ==> NameOf(seg, b, e) == NameOf(seg', b, e)
  {
    assert forall i :: 0 <= i < |seg| ==> (Accepted(seg[i]) <==> Accepted(seg'[i]));
    assert forall i :: 0 <= i < |seg| ==> (seg[i] == DOT <==> seg'[i] == DOT);
    if Shape(seg, b, e) {
      assert forall i :: 0 <= i < |seg| - e ==> seg[e..][i] == seg[e + i] && seg'[e..][i] == seg'[e + i];
      assert Padded(seg[..b], 8) == Padded(seg'[..b], 8) && Padded(seg[e..], 3) == Padded(seg'[e..], 3);
    }
  }

  /** The end of the segment that starts at `path[from]`: a slash or the end of the string. */
  ghost predicate EndsAt(path: seq<Byte>, from: nat, end: nat) {
    && from <= end <= |path| && (end == |path| || path[end] == 0 || path[end] == SLASH)
    && forall i :: from <= i < end ==> path[i] != 0 && path[i] != SLASH
  }

  datatype Segment = Invalid | Segment(name: DirName, next: nat)

  /** The reading of `seg[..m]` so far: `n` and `t` are the program's, `b` and `e` as in Shape. */
  ghost predicate Reading(seg: seq<Byte>, m: nat, n: nat, t: nat, b: nat, e: nat) {
    && b <= e <= m <= |seg| && b <= 8
    && (if t == 8 then b == e == m == n else t == 11 && b >= 1 && e > b && n == 8 + (m - e) && n <= 11)
    && (forall i :: 0 <= i < b ==> Accepted(seg[i]))
    && (forall i :: b <= i < e ==> seg[i] == DOT)
    && (forall i :: e <= i < m ==> Accepted(seg[i]))
  }

  /** The three ways to fail. */
  lemma BadCharacter(seg: seq<Byte>, m: nat)
    requires m < |seg| && !Accepted(seg[m]) && seg[m] != DOT
    ensures forall b: nat, e: nat :: !Shape(seg, b, e)
  {
  }

  lemma BadDot(seg: seq<Byte>, m: nat, n: nat, t: nat, b: nat, e: nat)
    requires Reading(seg, m, n, t, b, e) && m < |seg| && seg[m] == DOT && !(1 <= n <= 8)
    ensures forall b1: nat, e1: nat :: !Shape(seg, b1, e1)
  {
    assert !Accepted(seg[m]) && (t == 11 ==> !Accepted(seg[b]) && Accepted(seg[e]) && seg[e] != DOT);
  }

  lemma TooLong(seg: seq<Byte>, m: nat, n: nat, t: nat, b: nat, e: nat)
    requires Reading(seg, m, n, t, b, e) && m < |seg| && Accepted(seg[m]) && n >= t
    ensures forall b1: nat, e1: nat :: !Shape(seg, b1, e1)
  {
    forall b1: nat, e1: nat | Shape(seg, b1, e1) ensures false {
      ReadSoFar(seg, m, n, t, b, e, b1, e1);
    }
  }

  /** What is read so far agrees with every reading of the whole segment. */
  lemma ReadSoFar(seg: seq<Byte>, m: nat, n: nat, t: nat, b: nat, e: nat, b1: nat, e1: nat)
    requires Reading(seg, m, n, t, b, e) && Shape(seg, b1, e1)
    ensures t == 8 ==> b1 >= m && (b1 < |seg| ==> seg[b1] == DOT)
    ensures t == 11 ==> b1 == b && e1 >= e && (m > e ==> e1 == e)
  {
    assert b1 == e1 || seg[b1] == DOT;
    if t == 11 {
      assert seg[b] == DOT && seg[e - 1] == DOT;
      assert m > e ==> Accepted(seg[e]);
    }
  }

  /** Byte `k` of the buffer at this point of the reading. */
  ghost function Cell(seg: seq<Byte>, m: nat, t: nat, b: nat, e: nat, k: nat): Byte
    requires b <= e <= m <= |seg|
  {
    if k < 8 then (if k < b then Upper(seg[k]) else SPACE)
    else if t == 11 && k - 8 < m - e then Upper(seg[e + (k - 8)])
    else SPACE
  }

  ghost predicate Filled(seg: seq<Byte>, m: nat, t: nat, b: nat, e: nat, dirname: seq<Byte>)
    requires b <= e <= m <= |seg|
  {
    |dirname| == 11 && forall k :: 0 <= k < 11 ==> dirname[k] == Cell(seg, m, t, b, e, k)
  }

  lemma ReadNothing(seg: seq<Byte>)
    ensures Reading(seg, 0, 0, 8, 0, 0) && Filled(seg, 0, 8, 0, 0, seq(11, _ => SPACE))
  {
  }

  lemma FillNext(seg: seq<Byte>, m: nat, n: nat, t: nat, b: nat, e: nat, dirname: seq<Byte>)
    requires Reading(seg, m, n, t, b, e) && Filled(seg, m, t, b, e, dirname)
    requires m < |seg| && Accepted(seg[m]) && n < t
    ensures var b1, e1 := if t == 8 then b + 1 else b, if t == 8 then e + 1 else e;
            && Reading(seg, m + 1, n + 1, t, b1, e1)
            && Filled(seg, m + 1, t, b1, e1, dirname[n := Upper(seg[m])])
  {
    if t == 8 {
      assert forall i :: 0 <= i < b + 1 ==> Accepted(seg[i]);
      assert Reading(seg, m + 1, n + 1, t, b + 1, e + 1);
    } else {
      assert Reading(seg, m + 1, n + 1, t, b, e);
    }
  }

  lemma FillDot(seg: seq<Byte>, m: nat, n: nat, t: nat, b: nat, e: nat, dirname: seq<Byte>)
    requires Reading(seg, m, n, t, b, e) && Filled(seg, m, t, b, e, dirname)
    requires m < |seg| && seg[m] == DOT && 1 <= n <= 8
    ensures Reading(seg, m + 1, 8, 11, b, m + 1) && Filled(seg, m + 1, 11, b, m + 1, dirname)
  {
    assert Reading(seg, m + 1, 8, 11, b, m + 1);
  }

  lemma FillEnd(seg: seq<Byte>, n: nat, t: nat, b: nat, e: nat, dirname: seq<Byte>)
    requires Reading(seg, |seg|, n, t, b, e) && Filled(seg, |seg|, t, b, e, dirname)
    ensures n == 0 ==> forall b1: nat, e1: nat :: !Shape(seg, b1, e1)
    ensures n != 0 ==> Shape(seg, b, e) && dirname == NameOf(seg, b, e)
  {
    if n != 0 {
      assert Shape(seg, b, e);
      forall k | 0 <= k < 11 ensures dirname[k] == NameOf(seg, b, e)[k] {
      }
    }
  }

  /** make_dirfile: read the segment that starts at `path[from]`; `next` is where the caller goes on, behind the slash
      or the end of the string. It succeeds exactly on the segments that read as a name. */
  method MakeDirfile(path: seq<Byte>, from: nat, ghost end: nat) returns (r: Segment)
    requires from <= end <= |path| && (end == |path| || path[end] == 0x00 || path[end] == 0x2F)
    requires forall i :: from <= i < end ==> path[i] != 0x00 && path[i] != 0x2F
    ensures r.Invalid? <==> forall b: nat, e: nat :: !Shape(path[from..end], b, e)
    ensures r.Segment? ==> r.next == end + 1
    ensures r.Segment? ==>
              exists b: nat, e: nat :: Shape(path[from..end], b, e) && r.name == NameOf(path[from..end], b, e)
    ensures r.Segment? ==> forall i :: 0 <= i < 11 ==> !(0x61 <= r.name[i] <= 0x7A)
  {
    hide Filled, Reading, Shape, NameOf;
    ghost var seg := path[from..end];
    ghost var b, e := 0, 0;
    ReadNothing(seg);
    var dirname: seq<Byte> := seq(11, _ => SPACE);
    var i := from;
    var n: nat, t: nat := 0, 8;
    while true
      invariant from <= i <= end && b <= e <= i - from && n <= t && t in {8, 11} && |dirname| == 11
      invariant Reading(seg, i - from, n, t, b, e)
      invariant Filled(seg, i - from, t, b, e, dirname)
      decreases end - i
    {
      ghost var m := i - from;
      var c: Byte := if i < |path| then path[i] else 0;
      i := i + 1;
      if c == 0 || c == SLASH {
        FillEnd(seg, n, t, b, e, dirname);
        if n == 0 {
          return Invalid;
        }
        NameBytes(seg, b, e);
        return Segment(dirname, i);
      }
      if c <= SPACE || c == 0x7F {
        BadCharacter(seg, m);
        return Invalid;
      }
      if c == DOT {
        if 1 <= n <= 8 {
          FillDot(seg, m, n, t, b, e, dirname);
          n, t, e := 8, 11, m + 1;
          continue;
        }
        BadDot(seg, m, n, t, b, e);
        return Invalid;
      }
      if !Legal(c) {
        BadCharacter(seg, m);
        return Invalid;
      }
      if n >= t {
        TooLong(seg, m, n, t, b, e);
        return Invalid;
      }
      FillNext(seg, m, n, t, b, e, dirname);
      if t == 8 {
        b, e := b + 1, e + 1;
      }
      dirname := dirname[n := Upper(c)];
      n := n + 1;
    }
  }

  /** The comparisons of make_dirfile on a printable character other than dot and slash. */
  predicate Legal(c: Byte) {
    if c == 0x22 then false
    else if c <= 0x29 then true
    else if c <= 0x2C then false
    else if c <= 0x39 then true
    else if c <= 0x3F then false
    else c != 0x7C && !(0x5B <= c <= 0x5D)
  }

  // ------------------------------------------------------------ there and back

  predicate Kept(c: Byte) {
    Accepted(c) && Upper(c) == c
  }

  /** `field` holds `n` characters of a name and only spaces behind them. */
  ghost predicate Clean(field: seq<Byte>, n: nat) {
    && n <= |field|
    && (forall i :: 0 <= i < n ==> Kept(field[i]))
    && (forall i :: n <= i < |field| ==> field[i] == SPACE)
  }

  /** A nonempty body and an extension, both upper case and padded behind. */
  ghost predicate NameOk(d: DirName) {
    (exists b: nat :: b >= 1 && Clean(d[..8], b)) && exists x: nat :: Clean(d[8..], x)
  }

  /** Whatever make_dirfile makes is such a name. */
  lemma MadeNamesAreOk(seg: seq<Byte>, b: nat, e: nat)
    requires Shape(seg, b, e)
    ensures NameOk(NameOf(seg, b, e))
  {
    var d := NameOf(seg, b, e);
    forall i | 0 <= i < b ensures Kept(d[..8][i]) {
      assert Accepted(seg[..b][i]);
    }
    forall i | 0 <= i < |seg| - e ensures Kept(d[8..][i]) {
      assert Accepted(seg[e..][i]);
    }
    assert Clean(d[..8], b) && Clean(d[8..], |seg| - e);
  }

  lemma PrintedName(d: DirName, b: nat, x: nat)
    requires b >= 1 && Clean(d[..8], b) && Clean(d[8..], x)
    ensures Printed(d) == d[..b] + if x == 0 then [] else [DOT] + d[8..8 + x]
  {
    assert forall i :: 0 <= i < b ==> d[i] == d[..8][i];
    assert forall i :: 0 <= i < 3 ==> d[8 + i] == d[8..][i];
    UntilSpaceIs(d[..8], b);
    UntilSpaceIs(d[8..], x);
    assert ShownAll(d[..8][..b]) == d[..b];
    assert d[8..][..x] == d[8..8 + x];
  }

  lemma ShapePrinted(d: DirName, b: nat, x: nat, e: nat)
    requires b >= 1 && Clean(d[..8], b) && Clean(d[8..], x) && e == (if x == 0 then b else b + 1)
    ensures |Printed(d)| == e + x && Printed(d)[..|Printed(d)|] == Printed(d)
    ensures Shape(Printed(d), b, e) && EndsAt(Printed(d), 0, |Printed(d)|)
  {
    PrintedName(d, b, x);
    hide Printed;
    var p := Printed(d);
    forall i | 0 <= i < b ensures p[i] == d[..8][i] && Kept(p[i]) {
    }
    forall i | 0 <= i < x ensures p[b + 1 + i] == d[8..][i] && Kept(p[b + 1 + i]) {
    }
  }

  /** Printing a name and reading it back gives the same 11 bytes for exactly these names. */
  lemma RoundTripExactly(d: DirName)
    ensures NameOk(d) <==>
            exists end: nat, b: nat, e: nat ::
              EndsAt(Printed(d), 0, end) && Shape(Printed(d)[..end], b, e) && NameOf(Printed(d)[..end], b, e) == d
  {
    if NameOk(d) {
      var b: nat :| b >= 1 && Clean(d[..8], b);
      var x: nat :| Clean(d[8..], x);
      var e := if x == 0 then b else b + 1;
      ShapePrinted(d, b, x, e);
      NameBack(d, b, x, e);
      var end := |Printed(d)|;
      assert EndsAt(Printed(d), 0, end) && Shape(Printed(d)[..end], b, e) && NameOf(Printed(d)[..end], b, e) == d;
    }
    if end: nat, b: nat, e: nat :|
        EndsAt(Printed(d), 0, end) && Shape(Printed(d)[..end], b, e) && NameOf(Printed(d)[..end], b, e) == d {
      MadeNamesAreOk(Printed(d)[..end], b, e);
    }
  }

  lemma PaddedBack(field: seq<Byte>, n: nat)
    requires Clean(field, n)
    ensures Padded(field[..n], |field|) == field
  {
  }

  lemma NameBack(d: DirName, b: nat, x: nat, e: nat)
    requires b >= 1 && Clean(d[..8], b) && Clean(d[8..], x) && e == (if x == 0 then b else b + 1)
    requires |Printed(d)| == e + x
    ensures NameOf(Printed(d), b, e) == d
  {
    PrintedName(d, b, x);
    PaddedBack(d[..8], b);
    PaddedBack(d[8..], x);
    hide Printed;
    NameParts(d, b, x, Printed(d), e);
    assert d == d[..8] + d[8..];
  }

  lemma NameParts(d: DirName, b: nat, x: nat, p: seq<Byte>, e: nat)
    requires b <= 8 && x <= 3 && e == (if x == 0 then b else b + 1) && |p| == e + x
    requires p == d[..b] + if x == 0 then [] else [DOT] + d[8..8 + x]
    ensures p[..b] == d[..8][..b] && p[e..] == d[8..][..x]
  {
    assert d[..8][..b] == d[..b] && d[8..][..x] == d[8..8 + x];
    if x > 0 {
      assert p[e..] == d[8..8 + x];
    }
  }
}
