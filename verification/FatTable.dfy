/** The allocation table of tff.c as a value: entry `c` is what the FAT says about cluster `c`. Entries 0 and 1 are
    reserved, an entry of 0 is a free cluster, an entry in range links to the next cluster, and an entry beyond the
    last cluster ends a chain. */
module FatTable {

  type Table = seq<nat>

  predicate InRange(t: Table, c: nat) {
    2 <= c < |t|
  }

  ghost function Free(t: Table): set<nat> {
    set c: nat | 2 <= c < |t| && t[c] == 0
  }

  ghost function Used(t: Table): set<nat> {
    set c: nat | 2 <= c < |t| && t[c] != 0
  }

  lemma StoreFree(t: Table, c: nat, v: nat)
    requires InRange(t, c)
    ensures Free(t[c := v]) == if v == 0 then Free(t) + {c} else Free(t) - {c}
    ensures Used(t[c := v]) == if v == 0 then Used(t) - {c} else Used(t) + {c}
  {
  }

  // ------------------------------------------------------------ create_chain

  /** The value `free_clust` has while nobody has counted. */
  const UNKNOWN: nat := 0xFFFF

  function Decremented(free: nat): nat {
    if free == UNKNOWN then UNKNOWN else (free + 0xFFFF) % 0x10000
  }

  function Incremented(free: nat): nat {
    if free == UNKNOWN then UNKNOWN else (free + 1) % 0x10000
  }

  /** How many steps the cyclic scan that starts behind `scl` takes to reach `c`. */
  function Steps(t: Table, scl: nat, c: nat): int {
    if c > scl then c - scl else |t| - 1 - scl + c - 1
  }

  /** The scan behind `scl` ends at `c`, because of a free entry or of an entry that reads like an error. */
  ghost predicate StopsAt(t: Table, scl: nat, c: nat) {
    && InRange(t, c) && t[c] < 2
    && forall x: nat {:trigger Steps(t, scl, x)} :: InRange(t, x) && Steps(t, scl, x) < Steps(t, scl, c) ==> t[x] >= 2
  }

  /** Where the scan starts. */
  function ScanStart(t: Table, last: nat, clust: nat): nat {
    if clust != 0 then clust else if InRange(t, last) then last else 1
  }

  /** The allocator's part of the mounted volume: table, last allocated cluster, number of free clusters. */
  datatype State = State(t: Table, last: nat, free: nat)

  function Link(t: Table, clust: nat, c: nat, end: nat): Table
    requires InRange(t, c) && (clust == 0 || InRange(t, clust))
  {
    if clust == 0 then t[c := end] else t[c := end][clust := c]
  }

  /** What create_chain(clust) does when the device does not fail; `end` is the end mark it stores. */
  ghost predicate Created(s: State, clust: nat, end: nat, r: nat, s': State) {
    if clust != 0 && (!InRange(s.t, clust) || s.t[clust] < 2) then r == 1 && s' == s
    else if clust != 0 && s.t[clust] < |s.t| then r == s.t[clust] && s' == s
    else
      var scl := ScanStart(s.t, s.last, clust);
      && ((forall c: nat :: !StopsAt(s.t, scl, c)) ==> r == 0 && s' == s)
      && forall c: nat :: StopsAt(s.t, scl, c) ==>
           if s.t[c] == 1 then r == 1 && s' == s
           else r == c && s' == State(Link(s.t, clust, c, end), c, Decremented(s.free))
  }

  lemma LinkTakes(t: Table, clust: nat, c: nat, end: nat)
    requires InRange(t, c) && t[c] == 0 && end != 0
    requires clust == 0 || (InRange(t, clust) && t[clust] != 0)
    ensures Free(Link(t, clust, c, end)) == Free(t) - {c}
  {
    StoreFree(t, c, end);
    if clust != 0 {
      StoreFree(t[c := end], clust, c);
    }
  }

  /** The scan behind `scl` has come to `ncl` in `k` steps and found all entries on the way in use. */
  ghost predicate ScanAt(t: Table, scl: nat, ncl: nat, k: nat) {
    && 1 <= scl < |t| && k < |t|
    && (if k == 0 then ncl == scl else InRange(t, ncl) && ncl != scl && Steps(t, scl, ncl) == k)
    && forall x: nat {:trigger Steps(t, scl, x)} :: InRange(t, x) && Steps(t, scl, x) <= k ==> t[x] >= 2
  }

  lemma ScanStarts(t: Table, scl: nat)
    requires 1 <= scl < |t|
    ensures ScanAt(t, scl, scl, 0)
  {
  }

  /** The next step of the scan: off the end when it started before the first cluster, else to one more cluster. */
  lemma ScanNext(t: Table, scl: nat, ncl: nat, k: nat)
    requires ScanAt(t, scl, ncl, k)
    ensures var next := if ncl + 1 >= |t| then 2 else ncl + 1;
            if ncl + 1 >= |t| && scl < 2 then forall c: nat :: !StopsAt(t, scl, c)
            else
              && InRange(t, next) && k + 1 < |t|
              && (t[next] < 2 ==> StopsAt(t, scl, next))
              && (t[next] >= 2 && next != scl ==> ScanAt(t, scl, next, k + 1))
              && (t[next] >= 2 && next == scl ==> forall c: nat :: !StopsAt(t, scl, c))
  {
    if ncl + 1 >= |t| && scl < 2 {
      assert forall c: nat :: InRange(t, c) ==> Steps(t, scl, c) <= k;
    } else {
      var next := if ncl + 1 >= |t| then 2 else ncl + 1;
      assert Steps(t, scl, next) == k + 1;
      forall x: nat | InRange(t, x) && Steps(t, scl, x) == k + 1 ensures x == next {
        StepsInjective(t, scl, x, next);
      }
      if next == scl {
        assert forall c: nat :: InRange(t, c) ==> Steps(t, scl, c) <= k + 1;
      }
    }
  }

  lemma StepsInjective(t: Table, scl: nat, c: nat, d: nat)
    requires InRange(t, c) && InRange(t, d) && 1 <= scl < |t|
    ensures Steps(t, scl, c) == Steps(t, scl, d) <==> c == d
  {
  }

  /** The scan ends in at most one place, */
  lemma StopUnique(t: Table, scl: nat, c: nat, d: nat)
    requires 1 <= scl < |t| && StopsAt(t, scl, c) && StopsAt(t, scl, d)
    ensures c == d
  {
    StepsInjective(t, scl, c, d);
  }

  /** and in one at all as soon as any entry is 0 or 1. */
  lemma {:induction false} StopExists(t: Table, scl: nat, x: nat) returns (c: nat)
    requires 1 <= scl < |t| && InRange(t, x) && t[x] < 2
    ensures StopsAt(t, scl, c)
    decreases Steps(t, scl, x)
  {
    if y: nat :| InRange(t, y) && Steps(t, scl, y) < Steps(t, scl, x) && t[y] < 2 {
      c := StopExists(t, scl, y);
    } else {
      c := x;
    }
  }

  /** A call that has to allocate reports a full volume exactly when no cluster is free, and otherwise takes the first
      free one behind its start, in cyclic order. */
  lemma CreateFindsFirstFree(s: State, clust: nat, end: nat, r: nat, s': State)
    requires Created(s, clust, end, r, s') && |s.t| >= 2
    requires forall c: nat :: InRange(s.t, c) ==> s.t[c] != 1
    requires end >= |s.t| && (clust == 0 || (InRange(s.t, clust) && s.t[clust] >= |s.t|))
    ensures r == 0 <==> Free(s.t) == {}
    ensures r != 0 ==> r in Free(s.t) && r !in Free(s'.t) && Free(s'.t) == Free(s.t) - {r}
    ensures r != 0 ==> var scl := ScanStart(s.t, s.last, clust);
                       forall x :: x in Free(s.t) ==> Steps(s.t, scl, r) <= Steps(s.t, scl, x)
  {
    var scl := ScanStart(s.t, s.last, clust);
    if x :| x in Free(s.t) {
      var c := StopExists(s.t, scl, x);
      assert s.t[c] == 0 && r == c;
      LinkTakes(s.t, clust, c, end);
      forall y | y in Free(s.t) ensures Steps(s.t, scl, c) <= Steps(s.t, scl, y) {
        assert InRange(s.t, y);
      }
    } else {
      assert forall c: nat :: StopsAt(s.t, scl, c) ==> c in Free(s.t);
    }
  }

  /** Which cluster that is: the next free one behind the tail, or, for a new chain, behind the cluster allocated last;
      the least free one if none lies behind it, or if nothing in range has been allocated. */
  lemma TakesNextFree(s: State, clust: nat, end: nat, r: nat, s': State)
    requires Created(s, clust, end, r, s') && |s.t| >= 2 && Free(s.t) != {}
    requires forall c: nat :: InRange(s.t, c) ==> s.t[c] != 1
    requires end >= |s.t| && (clust == 0 || (InRange(s.t, clust) && s.t[clust] >= |s.t|))
    ensures 2 <= r < |s.t| && s.t[r] == 0
    ensures var from := if clust == 0 then s.last else clust;
            if from < 2 || from >= |s.t| then forall x: nat :: 2 <= x < r ==> s.t[x] != 0
            else if r > from then forall x: nat :: from < x < r ==> s.t[x] != 0
            else (forall x: nat :: from < x < |s.t| ==> s.t[x] != 0) && forall x: nat :: 2 <= x < r ==> s.t[x] != 0
  {
    CreateFindsFirstFree(s, clust, end, r, s');
    hide Created, StopsAt;
    forall x: nat | InRange(s.t, x) && s.t[x] == 0 ensures x in Free(s.t) {
    }
  }

  /** What becomes of the state with it, */
  lemma TakesOneCluster(s: State, clust: nat, end: nat, r: nat, s': State)
    requires Created(s, clust, end, r, s') && |s.t| >= 2 && Free(s.t) != {}
    requires forall c: nat :: InRange(s.t, c) ==> s.t[c] != 1
    requires end >= |s.t| && (clust == 0 || (InRange(s.t, clust) && s.t[clust] >= |s.t|))
    ensures InRange(s.t, r) && |s'.t| == |s.t|
    ensures forall d: nat :: d < |s.t| ==>
              s'.t[d] == if d == r then end else if d == clust && clust != 0 then r else s.t[d]
    ensures s'.last == r && s'.free == if s.free == 0xFFFF then 0xFFFF else (s.free - 1) % 0x10000
  {
    var x :| x in Free(s.t);
    var c := StopExists(s.t, ScanStart(s.t, s.last, clust), x);
    assert s.t[c] == 0 && r == c;
    DecrementIs(s.free);
    LinkAt(s.t, clust, c, end);
    hide Decremented, Link, StopsAt;
  }

  lemma DecrementIs(free: nat)
    ensures Decremented(free) == if free == 0xFFFF then 0xFFFF else (free - 1) % 0x10000
  {
    if free == 0 {
      assert Decremented(0) == 0xFFFF;
    }
  }

  lemma LinkAt(t: Table, clust: nat, c: nat, end: nat)
    requires InRange(t, c) && t[c] == 0 && (clust == 0 || (InRange(t, clust) && t[clust] != 0))
    ensures |Link(t, clust, c, end)| == |t|
    ensures forall d: nat :: d < |t| ==>
              Link(t, clust, c, end)[d] == if d == c then end else if d == clust && clust != 0 then c else t[d]
  {
  }

  /** and what of a call that takes none: a full volume, a cluster that does not lead anywhere, one that leads on. */
  lemma TakesNothing(s: State, clust: nat, end: nat, r: nat, s': State)
    requires Created(s, clust, end, r, s') && |s.t| >= 2
    ensures clust != 0 && (clust < 2 || clust >= |s.t|) ==> r == 1 && s' == s
    ensures 2 <= clust < |s.t| && s.t[clust] < 2 ==> r == 1 && s' == s
    ensures 2 <= clust < |s.t| && 2 <= s.t[clust] < |s.t| ==> r == s.t[clust] && s' == s
    ensures clust == 0 || (2 <= clust < |s.t| && s.t[clust] >= |s.t|) ==>
              (forall c: nat :: 2 <= c < |s.t| ==> s.t[c] >= 2) ==> r == 0 && s' == s
  {
    assert forall c: nat :: InRange(s.t, c) ==> 2 <= c < |s.t|;
  }

  // ------------------------------------------------------------ remove_chain

  /** What remove_chain(c) does to table and free count when the device does not fail. It ends on every table:
      each round but the last turns a used entry into a free one. */
  function Remove(t: Table, free: nat, c: nat): (r: (bool, Table, nat))
    ensures |r.1| == |t|
    decreases Used(t), if InRange(t, c) then 1 else 0
  {
    if !InRange(t, c) then (true, t, free)
    else if t[c] == 1 then (false, t, free)
    else
      RemoveRound(t, c);
      Remove(t[c := 0], Incremented(free), t[c])
  }

  /** One round of the removal, with what decreases. */
  lemma RemoveRound(t: Table, c: nat)
    requires InRange(t, c)
    ensures t[c] == 0 ==> Used(t[c := 0]) == Used(t) && !InRange(t[c := 0], t[c])
    ensures t[c] != 0 ==> Used(t[c := 0]) < Used(t)
  {
    StoreFree(t, c, 0);
    assert t[c] == 0 ==> t[c := 0] == t;
    assert t[c] != 0 ==> c in Used(t);
  }

  /** The ends of a removal: a cluster out of range is taken for the end, an entry of 1 for an error, and a free cluster
      is freed once more. */
  lemma RemoveStops(t: Table, free: nat, c: nat)
    ensures c < 2 || c >= |t| ==> Remove(t, free, c) == (true, t, free)
    ensures 2 <= c < |t| && t[c] == 1 ==> Remove(t, free, c) == (false, t, free)
    ensures 2 <= c < |t| && t[c] == 0 ==>
              Remove(t, free, c) == (true, t, if free == 0xFFFF then 0xFFFF else (free + 1) % 0x10000)
  {
    if InRange(t, c) && t[c] == 0 {
      assert t[c := 0] == t;
    }
  }

  /** Distinct clusters, each linked to the next. */
  ghost predicate IsPath(t: Table, ch: seq<nat>) {
    && |ch| >= 1
    && (forall i :: 0 <= i < |ch| ==> InRange(t, ch[i]))
    && (forall i, j :: 0 <= i < j < |ch| ==> ch[i] != ch[j])
    && (forall i :: 0 <= i < |ch| - 1 ==> t[ch[i]] == ch[i + 1])
  }

  function Head(ch: seq<nat>): nat {
    if ch == [] then 0 else ch[0]
  }

  function Last(ch: seq<nat>): nat {
    if ch == [] then 0 else ch[|ch| - 1]
  }

  /** A path up to an end mark. */
  ghost predicate IsChain(t: Table, ch: seq<nat>) {
    IsPath(t, ch) && t[Last(ch)] >= |t|
  }

  function Cleared(t: Table, ch: seq<nat>): (r: Table)
    ensures |r| == |t|
  {
    seq(|t|, d requires 0 <= d < |t| => if d in ch then 0 else t[d])
  }

  function IncrementedBy(free: nat, n: nat): nat
    decreases n
  {
    if n == 0 then free else IncrementedBy(Incremented(free), n - 1)
  }

  /** On a terminated chain exactly its clusters become free, every other entry keeps its value, and the count goes up
      by the chain's length. */
  lemma {:induction false} RemoveWholeChain(t: Table, free: nat, ch: seq<nat>)
    requires IsChain(t, ch)
    ensures Remove(t, free, ch[0]) == (true, Cleared(t, ch), IncrementedBy(free, |ch|))
    decreases |ch|
  {
    var t1 := t[ch[0] := 0];
    if |ch| == 1 {
      assert Cleared(t, ch) == t1;
    } else {
      var rest := ch[1..];
      assert forall i :: 0 <= i < |rest| ==> rest[i] == ch[i + 1];
      assert Last(rest) == Last(ch);
      RemoveWholeChain(t1, Incremented(free), rest);
      assert Cleared(t, ch) == Cleared(t1, rest) by {
        assert forall d :: d in ch <==> d == ch[0] || d in rest;
      }
    }
  }

  /** What a removal leaves behind in general: only clusters on the way are freed, nothing is linked anew. */
  lemma {:induction false} RemoveOnlyFrees(t: Table, free: nat, c: nat)
    ensures var r := Remove(t, free, c).1;
            forall d :: 0 <= d < |t| ==> r[d] == t[d] || r[d] == 0
    decreases Used(t), if InRange(t, c) then 1 else 0
  {
    if !InRange(t, c) || t[c] == 1 {
    } else {
      RemoveRound(t, c);
      RemoveOnlyFrees(t[c := 0], Incremented(free), t[c]);
    }
  }

  /** The way from `c` leaves the table or reaches an entry that reads like an error, without meeting a free cluster
      or itself. */
  ghost predicate Terminated(t: Table, c: nat) {
    !InRange(t, c) || t[c] == 1 || exists ch :: WayOut(t, c, ch)
  }

  ghost predicate WayOut(t: Table, c: nat, ch: seq<nat>) {
    && IsPath(t, ch) && ch[0] == c && t[Last(ch)] >= 2
    && (!InRange(t, t[Last(ch)]) || t[t[Last(ch)]] == 1)
  }

  lemma WayOutBehind(t: Table, c: nat)
    requires InRange(t, c) && t[c] >= 2
    ensures Terminated(t, c) <==> Terminated(t[c := 0], t[c])
  {
    var t1 := t[c := 0];
    if ch :| WayOut(t, c, ch) {
      if |ch| > 1 {
        assert Last(ch[1..]) == Last(ch) && WayOut(t1, t[c], ch[1..]);
      }
    }
    if InRange(t, t[c]) && t1[t[c]] != 1 {
      if ch :| WayOut(t1, t[c], ch) {
        forall i | 0 <= i < |ch| ensures ch[i] != c {
          assert i < |ch| - 1 ==> t1[ch[i]] == ch[i + 1];
        }
        assert Last([c] + ch) == Last(ch) && WayOut(t, c, [c] + ch);
      }
    } else {
      assert WayOut(t, c, [c]);
    }
  }

  /** A known free count stays right exactly when the removed way is terminated; otherwise the last round counts a
      cluster that was free already, and the count is one too high from then on. */
  lemma {:induction false} RemoveCount(t: Table, c: nat, free: nat)
    requires |t| <= 0xFFF7 && free == |Free(t)|
    ensures var (_, t', free') := Remove(t, free, c);
            if Terminated(t, c) then free' == |Free(t')| else free' == |Free(t')| + 1
    decreases Used(t), if InRange(t, c) then 1 else 0
  {
    FreeBound(t);
    if InRange(t, c) && t[c] != 1 {
      var t1 := t[c := 0];
      StoreFree(t, c, 0);
      if t[c] == 0 {
        assert t1 == t;
        forall ch: seq<nat> ensures !WayOut(t, c, ch) {
          assert IsPath(t, ch) && |ch| > 1 ==> t[ch[0]] == ch[1];
        }
      } else {
        assert c in Used(t) && c !in Free(t);
        WayOutBehind(t, c);
        RemoveCount(t1, t[c], Incremented(free));
      }
    }
  }

  /** Two clusters linked to each other: removing them frees two and counts three. */
  lemma CycleCountedOnceMore()
    ensures var (ok, t', free') := Remove([0xFFFF, 0xFFFF, 3, 2], 0, 2);
            ok && t' == [0xFFFF, 0xFFFF, 0, 0] && Free(t') == {2, 3} && |Free([0xFFFF, 0xFFFF, 3, 2])| == 0 &&
                free' == 3
  {
    var t: Table := [0xFFFF, 0xFFFF, 3, 2];
    assert Free(t) == {};
    assert t[2 := 0] == [0xFFFF, 0xFFFF, 0, 2] && t[2 := 0][3 := 0] == [0xFFFF, 0xFFFF, 0, 0];
    assert Remove([0xFFFF, 0xFFFF, 0, 0], 2, 2) == (true, [0xFFFF, 0xFFFF, 0, 0], 3) by {
      assert [0xFFFF, 0xFFFF, 0, 0][2 := 0] == [0xFFFF, 0xFFFF, 0, 0];
    }
    assert Remove([0xFFFF, 0xFFFF, 0, 2], 1, 3) == (true, [0xFFFF, 0xFFFF, 0, 0], 3);
  }

  /** A cluster that is free already is counted once more. */
  lemma FreeCountedOnceMore()
    ensures Remove([0xFFFF, 0xFFFF, 0], 1, 2) == (true, [0xFFFF, 0xFFFF, 0], 2) && Free([0xFFFF, 0xFFFF, 0]) == {2}
  {
    assert [0xFFFF, 0xFFFF, 0][2 := 0] == [0xFFFF, 0xFFFF, 0];
  }

  lemma {:induction false} FreeBound(t: Table)
    ensures |t| >= 2 ==> |Free(t)| <= |t| - 2
    ensures |t| < 2 ==> Free(t) == {}
  {
    if |t| > 2 {
      var n := |t| - 1;
      FreeBound(t[..n]);
      assert Free(t) == if t[n] == 0 then Free(t[..n]) + {n} else Free(t[..n]);
    }
  }

  // ------------------------------------------------------------ runs

  /** The table is a set of chains: each is acyclic and terminated, no two share a cluster, and every used cluster
      belongs to one. */
  ghost predicate Forest(t: Table, chains: set<seq<nat>>) {
    && (forall ch :: ch in chains ==> IsChain(t, ch))
    && (forall ch1, ch2, c :: ch1 in chains && ch2 in chains && c in ch1 && c in ch2 ==> ch1 == ch2)
    && (forall c :: c in Used(t) ==> exists ch :: ch in chains && c in ch)
  }

  datatype Op = Create(clust: nat) | RemoveFrom(clust: nat) | Hint(last: nat)

  /** The calls the file operations make: create from nothing or behind any cluster, remove a whole chain or nothing,
      and point the next search somewhere (f_open does, to reuse the hole of a file it cut to zero). */
  ghost predicate Legal(t: Table, chains: set<seq<nat>>, op: Op) {
    op.RemoveFrom? ==> !InRange(t, op.clust) || exists ch :: ch in chains && Head(ch) == op.clust
  }

  /** A removal answers 0, or 1 if it comes to an entry that reads like an error. */
  ghost predicate Step(s: State, op: Op, end: nat, r: nat, s': State) {
    match op
    case Create(clust) => Created(s, clust, end, r, s')
    case RemoveFrom(clust) =>
      var (good, t, free) := Remove(s.t, s.free, clust);
      r == (if good then 0 else 1) && s' == State(t, s.last, free)
    case Hint(last) => r == 0 && s' == s.(last := last)
  }

  /** What one call does to the set of chains: `clust` is the tail that grows by `r`, or 0 for a new chain. */
  ghost function After(t: Table, chains: set<seq<nat>>, op: Op, r: nat): set<seq<nat>> {
    match op
    case RemoveFrom(clust) => set ch | ch in chains && Head(ch) != clust
    case Hint(_) => chains
    case Create(clust) =>
      if r < 2 then chains
      else if clust == 0 then chains + {[r]}
      else set ch | ch in chains :: Grown(ch, clust, r)
  }

  function Grown(ch: seq<nat>, tail: nat, r: nat): seq<nat> {
    if Last(ch) == tail then ch + [r] else ch
  }

  /** The hint is what the next call goes by: a new chain begins at the next free cluster behind it. */
  lemma HintThenCreate(s: State, last: nat, end: nat, r0: nat, s1: State, r: nat, s2: State)
    requires Step(s, Hint(last), end, r0, s1) && Step(s1, Create(0), end, r, s2)
    requires 2 <= last < |s.t| && Free(s.t) != {} && end >= |s.t|
    requires forall c: nat :: InRange(s.t, c) ==> s.t[c] != 1
    ensures s1.t == s.t && s1.free == s.free && 2 <= r < |s.t| && s.t[r] == 0 && s2.t == s.t[r := end]
    ensures if r > last then forall x: nat :: last < x < r ==> s.t[x] != 0
            else (forall x: nat :: last < x < |s.t| ==> s.t[x] != 0) && forall x: nat :: 2 <= x < r ==> s.t[x] != 0
  {
    TakesNextFree(s1, 0, end, r, s2);
    TakesOneCluster(s1, 0, end, r, s2);
  }

  lemma {:induction false} RemoveKeepsForest(t: Table, chains: set<seq<nat>>, free: nat, head: nat)
    requires Forest(t, chains) && Legal(t, chains, RemoveFrom(head))
    ensures Forest(Remove(t, free, head).1, After(t, chains, RemoveFrom(head), 0))
  {
    var left := After(t, chains, RemoveFrom(head), 0);
    if InRange(t, head) {
      var gone :| gone in chains && Head(gone) == head;
      assert head in gone;
      RemoveWholeChain(t, free, gone);
      var t' := Cleared(t, gone);
      forall ch | ch in left ensures IsChain(t', ch) {
        forall c | c in ch ensures c !in gone {
          assert c in gone ==> ch == gone;
        }
        assert forall c :: c in ch ==> t'[c] == t[c];
      }
      forall c | c in Used(t') ensures exists ch :: ch in left && c in ch {
        assert c in Used(t) && c !in gone;
        var ch :| ch in chains && c in ch;
        assert Head(ch) in ch && (Head(ch) == head ==> ch == gone);
      }
    } else {
      assert forall ch :: ch in chains ==> InRange(t, Head(ch));
      assert left == chains;
    }
  }

  lemma {:induction false} CreateKeepsForest(s: State, chains: set<seq<nat>>, clust: nat, end: nat, r: nat, s': State)
    requires Forest(s.t, chains) && |s.t| >= 2 && end >= |s.t|
    requires Created(s, clust, end, r, s')
    ensures Forest(s'.t, After(s.t, chains, Create(clust), r))
  {
    var t := s.t;
    var chains' := After(t, chains, Create(clust), r);
    if r >= 2 && (clust == 0 || t[clust] >= |t|) {
      var scl := ScanStart(t, s.last, clust);
      if c: nat :| StopsAt(t, scl, c) {
        assert r == c && t[r] == 0;
        FreshNowhere(t, chains, r);
        if clust == 0 {
          NewChain(t, chains, r, end);
        } else {
          LongerChain(t, chains, clust, r, end);
        }
      }
    } else if r >= 2 {
      forall ch | ch in chains ensures Last(ch) != clust {
        assert t[Last(ch)] >= |t|;
      }
      assert chains' == chains;
    }
  }

  lemma FreshNowhere(t: Table, chains: set<seq<nat>>, r: nat)
    requires Forest(t, chains) && InRange(t, r) && t[r] == 0
    ensures forall ch :: ch in chains ==> r !in ch
  {
    forall ch | ch in chains ensures r !in ch {
      if i :| 0 <= i < |ch| && ch[i] == r {
        assert i == |ch| - 1 ==> Last(ch) == r;
        assert i < |ch| - 1 ==> t[ch[i]] == ch[i + 1];
      }
    }
  }

  lemma NewChain(t: Table, chains: set<seq<nat>>, r: nat, end: nat)
    requires Forest(t, chains) && InRange(t, r) && t[r] == 0 && end >= |t| >= 2
    requires forall ch :: ch in chains ==> r !in ch
    ensures Forest(t[r := end], chains + {[r]})
  {
    var t' := t[r := end];
    forall ch | ch in chains ensures IsChain(t', ch) {
      assert forall i :: 0 <= i < |ch| ==> ch[i] in ch;
    }
    forall c | c in Used(t') ensures exists ch :: ch in chains + {[r]} && c in ch {
      if c == r {
        assert [r] in chains + {[r]} && c in [r];
      } else {
        assert c in Used(t);
        var ch :| ch in chains && c in ch;
        assert ch in chains + {[r]};
      }
    }
  }

  lemma GrownChain(t: Table, ch: seq<nat>, clust: nat, r: nat, end: nat)
    requires IsChain(t, ch) && InRange(t, r) && t[r] == 0 && end >= |t| >= 2
    requires InRange(t, clust) && t[clust] >= |t| && r !in ch
    ensures IsChain(t[r := end][clust := r], Grown(ch, clust, r))
    ensures clust in ch <==> Last(ch) == clust
  {
    var t' := t[r := end][clust := r];
    forall i | 0 <= i < |ch| - 1 ensures t'[ch[i]] == ch[i + 1] {
      assert ch[i] in ch && t[ch[i]] == ch[i + 1];
    }
    assert Last(ch) in ch;
    if i :| 0 <= i < |ch| && ch[i] == clust {
      assert i < |ch| - 1 ==> t[ch[i]] == ch[i + 1];
    }
  }

  lemma GrownDisjoint(t: Table, chains: set<seq<nat>>, clust: nat, r: nat, o1: seq<nat>, o2: seq<nat>, c: nat)
    requires Forest(t, chains) && clust != r
    requires o1 in chains && o2 in chains && r !in o1 && r !in o2
    requires c in Grown(o1, clust, r) && c in Grown(o2, clust, r)
    ensures o1 == o2
  {
    assert Last(o1) in o1 && Last(o2) in o2;
  }

  lemma LongerChain(t: Table, chains: set<seq<nat>>, clust: nat, r: nat, end: nat)
    requires Forest(t, chains) && InRange(t, r) && t[r] == 0 && end >= |t| >= 2
    requires InRange(t, clust) && t[clust] >= |t|
    requires forall ch :: ch in chains ==> r !in ch
    ensures Forest(t[r := end][clust := r], set ch | ch in chains :: Grown(ch, clust, r))
  {
    var t' := t[r := end][clust := r];
    var chains' := set ch | ch in chains :: Grown(ch, clust, r);
    forall ch | ch in chains
      ensures IsChain(t', Grown(ch, clust, r)) && (clust in ch <==> Last(ch) == clust)
    {
      GrownChain(t, ch, clust, r, end);
    }
    forall ch1, ch2, c | ch1 in chains' && ch2 in chains' && c in ch1 && c in ch2 ensures ch1 == ch2 {
      var o1 :| o1 in chains && ch1 == Grown(o1, clust, r);
      var o2 :| o2 in chains && ch2 == Grown(o2, clust, r);
      GrownDisjoint(t, chains, clust, r, o1, o2, c);
    }
    forall c | c in Used(t') ensures exists ch :: ch in chains' && c in ch {
      var d := if c == r then clust else c;
      assert d in Used(t);
      var ch :| ch in chains && d in ch;
      assert Grown(ch, clust, r) in chains';
    }
  }

  /** A run of calls: `states[i]` before call `i`, `results[i]` what it returns. */
  ghost predicate Run(states: seq<State>, ops: seq<Op>, results: seq<nat>, end: nat) {
    && |states| == |ops| + 1 && |results| == |ops|
    && forall i :: 0 <= i < |ops| ==> Step(states[i], ops[i], end, results[i], states[i + 1])
  }

  ghost function ChainsAfter(states: seq<State>, ops: seq<Op>, results: seq<nat>, chains: set<seq<nat>>): set<seq<nat>>
    requires |states| == |ops| + 1 && |results| == |ops|
  {
    if ops == [] then chains
    else
      var n := |ops| - 1;
      After(states[n].t, ChainsAfter(states[..n + 1], ops[..n], results[..n], chains), ops[n], results[n])
  }

  /** All calls of a run were legal when they were made. */
  ghost predicate AllLegal(states: seq<State>, ops: seq<Op>, results: seq<nat>, chains: set<seq<nat>>)
    requires |states| == |ops| + 1 && |results| == |ops|
  {
    ops == [] ||
    var n := |ops| - 1;
    && AllLegal(states[..n + 1], ops[..n], results[..n], chains)
    && Legal(states[n].t, ChainsAfter(states[..n + 1], ops[..n], results[..n], chains), ops[n])
  }

  ghost predicate CountRight(s: State) {
    s.free == UNKNOWN || s.free == |Free(s.t)|
  }

  /** Every run keeps the table a set of chains, the ones its calls describe, and a known free count right. */
  lemma {:induction false} RunKeepsForest(states: seq<State>, ops: seq<Op>, results: seq<nat>, chains: set<seq<nat>>,
                                          end: nat)
    requires Run(states, ops, results, end) && AllLegal(states, ops, results, chains)
    requires 2 <= |states[0].t| <= 0xFFF7 && end >= |states[0].t|
    requires Forest(states[0].t, chains) && CountRight(states[0])
    ensures |states[|ops|].t| == |states[0].t|
    ensures Forest(states[|ops|].t, ChainsAfter(states, ops, results, chains))
    ensures CountRight(states[|ops|])
    decreases |ops|
  {
    if ops == [] {
    } else {
      var n := |ops| - 1;
      RunKeepsForest(states[..n + 1], ops[..n], results[..n], chains, end);
      var before := ChainsAfter(states[..n + 1], ops[..n], results[..n], chains);
      assert Step(states[n], ops[n], end, results[n], states[n + 1]);
      StepKeeps(states[n], before, ops[n], end, results[n], states[n + 1]);
    }
  }

  lemma StepKeeps(s: State, chains: set<seq<nat>>, op: Op, end: nat, r: nat, s': State)
    requires Step(s, op, end, r, s') && Legal(s.t, chains, op)
    requires 2 <= |s.t| <= 0xFFF7 && end >= |s.t|
    requires Forest(s.t, chains) && CountRight(s)
    ensures |s'.t| == |s.t| && Forest(s'.t, After(s.t, chains, op, r)) && CountRight(s')
  {
    match op
    case Create(clust) =>
      CreateKeepsForest(s, chains, clust, end, r, s');
      CreateKeepsCount(s, clust, end, r, s');
    case Hint(_) =>
    case RemoveFrom(clust) =>
      RemoveKeepsForest(s.t, chains, s.free, clust);
      if s.free == UNKNOWN {
        RemoveUnknown(s.t, clust);
      } else {
        if InRange(s.t, clust) {
          var ch :| ch in chains && Head(ch) == clust;
          assert WayOut(s.t, clust, ch);
        }
        RemoveCount(s.t, clust, s.free);
      }
  }

  lemma StopMeansCreated(s: State, clust: nat, end: nat, r: nat)
    requires Takes(s.t, clust, r) && StopsAt(s.t, ScanStart(s.t, s.last, clust), r)
    ensures Created(s, clust, end, r, Taken(s, clust, r, end))
  {
    var scl := ScanStart(s.t, s.last, clust);
    forall c: nat | StopsAt(s.t, scl, c) ensures c == r {
      StopUnique(s.t, scl, c, r);
    }
  }

  lemma ErrorMeansCreated(s: State, clust: nat, end: nat)
    requires clust == 0 || (InRange(s.t, clust) && s.t[clust] >= |s.t|)
    requires |s.t| >= 2
    requires exists c: nat :: StopsAt(s.t, ScanStart(s.t, s.last, clust), c) && s.t[c] == 1
    ensures Created(s, clust, end, 1, s)
  {
    var scl := ScanStart(s.t, s.last, clust);
    var c: nat :| StopsAt(s.t, scl, c) && s.t[c] == 1;
    forall d: nat | StopsAt(s.t, scl, d) ensures d == c {
      StopUnique(s.t, scl, c, d);
    }
  }

  lemma CreateKeepsCount(s: State, clust: nat, end: nat, r: nat, s': State)
    requires Created(s, clust, end, r, s') && CountRight(s)
    requires 2 <= |s.t| <= 0xFFF7 && end >= |s.t|
    ensures |s'.t| == |s.t| && CountRight(s')
  {
    hide Created;
    CreatedEffect(s, clust, end, r, s');
    if s' != s {
      FreeBound(s.t);
      TakenCount(s, clust, r, end);
    }
  }

  lemma TakenCount(s: State, clust: nat, r: nat, end: nat)
    requires Takes(s.t, clust, r) && end != 0 && |Free(s.t)| < 0xFFF7 && CountRight(s)
    ensures CountRight(Taken(s, clust, r, end))
  {
    LinkTakes(s.t, clust, r, end);
    assert r in Free(s.t);
    assert |Free(s.t) - {r}| == |Free(s.t)| - 1;
  }

  ghost predicate Takes(t: Table, clust: nat, r: nat) {
    && InRange(t, r) && t[r] == 0
    && (clust == 0 || (InRange(t, clust) && t[clust] >= |t|))
  }

  ghost function Taken(s: State, clust: nat, r: nat, end: nat): State
    requires Takes(s.t, clust, r)
  {
    State(Link(s.t, clust, r, end), r, Decremented(s.free))
  }

  /** A call changes nothing or takes the cluster it returns. */
  lemma CreatedEffect(s: State, clust: nat, end: nat, r: nat, s': State)
    requires Created(s, clust, end, r, s')
    ensures s' == s || (Takes(s.t, clust, r) && s' == Taken(s, clust, r, end))
  {
    if !(clust != 0 && (!InRange(s.t, clust) || s.t[clust] < |s.t|)) {
      var scl := ScanStart(s.t, s.last, clust);
      if c: nat :| StopsAt(s.t, scl, c) {
      }
    }
  }

  lemma {:induction false} RemoveUnknown(t: Table, c: nat)
    ensures Remove(t, UNKNOWN, c).2 == UNKNOWN
    decreases Used(t), if InRange(t, c) then 1 else 0
  {
    if !InRange(t, c) || t[c] == 1 {
    } else {
      RemoveRound(t, c);
      RemoveUnknown(t[c := 0], t[c]);
    }
  }
}
