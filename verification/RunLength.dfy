/** The run-length code of the title screen in gfx.cpp: pairs of a count byte and a byte, a count of 0 standing
    for 256. */
module RunLength {
  import opened Storage

  function CountOf(b: Byte): nat {
    if b == 0 then 256 else b
  }

  function Repeat(b: Byte, n: nat): seq<Byte> {
    seq(n, _ => b)
  }

  /** What the decoder shows for a list of pairs. */
  function Expand(rle: seq<Byte>): seq<Byte> {
    if |rle| < 2 then [] else Expand(rle[..|rle| - 2]) + Repeat(rle[|rle| - 1], CountOf(rle[|rle| - 2]))
  }

  /** Pairs, of which two neighbours have the same byte only if the count of the first is full. */
  predicate RunsAreMaximal(rle: seq<Byte>) {
    |rle| % 2 == 0 && forall k: nat :: k < |rle| ==> FullIfContinued(rle, k)
  }

  predicate FullIfContinued(rle: seq<Byte>, k: nat) {
    k % 2 == 0 && k + 3 < |rle| && rle[k + 1] == rle[k + 3] ==> rle[k] == 0
  }

  /** The inner loop: how often the byte at `start` is repeated, up to 256 times. */
  method RunAt(data: seq<Byte>, start: nat) returns (cnt: nat)
    requires start < |data|
    ensures 1 <= cnt <= 256 && start + cnt <= |data| && data[start..start + cnt] == Repeat(data[start], cnt)
    ensures start + cnt < |data| && data[start + cnt] == data[start] ==> cnt == 256
  {
    hide Repeat;
    var byte, n := data[start], start;
    cnt := 0;
    RepeatOnce(byte, 0);
    while n < |data| && byte == data[n] && cnt < 256
      invariant 0 <= cnt <= 256 && start <= n <= |data| && n == start + cnt
      invariant data[start..n] == Repeat(byte, cnt) && (cnt == 0 ==> n == start)
      decreases |data| - n
    {
      RepeatOnce(byte, cnt);
      assert data[start..n + 1] == data[start..n] + [byte];
      cnt := cnt + 1;
      n := n + 1;
    }
  }

  /** The encoding loop. */
  method Encode(data: seq<Byte>) returns (rle: seq<Byte>)
    ensures Expand(rle) == data && RunsAreMaximal(rle)
  {
    hide Expand, Repeat, RunsAreMaximal;
    rle := [];
    var n := 0;
    ExpandNothing();
    while n < |data|
      invariant 0 <= n <= |data| && Expand(rle) == data[..n] && RunsAreMaximal(rle)
      invariant rle != [] ==> |rle| >= 2 && (n < |data| && data[n] == rle[|rle| - 1] ==> rle[|rle| - 2] == 0)
    {
      var byte := data[n];
      var cnt := RunAt(data, n);
      ExpandOnce(rle, cnt % 256, byte);
      assert data[..n + cnt] == data[..n] + data[n..n + cnt];
      OneMorePair(rle, cnt % 256, byte);
      rle := rle + [cnt % 256, byte];
      n := n + cnt;
    }
    assert data[..n] == data;
  }

  lemma OneMorePair(rle: seq<Byte>, count: Byte, b: Byte)
    requires RunsAreMaximal(rle) && (rle != [] && b == rle[|rle| - 1] ==> rle[|rle| - 2] == 0)
    ensures RunsAreMaximal(rle + [count, b])
  {
    forall k: nat | k < |rle| + 2 ensures FullIfContinued(rle + [count, b], k) {
      assert k < |rle| ==> FullIfContinued(rle, k);
    }
  }

  lemma ExpandNothing()
    ensures Expand([]) == [] && RunsAreMaximal([])
  {
  }

  lemma RepeatOnce(b: Byte, n: nat)
    ensures Repeat(b, 0) == [] && Repeat(b, n + 1) == Repeat(b, n) + [b]
  {
  }

  lemma ExpandOnce(rle: seq<Byte>, count: Byte, b: Byte)
    ensures Expand(rle + [count, b]) == Expand(rle) + Repeat(b, CountOf(count))
  {
    assert (rle + [count, b])[..|rle|] == rle;
  }

  /** The decoding loop: the bytes in the order they are put on the screen. */
  method Decode(rle: seq<Byte>) returns (shown: seq<Byte>)
    requires |rle| % 2 == 0
    ensures shown == Expand(rle)
  {
    hide Expand, Repeat;
    shown := [];
    var n := 0;
    ExpandNothing();
    while n < |rle|
      invariant 0 <= n <= |rle| && n % 2 == 0 && shown == Expand(rle[..n])
    {
      var cnt: nat, byte := rle[n], rle[n + 1];
      ghost var before := shown;
      if cnt == 0 {
        cnt := cnt + 256;
      }
      ghost var total := cnt;
      RepeatOnce(byte, 0);
      while cnt > 0
        invariant cnt <= total && shown == before + Repeat(byte, total - cnt)
      {
        cnt := cnt - 1;
        RepeatOnce(byte, total - cnt - 1);
        shown := shown + [byte];
      }
      assert rle[..n + 2] == rle[..n] + [rle[n], byte];
      ExpandOnce(rle[..n], rle[n], byte);
      n := n + 2;
    }
    assert rle[..n] == rle;
  }

  // ------------------------------------------------------------ the code is canonical

  lemma ExpandLast(rle: seq<Byte>)
    requires |rle| >= 2
    ensures Expand(rle) == Expand(rle[..|rle| - 2]) + Repeat(rle[|rle| - 1], CountOf(rle[|rle| - 2]))
  {
  }

  lemma {:induction false} ExpandFirst(rle: seq<Byte>)
    requires |rle| >= 2 && |rle| % 2 == 0
    ensures Expand(rle) == Repeat(rle[1], CountOf(rle[0])) + Expand(rle[2..])
  {
    hide *;
    ExpandLast(rle);
    if |rle| == 2 {
      ExpandNothing();
      assert rle[..0] == [] && rle[2..] == [];
    } else {
      var n := |rle| - 2;
      ExpandFirst(rle[..n]);
      ExpandLast(rle[2..]);
      assert rle[2..][..n - 2] == rle[..n][2..];
    }
  }

  /** A pair is the count and then the byte: it shows the byte that often, and 0 stands for 256. */
  lemma PairShows(count: Byte, b: Byte, rest: seq<Byte>)
    requires |rest| % 2 == 0
    ensures Expand([count, b] + rest) == seq(if count == 0 then 256 else count, _ => b) + Expand(rest)
  {
    ExpandsAs(count, b, rest);
    RepeatIs(b, count);
  }

  lemma ExpandsAs(count: Byte, b: Byte, rest: seq<Byte>)
    requires |rest| % 2 == 0
    ensures Expand([count, b] + rest) == Repeat(b, CountOf(count)) + Expand(rest)
  {
    hide *;
    var rle := [count, b] + rest;
    assert rle[0] == count && rle[1] == b && rle[2..] == rest;
    ExpandFirst(rle);
  }

  lemma RepeatIs(b: Byte, count: Byte)
    ensures Repeat(b, CountOf(count)) == seq(if count == 0 then 256 else count, _ => b)
  {
  }

  /** The first run of the text is the first pair: it ends where another byte begins, or is full. */
  lemma FirstRun(rle: seq<Byte>)
    requires |rle| >= 2 && RunsAreMaximal(rle)
    ensures RunsAreMaximal(rle[2..]) && IsRun(Expand(rle), CountOf(rle[0]), rle[1])
    ensures Expand(rle)[CountOf(rle[0])..] == Expand(rle[2..])
  {
    hide Expand, Repeat, IsRun;
    ExpandFirst(rle);
    forall k: nat | k < |rle[2..]| ensures FullIfContinued(rle[2..], k) {
      assert FullIfContinued(rle, k + 2);
    }
    if |rle| >= 4 {
      FirstByte(rle[2..]);
      assert FullIfContinued(rle, 0);
    } else {
      Empty(rle[2..]);
    }
    RunThen(rle[1], CountOf(rle[0]), Expand(rle[2..]));
  }

  lemma FirstByte(rle: seq<Byte>)
    requires |rle| >= 2 && |rle| % 2 == 0
    ensures Expand(rle) != [] && Expand(rle)[0] == rle[1]
  {
    hide Expand;
    ExpandFirst(rle);
  }

  lemma RunThen(b: Byte, n: nat, rest: seq<Byte>)
    requires 1 <= n <= 256 && (n < 256 && rest != [] ==> rest[0] != b)
    ensures IsRun(Repeat(b, n) + rest, n, b) && (Repeat(b, n) + rest)[n..] == rest
  {
  }

  /** The text begins with a run of exactly `n`, or one of more than 256 if `n` is 256. */
  predicate IsRun(t: seq<Byte>, n: nat, b: Byte) {
    && 1 <= n <= 256 && n <= |t| && (forall k :: 0 <= k < n ==> t[k] == b)
    && (n < 256 && n < |t| ==> t[n] != b)
  }

  lemma OneRun(t: seq<Byte>, m: nat, a: Byte, n: nat, b: Byte)
    requires IsRun(t, m, a) && IsRun(t, n, b)
    ensures a == b && m == n
  {
    assert t[0] == a;
  }

  /** A text has one code of maximal runs only: the encoder's output is determined by it. */
  lemma {:induction false} CanonicalCode(a: seq<Byte>, b: seq<Byte>)
    requires RunsAreMaximal(a) && RunsAreMaximal(b) && Expand(a) == Expand(b)
    ensures a == b
    decreases |a|
  {
    hide Expand, FullIfContinued, IsRun;
    if |a| >= 2 { FirstRun(a); NotEmpty(a); } else { Empty(a); }
    if |b| >= 2 { FirstRun(b); NotEmpty(b); } else { Empty(b); }
    if |a| >= 2 && |b| >= 2 {
      OneRun(Expand(a), CountOf(a[0]), a[1], CountOf(b[0]), b[1]);
      CanonicalCode(a[2..], b[2..]);
      assert a == [a[0], a[1]] + a[2..] && b == [b[0], b[1]] + b[2..];
    }
  }

  lemma NotEmpty(rle: seq<Byte>)
    requires |rle| >= 2
    ensures Expand(rle) != []
  {
    assert |Repeat(rle[|rle| - 1], CountOf(rle[|rle| - 2]))| > 0;
  }

  lemma Empty(rle: seq<Byte>)
    requires |rle| < 2 && RunsAreMaximal(rle)
    ensures rle == [] && Expand(rle) == []
  {
  }
}
