/** The CRC register of crc16.cpp: a bit-serial form, a byte form, and the polynomial both of them divide by,
    x^16 + x^12 + x^5 + 1 (section 2 of ITU-T V.41). */
module Crc16 {
  import opened BitLists

  type Register = w: Bits | |w| == 16 witness Zeros(16)
  type Byte = w: Bits | |w| == 8 witness Zeros(8)

  // ------------------------------------------------------------ the two implementations

  /** The serial form as written: mask out bits 15, 11 and 4, move the rest up, and put the mixed bits back. */
  function SerialStep(d: bool, crc: Register): Register {
    var d15 := Xor(Word(16, if d then {0} else {}), Shr(And(crc, Word(16, {15})), 15));
    var tmp := Shl(And(crc, Not(Word(16, {15, 11, 4}))), 1);
    var tmp1 := Or(tmp, Shl(Xor(And(crc, Word(16, {11})), Shl(d15, 11)), 1));
    var tmp2 := Or(tmp1, Shl(Xor(And(crc, Word(16, {4})), Shl(d15, 4)), 1));
    Or(tmp2, d15)
  }

  /** Bit by bit: a shift, with the feedback `crc[15] ^ d` entering at the generator's low exponents. */
  lemma SerialBit(d: bool, crc: Register, k: nat)
    requires k < 16
    ensures SerialStep(d, crc)[k] == ((k > 0 && crc[k - 1]) != (k in {0, 5, 12} && crc[15] != d))
  {
    var d15 := Xor(Word(16, if d then {0} else {}), Shr(And(crc, Word(16, {15})), 15));
    assert forall j :: 0 <= j < 16 ==> d15[j] == (j == 0 && crc[15] != d);
    if k > 0 {
      assert Shl(And(crc, Not(Word(16, {15, 11, 4}))), 1)[k] == (k !in {16, 12, 5} && crc[k - 1]);
      assert Shl(Xor(And(crc, Word(16, {11})), Shl(d15, 11)), 1)[k] == (k == 12 && crc[11] != (crc[15] != d));
      assert Shl(Xor(And(crc, Word(16, {4})), Shl(d15, 4)), 1)[k] == (k == 5 && crc[4] != (crc[15] != d));
    }
  }

  /** The register after all of `bits`, first element first. */
  function Feed(bits: seq<bool>, crc: Register): Register {
    if bits == [] then crc else SerialStep(bits[|bits| - 1], Feed(bits[..|bits| - 1], crc))
  }

  /** The bits of a byte as the callers feed them, most significant first. */
  function Stream(b: Bits): seq<bool> {
    seq(|b|, k requires 0 <= k < |b| => b[|b| - 1 - k])
  }

  /** `b` after `n` of its shifts. */
  function Moved(byte: Byte, n: nat): Bits {
    Shl(Shl(byte + Zeros(8), 8), n)
  }

  lemma MovedOnce(byte: Byte, n: nat)
    requires n < 8
    ensures Moved(byte, n)[15] == Stream(byte)[n]
    ensures Shl(Moved(byte, n), 1) == Moved(byte, n + 1)
    ensures |Moved(byte, n)| == 16
  {
  }

  lemma ByteClock(crc: Register, b: Register)
    ensures Xor(Shl(crc, 1), if Xor(crc, b)[15] then Word(16, {0, 5, 12}) else Zeros(16)) == SerialStep(b[15], crc)
  {
    var t := if Xor(crc, b)[15] then Word(16, {0, 5, 12}) else Zeros(16);
    forall k | 0 <= k < 16 ensures Xor(Shl(crc, 1), t)[k] == SerialStep(b[15], crc)[k] {
      SerialBit(b[15], crc, k);
    }
  }

  lemma FeedOneMore(bits: seq<bool>, n: nat, crc: Register)
    requires n < |bits|
    ensures Feed(bits[..n + 1], crc) == SerialStep(bits[n], Feed(bits[..n], crc))
  {
    assert bits[..n + 1][..n] == bits[..n];
  }

  method CalcCrc1a(crc: Register, byte: Byte) returns (r: Register)
    ensures r == Feed(Stream(byte), crc)
  {
    r := crc;
    var i := 8;
    var b: Bits := Shl(byte + Zeros(8), 8);
    assert b == Moved(byte, 0);
    while i > 0
      invariant 0 <= i <= 8
      invariant b == Moved(byte, 8 - i)
      invariant r == Feed(Stream(byte)[..8 - i], crc)
    {
      MovedOnce(byte, 8 - i);
      ByteClock(r, b);
      FeedOneMore(Stream(byte), 8 - i, crc);
      i := i - 1;
      r := Xor(Shl(r, 1), if Xor(r, b)[15] then Word(16, {0, 5, 12}) else Zeros(16));
      b := Shl(b, 1);
    }
    assert Stream(byte)[..8] == Stream(byte);
  }

  /** A message as the serial form sees it. */
  function Message(bytes: seq<Byte>): seq<bool> {
    if bytes == [] then [] else Message(bytes[..|bytes| - 1]) + Stream(bytes[|bytes| - 1])
  }

  /** The loop over bytes with the byte form. */
  method SlowLoop(data: seq<Byte>, start: Register) returns (crc: Register)
    ensures crc == Feed(Message(data), start)
  {
    crc := start;
    for i := 0 to |data|
      invariant crc == Feed(Message(data[..i]), start)
    {
      crc := CalcCrc1a(crc, data[i]);
      MessageOneMore(data, i);
      FeedSplit(Message(data[..i]), Stream(data[i]), start);
    }
    assert data[..|data|] == data;
  }

  /** The loops over bytes and bits with the serial form. */
  method SerialLoop(data: seq<Byte>, start: Register) returns (crc: Register)
    ensures crc == Feed(Message(data), start)
  {
    crc := start;
    for i := 0 to |data|
      invariant crc == Feed(Message(data[..i]), start)
    {
      ghost var before := crc;
      var d := data[i];
      for b := 0 to 8
        invariant crc == Feed(Stream(d)[..b], before)
      {
        FeedOneMore(Stream(d), b, before);
        crc := SerialStep(d[7 - b], crc);
      }
      assert Stream(d)[..8] == Stream(d);
      MessageOneMore(data, i);
      FeedSplit(Message(data[..i]), Stream(d), start);
    }
    assert data[..|data|] == data;
  }

  lemma MessageOneMore(data: seq<Byte>, i: nat)
    requires i < |data|
    ensures Message(data[..i + 1]) == Message(data[..i]) + Stream(data[i])
  {
    assert data[..i + 1][..i] == data[..i];
  }

  // ------------------------------------------------------------ polynomials over GF(2)

  /** A polynomial is the set of the exponents that occur in it. */
  type Poly = set<int>

  function Plus(a: Poly, b: Poly): Poly { (a - b) + (b - a) }

  /** `x^k * a`. */
  ghost function Times(a: Poly, k: nat): (r: Poly)
    ensures forall e {:trigger e in r} :: e in r <==> e - k in a
  {
    var r := set e | e in a :: e + k;
    forall e ensures e in r <==> e - k in a {
      if e - k in a {
        assert (e - k) + k in r;
      }
    }
    r
  }

  /** `q` times the generator. */
  ghost function TimesG(q: Poly): (r: Poly)
    ensures forall e {:trigger e in r} ::
              e in r <==> (((e - 16 in q) != (e - 12 in q)) != ((e - 5 in q) != (e in q)))
  {
    Plus(Plus(Times(q, 16), Times(q, 12)), Plus(Times(q, 5), q))
  }

  /** The polynomial with these coefficients, the highest first. */
  ghost function Highest(bits: seq<bool>): (r: Poly)
    ensures forall e {:trigger e in r} :: e in r <==> 0 <= e < |bits| && bits[|bits| - 1 - e]
  {
    var r := set k | 0 <= k < |bits| && At(bits, k) :: k;
    assert forall k :: At(bits, k) <==> k in r;
    r
  }

  predicate At(bits: seq<bool>, k: int) {
    0 <= k < |bits| && bits[|bits| - 1 - k]
  }

  ghost function Content(crc: Register): Poly {
    set k | 0 <= k < 16 && crc[k] :: k
  }

  /** What is divided: the start value ahead of the message, all 16 places up. */
  ghost function Dividend(bits: seq<bool>, start: Register): Poly {
    Plus(Times(Content(start), |bits|), Times(Highest(bits), 16))
  }

  /** `r` is what is left of `a` after division by the generator. */
  ghost predicate Remainder(r: Poly, a: Poly) {
    (forall e :: e in r ==> 0 <= e < 16) && exists q: Poly :: Divides(q, a, r)
  }

  ghost predicate Divides(q: Poly, a: Poly, r: Poly) {
    (forall e :: e in q ==> 0 <= e) && Plus(a, r) == TimesG(q)
  }

  lemma TimesGLinear(p: Poly, q: Poly)
    ensures TimesG(Plus(p, q)) == Plus(TimesG(p), TimesG(q))
  {
  }

  lemma TimesGShift(q: Poly)
    ensures TimesG(Times(q, 1)) == Times(TimesG(q), 1)
  {
  }

  lemma ContentStep(d: bool, crc: Register)
    ensures var g := if crc[15] != d then {0} else {};
            Plus(Content(SerialStep(d, crc)), TimesG(g)) == Plus(Times(Content(crc), 1), if d then {16} else {})
  {
    var next := SerialStep(d, crc);
    forall k | 0 <= k < 16 ensures next[k] == ((k > 0 && crc[k - 1]) != (k in {0, 5, 12} && crc[15] != d)) {
      SerialBit(d, crc, k);
    }
    var g: Poly := if crc[15] != d then {0} else {};
    var rhs: Poly := Plus(Times(Content(crc), 1), if d then {16} else {});
    forall e ensures e in Plus(Content(next), TimesG(g)) <==> e in rhs {
      assert e - 1 in Content(crc) <==> 1 <= e <= 16 && crc[e - 1];
      assert e in Content(next) <==> 0 <= e < 16 && next[e];
      assert e in TimesG(g) <==> crc[15] != d && e in {0, 5, 12, 16};
    }
  }

  lemma DividendStep(bits: seq<bool>, d: bool, start: Register)
    ensures Dividend(bits + [d], start) == Plus(Times(Dividend(bits, start), 1), if d then {16} else {})
  {
  }

  /** Both implementations compute the remainder of the shifted message. */
  lemma {:induction false} FeedIsRemainder(bits: seq<bool>, start: Register)
    ensures Remainder(Content(Feed(bits, start)), Dividend(bits, start))
  {
    var q := Quotient(bits, start);
  }

  lemma {:induction false} Quotient(bits: seq<bool>, start: Register) returns (q: Poly)
    ensures Divides(q, Dividend(bits, start), Content(Feed(bits, start)))
  {
    if bits == [] {
      q := {};
    } else {
      var n := |bits| - 1;
      var d, front := bits[n], bits[..n];
      assert bits == front + [d];
      var crc := Feed(front, start);
      var p := Quotient(front, start);
      var g: Poly := if crc[15] != d then {0} else {};
      var t: Poly := if d then {16} else {};
      q := Plus(Times(p, 1), g);
      var dividend := Dividend(front, start);
      QuotientStep(p, dividend, Content(crc), g, t, Content(SerialStep(d, crc)));
      ContentStep(d, crc);
      DividendStep(front, d, start);
    }
  }

  lemma QuotientStep(p: Poly, dividend: Poly, c: Poly, g: Poly, t: Poly, next: Poly)
    requires Plus(dividend, c) == TimesG(p)
    ensures Plus(next, TimesG(g)) == Plus(Times(c, 1), t) ==>
            Plus(Plus(Times(dividend, 1), t), next) == TimesG(Plus(Times(p, 1), g))
  {
    TimesGLinear(Times(p, 1), g);
    TimesGShift(p);
    var x := Times(dividend, 1);
    var y := Times(c, 1);
    assert Times(Plus(dividend, c), 1) == Plus(x, y);
    if Plus(next, TimesG(g)) == Plus(y, t) {
      forall e ensures e in Plus(Plus(x, t), next) <==> e in Plus(Plus(x, y), TimesG(g)) {
        assert e in Plus(next, TimesG(g)) <==> e in Plus(y, t);
      }
    }
  }

  /** A nonzero multiple of the generator has degree 16 or more. */
  lemma SmallMultipleIsZero(d: Poly)
    requires forall e :: e in TimesG(d) ==> e < 16
    requires forall e :: e in d ==> 0 <= e
    ensures d == {}
  {
    if exists e :: e in d {
      var m := Largest(d);
      TopStays(d, m);
    }
  }

  lemma TopStays(d: Poly, m: int)
    requires m in d && forall e :: e in d ==> e <= m
    ensures m + 16 in TimesG(d)
  {
  }

  lemma Largest(s: Poly) returns (m: int)
    requires exists e :: e in s
    ensures m in s && forall e :: e in s ==> e <= m
  {
    var x :| x in s;
    m := x;
    assert forall e :: e in s ==> e == x || e in s - {x};
    if exists y :: y in s - {x} {
      var n := Largest(s - {x});
      m := if n < x then x else n;
    }
  }

  /** There is only one remainder. */
  lemma RemainderUnique(r: Poly, s: Poly, a: Poly)
    requires Remainder(r, a) && Remainder(s, a)
    ensures r == s
  {
    var p: Poly :| Divides(p, a, r);
    var q: Poly :| Divides(q, a, s);
    TimesGLinear(p, q);
    assert Plus(TimesG(p), TimesG(q)) == Plus(r, s);
    SmallMultipleIsZero(Plus(p, q));
    assert forall e :: e !in Plus(r, s);
  }

  // ------------------------------------------------------------ what the check value detects

  lemma StepLinear(d: bool, e: bool, x: Register, y: Register)
    ensures SerialStep(d != e, Xor(x, y)) == Xor(SerialStep(d, x), SerialStep(e, y))
  {
    forall k | 0 <= k < 16
      ensures SerialStep(d != e, Xor(x, y))[k] == (SerialStep(d, x)[k] != SerialStep(e, y)[k])
    {
      SerialBit(d, x, k);
      SerialBit(e, y, k);
      SerialBit(d != e, Xor(x, y), k);
    }
  }

  /** The register is linear over GF(2) in message and start value together. */
  lemma {:induction false} Linear(a: seq<bool>, b: seq<bool>, x: Register, y: Register)
    requires |a| == |b|
    ensures Feed(Xor(a, b), Xor(x, y)) == Xor(Feed(a, x), Feed(b, y))
  {
    hide SerialStep;
    if a != [] {
      var n := |a| - 1;
      Linear(a[..n], b[..n], x, y);
      assert Xor(a, b)[..n] == Xor(a[..n], b[..n]);
      StepLinear(a[n], b[n], Feed(a[..n], x), Feed(b[..n], y));
    } else {
      assert Xor(a, b) == [];
    }
  }

  lemma {:induction false} FeedSplit(a: seq<bool>, b: seq<bool>, x: Register)
    ensures Feed(a + b, x) == Feed(b, Feed(a, x))
  {
    hide SerialStep;
    if b == [] {
      assert a + b == a;
    } else {
      var n := |b| - 1;
      assert (a + b)[..|a| + n] == a + b[..n];
      FeedSplit(a, b[..n], x);
    }
  }

  lemma FeedFirst(bits: seq<bool>, x: Register)
    requires bits != []
    ensures Feed(bits, x) == Feed(bits[1..], SerialStep(bits[0], x))
  {
    hide SerialStep;
    assert bits == bits[..1] + bits[1..];
    FeedSplit(bits[..1], bits[1..], x);
    assert bits[..1][..0] == [];
  }

  /** At most 16 bits, laid out from the top of a register with zeros below. */
  function Aligned(bits: seq<bool>): Register {
    seq(16, k requires 0 <= k < 16 => 15 - k < |bits| && bits[15 - k])
  }

  lemma AlignedStep(bits: seq<bool>, x: Register)
    requires 1 <= |bits| <= 16
    ensures SerialStep(bits[0], x) == Aligned(bits[1..]) <==> x == Aligned(bits)
  {
    var y, above, here := SerialStep(bits[0], x), Aligned(bits[1..]), Aligned(bits);
    forall k | 0 <= k < 16
      ensures y[k] == ((k > 0 && x[k - 1]) != (k in {0, 5, 12} && x[15] != bits[0]))
    {
      SerialBit(bits[0], x, k);
    }
    assert forall k :: 0 <= k < 15 ==> above[k + 1] == here[k];
    assert y[0] == (x[15] != bits[0]) && above[0] == false && here[15] == bits[0];
    if y == above {
      forall k | 0 <= k < 15 ensures x[k] == here[k] {
        assert y[k + 1] == above[k + 1];
      }
    }
    if x == here {
      forall k | 0 <= k < 16 ensures y[k] == above[k] {
        if k > 0 {
          assert above[(k - 1) + 1] == here[k - 1];
        }
      }
    }
  }

  /** Up to 16 bits bring the register to zero exactly when they repeat what it holds from the top down. */
  lemma {:induction false} ZeroExactly(bits: seq<bool>, x: Register)
    requires |bits| <= 16
    ensures Feed(bits, x) == Zeros(16) <==> x == Aligned(bits)
    decreases |bits|
  {
    hide SerialStep;
    if bits == [] {
      assert Aligned([]) == Zeros(16);
    } else {
      FeedFirst(bits, x);
      ZeroExactly(bits[1..], SerialStep(bits[0], x));
      AlignedStep(bits, x);
    }
  }

  /** Feeding the check value after the message, high byte first, leaves zero, and no other 16 bits do. */
  lemma Residue(bits: seq<bool>, start: Register, check: Register)
    ensures Feed(bits + Stream(check), start) == Zeros(16) <==> check == Feed(bits, start)
  {
    hide SerialStep;
    FeedSplit(bits, Stream(check), start);
    ZeroExactly(Stream(check), Feed(bits, start));
    assert Aligned(Stream(check)) == check;
  }

  lemma {:induction false} ZerosKeepNonzero(n: nat, x: Register)
    ensures Feed(Zeros(n), x) == Zeros(16) <==> x == Zeros(16)
  {
    hide SerialStep;
    if n == 0 {
    } else {
      assert Zeros(n)[..n - 1] == Zeros(n - 1);
      ZerosKeepNonzero(n - 1, x);
      var y := Feed(Zeros(n - 1), x);
      ZeroExactly([false], y);
      assert [false][..0] == [] && Feed([false], y) == SerialStep(false, Feed([], y));
      assert Aligned([false]) == Zeros(16);
    }
  }

  lemma SplitBurst(e: Bits, from: nat, to: nat)
    requires from <= to <= |e|
    requires forall k :: 0 <= k < |e| && e[k] ==> from <= k < to
    ensures e == Zeros(from) + (e[from..to] + Zeros(|e| - to))
  {
  }

  lemma BurstBetweenZeros(before: nat, burst: Bits, after: nat)
    requires |burst| <= 16
    ensures Feed(Zeros(before) + (burst + Zeros(after)), Zeros(16)) == Zeros(16) <==> Zeros(16) == Aligned(burst)
  {
    hide SerialStep;
    FeedSplit(Zeros(before), burst + Zeros(after), Zeros(16));
    ZerosKeepNonzero(before, Zeros(16));
    FeedSplit(burst, Zeros(after), Zeros(16));
    ZerosKeepNonzero(after, Feed(burst, Zeros(16)));
    ZeroExactly(burst, Zeros(16));
  }

  lemma BurstAlone(e: Bits, from: nat, to: nat, k: nat)
    requires from <= k < to <= |e| && to <= from + 16 && e[k]
    requires forall j :: 0 <= j < |e| && e[j] ==> from <= j < to
    ensures Feed(e, Zeros(16)) != Zeros(16)
  {
    hide SerialStep, Feed, Aligned;
    SplitBurst(e, from, to);
    BurstBetweenZeros(from, e[from..to], |e| - to);
    AlignedNonzero(e[from..to], k - from);
  }

  lemma AlignedNonzero(bits: Bits, k: nat)
    requires k < |bits| <= 16 && bits[k]
    ensures Aligned(bits) != Zeros(16)
  {
    assert Aligned(bits)[15 - k] != Zeros(16)[15 - k];
  }

  /** Every error confined to 16 consecutive bits changes the check value, whatever the message and its length. */
  lemma BurstDetected(sent: seq<bool>, received: seq<bool>, from: nat, start: Register)
    requires |sent| == |received| && sent != received
    requires forall k :: 0 <= k < |sent| && sent[k] != received[k] ==> from <= k < from + 16
    ensures Feed(sent, start) != Feed(received, start)
  {
    hide SerialStep;
    var k :| 0 <= k < |sent| && sent[k] != received[k];
    BurstAlone(Xor(sent, received), from, if from + 16 <= |sent| then from + 16 else |sent|, k);
    Linear(sent, received, start, start);
    assert Xor(start, start) == Zeros(16) && Xor(Feed(sent, start), Feed(sent, start)) == Zeros(16);
  }

  /** The number of set bits, modulo 2. */
  function Odd(bits: seq<bool>): bool {
    if bits == [] then false else bits[|bits| - 1] != Odd(bits[..|bits| - 1])
  }

  lemma {:induction false} OddOfXor(a: Bits, b: Bits)
    requires |a| == |b|
    ensures Odd(Xor(a, b)) == (Odd(a) != Odd(b))
  {
    if a == [] {
    } else {
      var n := |a| - 1;
      assert Xor(a, b)[..n] == Xor(a[..n], b[..n]);
      OddOfXor(a[..n], b[..n]);
    }
  }

  lemma {:induction false} OddConcat(a: Bits, b: Bits)
    ensures Odd(a + b) == (Odd(a) != Odd(b))
  {
    if b == [] {
      assert a + b == a;
    } else {
      var n := |b| - 1;
      assert (a + b)[..|a| + n] == a + b[..n];
      OddConcat(a, b[..n]);
    }
  }

  lemma {:induction false} OddZeros(n: nat)
    ensures !Odd(Zeros(n))
  {
    if n == 0 {
    } else {
      assert Zeros(n)[..n - 1] == Zeros(n - 1);
      OddZeros(n - 1);
    }
  }

  lemma OddOne(d: bool)
    ensures Odd([d]) == d
  {
    assert [d][..0] == [];
  }

  lemma OddGenerator()
    ensures Odd(Word(16, {0, 5, 12}))
  {
    var one := [true];
    assert Word(16, {0, 5, 12}) == (one + Zeros(4)) + ((one + Zeros(6)) + (one + Zeros(3)));
    OddConcat(one + Zeros(4), (one + Zeros(6)) + (one + Zeros(3)));
    OddConcat(one + Zeros(6), one + Zeros(3));
    OddConcat(one, Zeros(4)); OddConcat(one, Zeros(6)); OddConcat(one, Zeros(3));
    OddZeros(4); OddZeros(6); OddZeros(3); OddOne(true);
  }

  lemma OddStep(d: bool, x: Register)
    ensures Odd(SerialStep(d, x)) == (Odd(x) != d)
  {
    var t := if x[15] != d then Word(16, {0, 5, 12}) else Zeros(16);
    var moved := [false] + x[..15];
    forall k | 0 <= k < 16 ensures SerialStep(d, x)[k] == (moved[k] != t[k]) {
      SerialBit(d, x, k);
    }
    assert SerialStep(d, x) == Xor(moved, t);
    OddParts(x, moved, t);
    OddGenerator();
    OddZeros(16);
  }

  lemma OddParts(x: Register, moved: Bits, t: Bits)
    requires moved == [false] + x[..15] && |t| == 16
    ensures Odd(Xor(moved, t)) == ((Odd(x) != x[15]) != Odd(t))
  {
    OddOfXor(moved, t);
    OddConcat([false], x[..15]);
    OddOne(false);
  }

  /** The generator has a factor x + 1, so the register's parity is the parity of everything fed so far. */
  lemma {:induction false} FeedParity(bits: seq<bool>, start: Register)
    ensures Odd(Feed(bits, start)) == (Odd(start) != Odd(bits))
  {
    hide SerialStep;
    if bits == [] {
    } else {
      FeedParity(bits[..|bits| - 1], start);
      OddStep(bits[|bits| - 1], Feed(bits[..|bits| - 1], start));
    }
  }

  /** Every error that flips an odd number of bits, wherever they are, changes the check value. */
  lemma {:induction false} OddErrorDetected(sent: seq<bool>, received: seq<bool>, start: Register)
    requires |sent| == |received| && Odd(Xor(sent, received))
    ensures Feed(sent, start) != Feed(received, start)
  {
    hide SerialStep;
    Linear(sent, received, start, start);
    FeedParity(Xor(sent, received), Xor(start, start));
    assert Xor(start, start) == Zeros(16) && Xor(Feed(sent, start), Feed(sent, start)) == Zeros(16);
    OddZeros(16);
  }
}
