/** calc_crc, the third form in crc16.cpp. It is meant to be the byte form without a loop, and is not always. */
module CrcShort {
  import opened BitLists
  import opened Crc16

  /** `a << n | a >> (8 - n)`. */
  function Rotated(a: Byte, n: nat): Byte
    requires n <= 8
  {
    Or(Shl(a, n), Shr(a, 8 - n))
  }

  /** `a << 8` in 16 bits. */
  function Upper(a: Byte): Register {
    Zeros(8) + a
  }

  function Wide(a: Byte): Register {
    a + Zeros(8)
  }

  function HighByte(crc: Register): Byte {
    crc[8..]
  }

  /** The index of the computation: the incoming byte against the register's upper half. */
  function Index(crc: Register, value: Byte): Byte {
    Xor(value, HighByte(crc))
  }

  /** What calc_crc makes of the register, bit by bit. */
  function ShortBit(crc: Register, x: Byte, k: nat): bool
    requires k < 16
  {
    match k
    case 0 => x[0] case 1 => x[1] case 2 => x[2] case 3 => x[3] case 4 => x[4]
    case 5 => x[5] != x[0] case 6 => x[6] != x[1] case 7 => x[7] != x[2]
    case 8 => crc[0] != x[2] case 9 => crc[1] != x[3] case 10 => crc[2] != x[4] case 11 => crc[3] != x[5]
    case 12 => crc[4] != (x[6] != x[0]) case 13 => crc[5] != x[1] case 14 => crc[6] != x[2] case _ => crc[7] != x[3]
  }

  function Short(crc: Register, value: Byte): Register {
    seq(16, k requires 0 <= k < 16 => ShortBit(crc, Folded(Index(crc, value)), k))
  }

  lemma ShortBits(crc: Register, value: Byte)
    ensures var r, x := Short(crc, value), Folded(Index(crc, value));
            && r[0] == x[0] && r[1] == x[1] && r[2] == x[2] && r[3] == x[3] && r[4] == x[4]
            && r[5] == (x[5] != x[0]) && r[6] == (x[6] != x[1]) && r[7] == (x[7] != x[2])
            && r[8] == (crc[0] != x[2]) && r[9] == (crc[1] != x[3]) && r[10] == (crc[2] != x[4])
            && r[11] == (crc[3] != x[5])
            && r[12] == (crc[4] != (x[6] != x[0])) && r[13] == (crc[5] != x[1]) && r[14] == (crc[6] != x[2])
            && r[15] == (crc[7] != x[3])
  {
    hide Folded, Index;
  }

  /** The upper half folded onto itself. */
  function Folded(l: Byte): Byte {
    [l[0] != l[4], l[1] != l[5], l[2] != l[6], l[3] != l[7], l[4], l[5], l[6], l[7]]
  }

  method CalcCrc(crc: Register, value: Byte) returns (r: Register)
    ensures r == Short(crc, value)
  {
    hide Xor, And, Or, Shl, Shr, Word, Rotated, Upper, Wide, Folded, Short, First, Second, Third;
    r := crc;
    var l: Byte := Xor(value, HighByte(r));
    ghost var x := Folded(l);
    r := Or(And(r, Word(16, {0, 1, 2, 3, 4, 5, 6, 7})), Upper(l));
    UpperReplaced(crc, l);
    FoldedIs(l);
    l := Shr(l, 4);
    l := Xor(l, HighByte(r));
    LowerReplaced(r, l);
    r := Shl(r, 8);
    r := Or(And(r, Word(16, {8, 9, 10, 11, 12, 13, 14, 15})), Wide(l));
    l := Rotated(l, 4);
    var h := l;
    Parts(x);
    l := Rotated(l, 2);
    l := And(l, Word(8, {0, 1, 2, 3, 4}));
    Mixed(crc, value);
    r := Xor(r, Upper(l));
    l := And(h, Word(8, {4, 5, 6, 7}));
    r := Xor(r, Upper(l));
    l := Rotated(h, 1);
    l := And(l, Word(8, {5, 6, 7}));
    r := Xor(r, Wide(l));
  }

  lemma UpperReplaced(crc: Register, l: Byte)
    ensures var r := Or(And(crc, Word(16, {0, 1, 2, 3, 4, 5, 6, 7})), Upper(l)); r[8..] == l && r[..8] == crc[..8]
  {
  }

  lemma LowerReplaced(crc: Register, l: Byte)
    ensures Or(And(Shl(crc, 8), Word(16, {8, 9, 10, 11, 12, 13, 14, 15})), Wide(l)) == l + crc[..8]
  {
  }

  lemma FoldedIs(l: Byte)
    ensures Xor(Shr(l, 4), l) == Folded(l)
  {
  }

  /** The three corrections. */
  function First(x: Byte): Byte {
    [x[2], x[3], x[4], x[5], x[6], false, false, false]
  }

  function Second(x: Byte): Byte {
    [false, false, false, false, x[0], x[1], x[2], x[3]]
  }

  function Third(x: Byte): Byte {
    [false, false, false, false, false, x[0], x[1], x[2]]
  }

  lemma Parts(x: Byte)
    ensures var h := Rotated(x, 4);
            && And(Rotated(h, 2), Word(8, {0, 1, 2, 3, 4})) == First(x)
            && And(h, Word(8, {4, 5, 6, 7})) == Second(x)
            && And(Rotated(h, 1), Word(8, {5, 6, 7})) == Third(x)
  {
    assert Rotated(x, 4) == [x[4], x[5], x[6], x[7], x[0], x[1], x[2], x[3]];
  }

  lemma MixedBits(x: Byte, low: Byte)
    ensures var r := Xor(Xor(Xor(x + low, Upper(First(x))), Upper(Second(x))), Wide(Third(x)));
            && r[0] == x[0] && r[1] == x[1] && r[2] == x[2] && r[3] == x[3] && r[4] == x[4]
            && r[5] == (x[5] != x[0]) && r[6] == (x[6] != x[1]) && r[7] == (x[7] != x[2])
            && r[8] == (low[0] != x[2]) && r[9] == (low[1] != x[3]) && r[10] == (low[2] != x[4])
            && r[11] == (low[3] != x[5])
            && r[12] == (low[4] != (x[6] != x[0])) && r[13] == (low[5] != x[1]) && r[14] == (low[6] != x[2])
            && r[15] == (low[7] != x[3])
  {
    hide Xor, Upper, Wide;
    LowBits(x);
    HighBits(x, low);
    hide First, Second, Third;
    InHalves(x, low, First(x), Second(x), Third(x));
  }

  lemma InHalves(x: Byte, low: Byte, a: Byte, b: Byte, c: Byte)
    ensures Xor(Xor(Xor(x + low, Upper(a)), Upper(b)), Wide(c)) == Xor(x, c) + Xor(Xor(low, a), b)
  {
    hide Xor, Upper, Wide;
    Halves(x, low, a);
    Halves(x, Xor(low, a), b);
    Halves(x, Xor(Xor(low, a), b), c);
  }

  lemma LowBits(x: Byte)
    ensures var r := Xor(x, Third(x));
            && r[0] == x[0] && r[1] == x[1] && r[2] == x[2] && r[3] == x[3] && r[4] == x[4]
            && r[5] == (x[5] != x[0]) && r[6] == (x[6] != x[1]) && r[7] == (x[7] != x[2])
  {
    hide Xor;
    XorBits(x, Third(x));
  }

  lemma HighBits(x: Byte, low: Byte)
    ensures var r := Xor(Xor(low, First(x)), Second(x));
            && r[0] == (low[0] != x[2]) && r[1] == (low[1] != x[3]) && r[2] == (low[2] != x[4])
            && r[3] == (low[3] != x[5])
            && r[4] == (low[4] != (x[6] != x[0])) && r[5] == (low[5] != x[1]) && r[6] == (low[6] != x[2])
            && r[7] == (low[7] != x[3])
  {
    hide Xor;
    XorBits(low, First(x));
    XorBits(Xor(low, First(x)), Second(x));
  }

  lemma Mixed(crc: Register, value: Byte)
    ensures var x := Folded(Index(crc, value));
            Xor(Xor(Xor(x + crc[..8], Upper(First(x))), Upper(Second(x))), Wide(Third(x))) == Short(crc, value)
  {
    hide Xor, Upper, Wide, Short, Folded, Index, First, Second, Third;
    var x: Byte := Folded(Index(crc, value));
    MixedBits(x, crc[..8]);
    ShortBits(crc, value);
    SameRegister(Xor(Xor(Xor(x + crc[..8], Upper(First(x))), Upper(Second(x))), Wide(Third(x))), Short(crc, value));
  }

  /** Each half is mixed for itself. */
  lemma Halves(low: Byte, high: Byte, a: Byte)
    ensures Xor(low + high, Upper(a)) == low + Xor(high, a)
    ensures Xor(low + high, Wide(a)) == Xor(low, a) + high
  {
  }

  lemma XorBits(a: Byte, b: Byte)
    ensures var r := Xor(a, b);
            && r[0] == (a[0] != b[0]) && r[1] == (a[1] != b[1]) && r[2] == (a[2] != b[2]) && r[3] == (a[3] != b[3])
            && r[4] == (a[4] != b[4]) && r[5] == (a[5] != b[5]) && r[6] == (a[6] != b[6]) && r[7] == (a[7] != b[7])
  {
  }

  lemma SameRegister(s: Register, t: Register)
    requires s[0] == t[0] && s[1] == t[1] && s[2] == t[2] && s[3] == t[3] && s[4] == t[4] && s[5] == t[5]
    requires s[6] == t[6] && s[7] == t[7]
    requires s[8] == t[8] && s[9] == t[9] && s[10] == t[10] && s[11] == t[11] && s[12] == t[12] && s[13] == t[13]
    requires s[14] == t[14]
    requires s[15] == t[15]
    ensures s == t
  {
  }

  // ------------------------------------------------------------ the byte form, without its loop

  /** One step of the register, bit by bit. */
  lemma OneStep(d: bool, x: Register)
    ensures var f := x[15] != d;
            var r := SerialStep(d, x);
            && r[0] == f && r[1] == x[0] && r[2] == x[1] && r[3] == x[2] && r[4] == x[3] && r[5] == (x[4] != f)
            && r[6] == x[5] && r[7] == x[6] && r[8] == x[7] && r[9] == x[8] && r[10] == x[9] && r[11] == x[10]
            && r[12] == (x[11] != f) && r[13] == x[12] && r[14] == x[13] && r[15] == x[14]
  {
    hide SerialStep;
    SerialBit(d, x, 0); SerialBit(d, x, 1); SerialBit(d, x, 2);
    SerialBit(d, x, 3); SerialBit(d, x, 4); SerialBit(d, x, 5);
    SerialBit(d, x, 6); SerialBit(d, x, 7); SerialBit(d, x, 8);
    SerialBit(d, x, 9); SerialBit(d, x, 10); SerialBit(d, x, 11);
    SerialBit(d, x, 12); SerialBit(d, x, 13); SerialBit(d, x, 14); SerialBit(d, x, 15);
  }

  /** The register after a byte, bit by bit. */
  function LongBit(crc: Register, x: Byte, k: nat): bool
    requires k < 16
  {
    match k
    case 0 => x[0] case 1 => x[1] case 2 => x[2] case 3 => x[3] case 4 => x[4]
    case 5 => x[5] != x[0] case 6 => x[6] != x[1] case 7 => x[7] != x[2]
    case 8 => crc[0] != x[3] case 9 => crc[1] != x[4] case 10 => crc[2] != x[5] case 11 => crc[3] != x[6]
    case 12 => crc[4] != (x[7] != x[0]) case 13 => crc[5] != x[1] case 14 => crc[6] != x[2] case _ => crc[7] != x[3]
  }

  function Long(crc: Register, value: Byte): Register {
    seq(16, k requires 0 <= k < 16 => LongBit(crc, Folded(Index(crc, value)), k))
  }

  lemma LongBits(crc: Register, value: Byte)
    ensures var r, x := Long(crc, value), Folded(Index(crc, value));
            && r[0] == x[0] && r[1] == x[1] && r[2] == x[2] && r[3] == x[3] && r[4] == x[4]
            && r[5] == (x[5] != x[0]) && r[6] == (x[6] != x[1]) && r[7] == (x[7] != x[2])
            && r[8] == (crc[0] != x[3]) && r[9] == (crc[1] != x[4]) && r[10] == (crc[2] != x[5])
            && r[11] == (crc[3] != x[6])
            && r[12] == (crc[4] != (x[7] != x[0])) && r[13] == (crc[5] != x[1]) && r[14] == (crc[6] != x[2])
            && r[15] == (crc[7] != x[3])
  {
    hide Folded, Index;
  }

  lemma FoldedBits(crc: Register, value: Byte)
    ensures IsFolded(Folded(Index(crc, value)), crc, value)
  {
    var l := Index(crc, value);
    IndexBits(crc, value);
    hide Index;
    assert Folded(l)[0] == (l[0] != l[4]);
  }

  lemma IndexBits(crc: Register, value: Byte)
    ensures var l := Index(crc, value);
            && l[0] == (value[0] != crc[8]) && l[1] == (value[1] != crc[9]) && l[2] == (value[2] != crc[10])
            && l[3] == (value[3] != crc[11])
            && l[4] == (value[4] != crc[12]) && l[5] == (value[5] != crc[13]) && l[6] == (value[6] != crc[14])
            && l[7] == (value[7] != crc[15])
  {
  }

  lemma TwoSteps(d: bool, e: bool, x: Register)
    ensures var f, g := x[15] != d, x[14] != e;
            var r := SerialStep(e, SerialStep(d, x));
            && r[0] == g && r[1] == f && r[2] == x[0] && r[3] == x[1] && r[4] == x[2] && r[5] == (x[3] != g)
            && r[6] == (x[4] != f) && r[7] == x[5] && r[8] == x[6] && r[9] == x[7] && r[10] == x[8] && r[11] == x[9]
            && r[12] == (x[10] != g) && r[13] == (x[11] != f) && r[14] == x[12] && r[15] == x[13]
  {
    hide SerialStep;
    OneStep(d, x);
    OneStep(e, SerialStep(d, x));
  }

  lemma FourSteps(d: bool, e: bool, d': bool, e': bool, x: Register)
    ensures var f, g, f', g' := x[15] != d, x[14] != e, x[13] != d', x[12] != e';
            var r := SerialStep(e', SerialStep(d', SerialStep(e, SerialStep(d, x))));
            && r[0] == g' && r[1] == f' && r[2] == g && r[3] == f && r[4] == x[0]
            && r[5] == (x[1] != g') && r[6] == (x[2] != f') && r[7] == (x[3] != g) && r[8] == (x[4] != f)
            && r[9] == x[5] && r[10] == x[6] && r[11] == x[7]
            && r[12] == (x[8] != g') && r[13] == (x[9] != f') && r[14] == (x[10] != g) && r[15] == (x[11] != f)
  {
    hide SerialStep;
    TwoSteps(d, e, x);
    TwoSteps(d', e', SerialStep(e, SerialStep(d, x)));
  }

  /** The bits of the folded index, from those of the byte and of the register. */
  predicate IsFolded(x: Byte, crc: Register, value: Byte) {
    && x[0] == ((value[0] != crc[8]) != (value[4] != crc[12]))
    && x[1] == ((value[1] != crc[9]) != (value[5] != crc[13]))
    && x[2] == ((value[2] != crc[10]) != (value[6] != crc[14]))
    && x[3] == ((value[3] != crc[11]) != (value[7] != crc[15]))
    && x[4] == (value[4] != crc[12]) && x[5] == (value[5] != crc[13])
    && x[6] == (value[6] != crc[14]) && x[7] == (value[7] != crc[15])
  }

  /** The register half way through the byte. */
  predicate IsHalf(half: Register, crc: Register, x: Byte) {
    && half[0] == x[4] && half[1] == x[5] && half[2] == x[6] && half[3] == x[7] && half[4] == crc[0]
    && half[5] == (crc[1] != x[4]) && half[6] == (crc[2] != x[5]) && half[7] == (crc[3] != x[6])
    && half[8] == (crc[4] != x[7])
    && half[9] == crc[5] && half[10] == crc[6] && half[11] == crc[7]
    && half[12] == (crc[8] != x[4]) && half[13] == (crc[9] != x[5]) && half[14] == (crc[10] != x[6])
    && half[15] == (crc[11] != x[7])
  }

  lemma FirstHalf(crc: Register, value: Byte, x: Byte)
    requires IsFolded(x, crc, value)
    ensures IsHalf(SerialStep(value[4], SerialStep(value[5], SerialStep(value[6], SerialStep(value[7], crc)))), crc, x)
  {
    hide SerialStep;
    FourSteps(value[7], value[6], value[5], value[4], crc);
  }

  lemma SecondHalf(crc: Register, value: Byte, x: Byte, half: Register)
    requires IsFolded(x, crc, value) && IsHalf(half, crc, x)
    ensures var r := SerialStep(value[0], SerialStep(value[1], SerialStep(value[2], SerialStep(value[3], half))));
            && r[0] == x[0] && r[1] == x[1] && r[2] == x[2] && r[3] == x[3] && r[4] == x[4]
            && r[5] == (x[5] != x[0]) && r[6] == (x[6] != x[1]) && r[7] == (x[7] != x[2])
            && r[8] == (crc[0] != x[3]) && r[9] == (crc[1] != x[4]) && r[10] == (crc[2] != x[5])
            && r[11] == (crc[3] != x[6])
            && r[12] == (crc[4] != (x[7] != x[0])) && r[13] == (crc[5] != x[1]) && r[14] == (crc[6] != x[2])
            && r[15] == (crc[7] != x[3])
  {
    hide SerialStep, IsFolded;
    LowFeedback(crc, value, x, half);
    FourSteps(value[3], value[2], value[1], value[0], half);
  }

  lemma LowFeedback(crc: Register, value: Byte, x: Byte, half: Register)
    requires IsFolded(x, crc, value) && IsHalf(half, crc, x)
    ensures x[3] == (half[15] != value[3]) && x[2] == (half[14] != value[2])
    ensures x[1] == (half[13] != value[1]) && x[0] == (half[12] != value[0])
  {
  }

  lemma LongIs(crc: Register, value: Byte)
    ensures Feed(Stream(value), crc) == Long(crc, value)
  {
    hide SerialStep, Feed, Stream, Folded, Index, Long, IsFolded, IsHalf;
    var half := SerialStep(value[4], SerialStep(value[5], SerialStep(value[6], SerialStep(value[7], crc))));
    ByteUnrolled(crc, value, half);
    FoldedBits(crc, value);
    FirstHalf(crc, value, Folded(Index(crc, value)));
    SecondHalf(crc, value, Folded(Index(crc, value)), half);
    LongBits(crc, value);
    SameRegister(Feed(Stream(value), crc), Long(crc, value));
  }

  lemma FeedFour(bits: seq<bool>, n: nat, crc: Register)
    requires n + 4 <= |bits|
    ensures Feed(bits[..n + 4], crc)
         == SerialStep(bits[n + 3], SerialStep(bits[n + 2], SerialStep(bits[n + 1],
             SerialStep(bits[n], Feed(bits[..n], crc)))))
  {
    hide SerialStep, Feed;
    FeedOneMore(bits, n, crc);
    FeedOneMore(bits, n + 1, crc);
    FeedOneMore(bits, n + 2, crc);
    FeedOneMore(bits, n + 3, crc);
  }

  lemma ByteUnrolled(crc: Register, value: Byte, half: Register)
    requires half == SerialStep(value[4], SerialStep(value[5], SerialStep(value[6], SerialStep(value[7], crc))))
    ensures Feed(Stream(value), crc)
              == SerialStep(value[0], SerialStep(value[1], SerialStep(value[2], SerialStep(value[3], half))))
  {
    hide SerialStep, Feed, Stream;
    var bits := Stream(value);
    StreamBits(value);
    FeedNone(bits, crc);
    FeedFour(bits, 0, crc);
    FeedFour(bits, 4, crc);
  }

  lemma StreamBits(value: Byte)
    ensures var bits := Stream(value);
            && |bits| == 8 && bits[0] == value[7] && bits[1] == value[6] && bits[2] == value[5] && bits[3] == value[4]
            && bits[4] == value[3] && bits[5] == value[2] && bits[6] == value[1] && bits[7] == value[0]
  {
  }

  lemma FeedNone(bits: seq<bool>, crc: Register)
    ensures Feed(bits[..0], crc) == crc && bits[..|bits|] == bits
  {
  }

  /** calc_crc gives what the byte form gives if and only if the index is 00 to 03 or F0 to F3. */
  lemma ShortAgreesIff(crc: Register, value: Byte)
    ensures var l := Index(crc, value);
            Short(crc, value) == Feed(Stream(value), crc)
            <==> !l[2] && !l[3] && l[4] == l[5] == l[6] == l[7]
  {
    hide Feed, Stream, Short, Long, Index;
    LongIs(crc, value);
    ShortBits(crc, value);
    LongBits(crc, value);
    var s, t, l := Short(crc, value), Long(crc, value), Index(crc, value);
    if !l[2] && !l[3] && l[4] == l[5] == l[6] == l[7] {
      SameRegister(s, t);
    }
  }

  /** A byte for which it does not: 04 into the empty register gives 4184 and not 4084. */
  lemma ShortIsOff()
    ensures Short(Zeros(16), Word(8, {2})) == Word(16, {2, 7, 8, 14})
    ensures Feed(Stream(Word(8, {2})), Zeros(16)) == Word(16, {2, 7, 14})
  {
    hide Feed, Stream, Short, Long, Index, Folded;
    var zero, four := Zeros(16), Word(8, {2});
    LongIs(zero, four);
    FoldedBits(zero, four);
    ShortBits(zero, four);
    LongBits(zero, four);
    SameRegister(Short(zero, four), Word(16, {2, 7, 8, 14}));
    SameRegister(Long(zero, four), Word(16, {2, 7, 14}));
  }
}
