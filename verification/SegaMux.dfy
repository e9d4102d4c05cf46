/** Recovering a decryption circuit: decrypt.cpp decrypts a ROM with a table and then searches, for each of 16 address
    selectors, a gate that explains one output bit. Configuration for the PENGO table. */
module SegaMux {
  import opened Storage

  const ROM_SIZE: nat := 0x8000

  /** Rows alternate between opcode and data use of a selector; columns are addressed by source bits 3 and 5. */
  const CONVTABLE: seq<seq<Byte>> := [
    [0xa0, 0x80, 0xa8, 0x88], [0x28, 0xa8, 0x08, 0x88],
    [0x28, 0xa8, 0x08, 0x88], [0xa0, 0x80, 0xa8, 0x88],
    [0xa0, 0x80, 0x20, 0x00], [0xa0, 0x80, 0x20, 0x00],
    [0x08, 0x28, 0x88, 0xa8], [0xa0, 0x80, 0xa8, 0x88],
    [0x08, 0x00, 0x88, 0x80], [0x28, 0xa8, 0x08, 0x88],
    [0xa0, 0x80, 0x20, 0x00], [0x08, 0x00, 0x88, 0x80],
    [0xa0, 0x80, 0x20, 0x00], [0xa0, 0x80, 0x20, 0x00],
    [0xa0, 0x80, 0x20, 0x00], [0x00, 0x08, 0x20, 0x28],
    [0x88, 0x80, 0x08, 0x00], [0xa0, 0x80, 0x20, 0x00],
    [0x88, 0x80, 0x08, 0x00], [0x00, 0x08, 0x20, 0x28],
    [0x08, 0x28, 0x88, 0xa8], [0x08, 0x28, 0x88, 0xa8],
    [0xa0, 0x80, 0xa8, 0x88], [0xa0, 0x80, 0x20, 0x00],
    [0x08, 0x00, 0x88, 0x80], [0x88, 0x80, 0x08, 0x00],
    [0x00, 0x08, 0x20, 0x28], [0x88, 0x80, 0x08, 0x00],
    [0x08, 0x28, 0x88, 0xa8], [0x08, 0x28, 0x88, 0xa8],
    [0x08, 0x00, 0x88, 0x80], [0xa0, 0x80, 0x20, 0x00]
  ]

  // ------------------------------------------------------------ bits

  /** A bit of a byte; the program looks at bits 3, 5 and 7 only. */
  function BitOf(x: Byte, bit: nat): nat {
    if bit == 3 then x / 8 % 2 else if bit == 5 then x / 32 % 2 else if bit == 7 then x / 128 % 2 else 0
  }

  /** `x & ~0xa8` */
  function Masked(x: Byte): nat {
    x - 8 * BitOf(x, 3) - 32 * BitOf(x, 5) - 128 * BitOf(x, 7)
  }

  /** The selector out of address bits 12, 8, 4 and 0. */
  function Sel(a: nat): (s: nat)
    ensures s < 16
  {
    a % 2 + 2 * (a / 16 % 2) + 4 * (a / 256 % 2) + 8 * (a / 4096 % 2)
  }

  // ------------------------------------------------------------ decryption

  function Column(src: Byte): nat {
    BitOf(src, 3) + 2 * BitOf(src, 5)
  }

  /** One byte of sega_decrypt with row `row` of the table: `(src & ~0xa8) | (entry ^ ex_or)`. */
  function Decoded(src: Byte, row: nat): nat
    requires row < 32
  {
    if BitOf(src, 7) == 1 then Masked(src) + (0xA8 - CONVTABLE[row][3 - Column(src)] as nat)
    else Masked(src) + CONVTABLE[row][Column(src)] as nat
  }

  // ------------------------------------------------------------ gates

  const OP_D3: nat := 0
  const OP_NOT_D3: nat := 1
  const OP_D5: nat := 2
  const OP_NOT_D5: nat := 3
  const OP_D7: nat := 4
  const OP_NOT_D7: nat := 5

  /** The operations on the three data bits. */
  function Gate(op: nat, d3: nat, d5: nat, d7: nat): int {
    if op == OP_D3 then d3 else if op == OP_NOT_D3 then 1 - d3
    else if op == OP_D5 then d5 else if op == OP_NOT_D5 then 1 - d5
    else if op == OP_D7 then d7 else 1 - d7
  }

  function Apply(op: nat, data: Byte): int {
    Gate(op, BitOf(data, 3), BitOf(data, 5), BitOf(data, 7))
  }

  predicate IsMuxBit(bit: nat) {
    bit == 3 || bit == 5 || bit == 7
  }

  /** The byte with these mux bits and `rest` in the other positions. */
  function Compose(rest: nat, d3: nat, d5: nat, d7: nat): nat {
    rest + 8 * d3 + 32 * d5 + 128 * d7
  }

  lemma BitOfWeight8(x: nat, high: nat, d: nat, low: nat)
    requires low < 8 && d < 2 && x == 16 * high + 8 * d + low
    ensures x / 8 % 2 == d
  {
    assert x / 8 == 2 * high + d;
  }

  lemma BitOfWeight1(x: nat, high: nat, d: nat)
    requires d < 2 && x == 2 * high + d
    ensures x % 2 == d
  {
  }

  lemma BitOfWeight16(x: nat, high: nat, d: nat, low: nat)
    requires low < 16 && d < 2 && x == 32 * high + 16 * d + low
    ensures x / 16 % 2 == d
  {
    assert x / 16 == 2 * high + d;
  }

  lemma BitOfWeight256(x: nat, high: nat, d: nat, low: nat)
    requires low < 256 && d < 2 && x == 512 * high + 256 * d + low
    ensures x / 256 % 2 == d
  {
    assert x / 256 == 2 * high + d;
  }

  lemma BitOfWeight4096(x: nat, high: nat, d: nat, low: nat)
    requires low < 4096 && d < 2 && x == 8192 * high + 4096 * d + low
    ensures x / 4096 % 2 == d
  {
    assert x / 4096 == 2 * high + d;
  }

  lemma BitOfWeight32(x: nat, high: nat, d: nat, low: nat)
    requires low < 32 && d < 2 && x == 64 * high + 32 * d + low
    ensures x / 32 % 2 == d
  {
    assert x / 32 == 2 * high + d;
  }

  lemma BitOfWeight128(x: nat, d: nat, low: nat)
    requires low < 128 && d < 2 && x == 128 * d + low
    ensures x / 128 % 2 == d
  {
    assert x / 128 == d;
  }

  lemma ComposedBits(l: nat, b4: nat, b6: nat, d3: nat, d5: nat, d7: nat)
    requires l < 8 && b4 < 2 && b6 < 2 && d3 < 2 && d5 < 2 && d7 < 2
    ensures var x := Compose(l + 16 * b4 + 64 * b6, d3, d5, d7);
            x < 256 && BitOf(x, 3) == d3 && BitOf(x, 5) == d5 && BitOf(x, 7) == d7
  {
    var x := Compose(l + 16 * b4 + 64 * b6, d3, d5, d7);
    BitOfWeight8(x, b4 + 2 * d5 + 4 * b6 + 8 * d7, d3, l);
    BitOfWeight32(x, b6 + 2 * d7, d5, l + 8 * d3 + 16 * b4);
    BitOfWeight128(x, d7, l + 8 * d3 + 16 * b4 + 32 * d5 + 64 * b6);
  }

  /** Masking takes the mux bits out, and any others may be put in. */
  lemma MaskedPlus(src: Byte, d3: nat, d5: nat, d7: nat)
    requires d3 < 2 && d5 < 2 && d7 < 2
    ensures var x := Compose(Masked(src), d3, d5, d7);
            x < 256 && BitOf(x, 3) == d3 && BitOf(x, 5) == d5 && BitOf(x, 7) == d7
  {
    var l, b4, b6 := src as int % 8, src as int / 16 % 2, src as int / 64 % 2;
    MaskedIs(src);
    ComposedBits(l, b4, b6, d3, d5, d7);
  }

  /** A byte is made of its bits. */
  lemma Bits(src: Byte)
    ensures src as int == src as int % 8 + 8 * BitOf(src, 3) + 16 * (src as int / 16 % 2) + 32 * BitOf(src, 5)
                          + 64 * (src as int / 64 % 2) + 128 * BitOf(src, 7)
  {
    Halves(src, 8);
    Halves(src, 16);
    Halves(src, 32);
    Halves(src, 64);
    assert src as int / 128 < 2;
  }

  lemma Halves(x: nat, w: nat)
    requires w in {8, 16, 32, 64}
    ensures x / w == 2 * (x / (2 * w)) + x / w % 2
  {
  }

  /** Masking leaves bits 0 to 2, 4 and 6. */
  lemma MaskedIs(src: Byte)
    ensures Masked(src) == src as int % 8 + 16 * (src as int / 16 % 2) + 64 * (src as int / 64 % 2)
  {
    Bits(src);
  }

  /** The gate that the four entries of a table row amount to for one output bit. */
  function RowGate(e: seq<Byte>, bit: nat): (op: nat)
    requires |e| == 4
    ensures op < 6
  {
    var e0, e1, e2 := BitOf(e[0], bit), BitOf(e[1], bit), BitOf(e[2], bit);
    if e0 != e1 then (if e0 == 0 then OP_D3 else OP_NOT_D3)
    else if e0 != e2 then (if e0 == 0 then OP_D5 else OP_NOT_D5)
    else if e0 == 0 then OP_D7 else OP_NOT_D7
  }

  predicate Follows(e: seq<Byte>, col: nat, bit: nat)
    requires |e| == 4 && col < 4
  {
    BitOf(e[col], bit) as int == Gate(RowGate(e, bit), col % 2, col / 2, 0)
  }

  /** A table row is a signed permutation of the three bits: no other bits occur, and each output bit follows one gate
      in all four columns. */
  predicate SignedPermutation(e: seq<Byte>) {
    |e| == 4 && ColumnOk(e, 0) && ColumnOk(e, 1) && ColumnOk(e, 2) && ColumnOk(e, 3)
  }

  predicate ColumnOk(e: seq<Byte>, col: nat)
    requires |e| == 4 && col < 4
  {
    && e[col] in {0x00, 0x08, 0x20, 0x28, 0x80, 0x88, 0xA0, 0xA8}
    && Follows(e, col, 3) && Follows(e, col, 5) && Follows(e, col, 7)
  }

  lemma OnlyMuxBits(v: Byte)
    requires v in {0x00, 0x08, 0x20, 0x28, 0x80, 0x88, 0xA0, 0xA8}
    ensures v as int == Compose(0, BitOf(v, 3), BitOf(v, 5), BitOf(v, 7))
  {
    hide BitOf;
    MuxBytes();
  }

  lemma MuxBytes()
    ensures BitOf(0x00, 3) == 0 && BitOf(0x00, 5) == 0 && BitOf(0x00, 7) == 0
    ensures BitOf(0xA8, 3) == 1 && BitOf(0xA8, 5) == 1 && BitOf(0xA8, 7) == 1
    ensures BitOf(0x08, 3) == 1 && BitOf(0x08, 5) == 0 && BitOf(0x08, 7) == 0
    ensures BitOf(0x20, 3) == 0 && BitOf(0x20, 5) == 1 && BitOf(0x20, 7) == 0
    ensures BitOf(0x28, 3) == 1 && BitOf(0x28, 5) == 1 && BitOf(0x28, 7) == 0
    ensures BitOf(0x80, 3) == 0 && BitOf(0x80, 5) == 0 && BitOf(0x80, 7) == 1
    ensures BitOf(0x88, 3) == 1 && BitOf(0x88, 5) == 0 && BitOf(0x88, 7) == 1
    ensures BitOf(0xA0, 3) == 0 && BitOf(0xA0, 5) == 1 && BitOf(0xA0, 7) == 1
  {
  }

  /** Seven different rows occur in the table, */
  lemma RowsOfTable(row: nat)
    requires row < 32
    ensures CONVTABLE[row] in {[0xA0, 0x80, 0xA8, 0x88], [0x28, 0xA8, 0x08, 0x88], [0xA0, 0x80, 0x20, 0x00],
                               [0x08, 0x28, 0x88, 0xA8], [0x08, 0x00, 0x88, 0x80], [0x00, 0x08, 0x20, 0x28],
                               [0x88, 0x80, 0x08, 0x00]}
  {
  }

  /** and each is a signed permutation. */
  lemma TableIsSignedPermutation(row: nat)
    requires row < 32
    ensures |CONVTABLE| == 32 && SignedPermutation(CONVTABLE[row])
  {
    hide SignedPermutation;
    RowsOfTable(row);
    var e := CONVTABLE[row];
    if e == [0xA0, 0x80, 0xA8, 0x88] {
      Pattern0(e);
    } else if e == [0x28, 0xA8, 0x08, 0x88] {
      Pattern1(e);
    } else if e == [0xA0, 0x80, 0x20, 0x00] {
      Pattern2(e);
    } else if e == [0x08, 0x28, 0x88, 0xA8] {
      Pattern3(e);
    } else if e == [0x08, 0x00, 0x88, 0x80] {
      Pattern4(e);
    } else if e == [0x00, 0x08, 0x20, 0x28] {
      Pattern5(e);
    } else {
      Pattern6(e);
    }
  }

  lemma Pattern0(e: seq<Byte>)
    requires e == [0xA0, 0x80, 0xA8, 0x88]
    ensures SignedPermutation(e)
  {
    hide BitOf;
    MuxBytes();
  }

  lemma Pattern1(e: seq<Byte>)
    requires e == [0x28, 0xA8, 0x08, 0x88]
    ensures SignedPermutation(e)
  {
    hide BitOf;
    MuxBytes();
  }

  lemma Pattern2(e: seq<Byte>)
    requires e == [0xA0, 0x80, 0x20, 0x00]
    ensures SignedPermutation(e)
  {
    hide BitOf;
    MuxBytes();
  }

  lemma Pattern3(e: seq<Byte>)
    requires e == [0x08, 0x28, 0x88, 0xA8]
    ensures SignedPermutation(e)
  {
    hide BitOf;
    MuxBytes();
  }

  lemma Pattern4(e: seq<Byte>)
    requires e == [0x08, 0x00, 0x88, 0x80]
    ensures SignedPermutation(e)
  {
    hide BitOf;
    MuxBytes();
  }

  lemma Pattern5(e: seq<Byte>)
    requires e == [0x00, 0x08, 0x20, 0x28]
    ensures SignedPermutation(e)
  {
    hide BitOf;
    MuxBytes();
  }

  lemma Pattern6(e: seq<Byte>)
    requires e == [0x88, 0x80, 0x08, 0x00]
    ensures SignedPermutation(e)
  {
    hide BitOf;
    MuxBytes();
  }

  lemma Mirror(op: nat, d3: nat, d5: nat)
    requires op < 6 && d3 < 2 && d5 < 2
    ensures 1 - Gate(op, 1 - d3, 1 - d5, 0) == Gate(op, d3, d5, 1)
  {
  }

  lemma Columns(src: Byte)
    ensures Column(src) < 4 && Column(src) % 2 == BitOf(src, 3) && Column(src) / 2 == BitOf(src, 5)
    ensures (3 - Column(src)) % 2 == 1 - BitOf(src, 3) && (3 - Column(src)) / 2 == 1 - BitOf(src, 5)
    ensures BitOf(src, 3) < 2 && BitOf(src, 5) < 2 && BitOf(src, 7) < 2
  {
  }

  /** The decrypted byte has the entry's bits, or for a set bit 7 their complements, for its mux bits. */
  lemma DecodedIs(src: Byte, row: nat) returns (c: nat, e: Byte, d3: nat, d5: nat, d7: nat)
    requires row < 32
    ensures |CONVTABLE| == 32 && |CONVTABLE[row]| == 4 && c < 4 && e == CONVTABLE[row][c] && ColumnOk(CONVTABLE[row], c)
    ensures c == if BitOf(src, 7) == 1 then 3 - Column(src) else Column(src)
    ensures d3 < 2 && d5 < 2 && d7 < 2
    ensures if BitOf(src, 7) == 1 then d3 == 1 - BitOf(e, 3) && d5 == 1 - BitOf(e, 5) && d7 == 1 - BitOf(e, 7)
            else d3 == BitOf(e, 3) && d5 == BitOf(e, 5) && d7 == BitOf(e, 7)
    ensures Decoded(src, row) == Compose(Masked(src), d3, d5, d7)
  {
    hide BitOf, Masked, RowGate, Gate, CONVTABLE, Compose;
    TableIsSignedPermutation(row);
    Columns(src);
    c := if BitOf(src, 7) == 1 then 3 - Column(src) else Column(src);
    e := CONVTABLE[row][c];
    BitsAreBits(e);
    assert ColumnOk(CONVTABLE[row], c);
    OnlyMuxBits(e);
    d3, d5, d7 := BitOf(e, 3), BitOf(e, 5), BitOf(e, 7);
    ComposeMasked(src, d3, d5, d7, e);
    if BitOf(src, 7) == 1 {
      d3, d5, d7 := 1 - d3, 1 - d5, 1 - d7;
    }
  }

  /** So every decrypted bit is its row's gate applied to the encrypted byte. */
  lemma DecodedFollowsGate(src: Byte, row: nat, bit: nat)
    requires row < 32 && IsMuxBit(bit)
    ensures Decoded(src, row) < 256
    ensures BitOf(Decoded(src, row), bit) as int == Apply(RowGate(CONVTABLE[row], bit), src)
  {
    hide BitOf, Masked, RowGate, Gate, CONVTABLE, Compose, Decoded;
    var c, e, d3, d5, d7 := DecodedIs(src, row);
    Columns(src);
    MaskedPlus(src, d3, d5, d7);
    if BitOf(src, 7) == 1 {
      Mirror(RowGate(CONVTABLE[row], bit), BitOf(src, 3), BitOf(src, 5));
    }
  }

  lemma ComposeMasked(src: Byte, d3: nat, d5: nat, d7: nat, e: Byte)
    requires e as int == Compose(0, d3, d5, d7) && d3 < 2 && d5 < 2 && d7 < 2
    ensures Compose(Masked(src), d3, d5, d7) == Masked(src) + e as nat
    ensures Compose(Masked(src), 1 - d3, 1 - d5, 1 - d7) == Masked(src) + (0xA8 - e as nat)
  {
  }

  lemma BitsAreBits(x: Byte)
    ensures BitOf(x, 3) < 2 && BitOf(x, 5) < 2 && BitOf(x, 7) < 2
  {
  }

  /** The circuit behind the table, as the search is to find it: `Circuit(2 * s)` lists the gates of output bits 3, 5
      and 7 that selector `s` stands for with opcodes, and the next row those for data. */
  function Circuit(row: nat): (c: seq<nat>)
    requires row < 32
    ensures |c| == 3 && c[0] < 6 && c[1] < 6 && c[2] < 6
  {
    [
      [2, 1, 5], [5, 3, 0], [5, 3, 0], [2, 1, 5], [4, 1, 3], [4, 1, 3], [5, 0, 2], [2, 1, 5],
      [1, 4, 2], [5, 3, 0], [4, 1, 3], [1, 4, 2], [4, 1, 3], [4, 1, 3], [4, 1, 3], [0, 2, 4],
      [1, 4, 3], [4, 1, 3], [1, 4, 3], [0, 2, 4], [5, 0, 2], [5, 0, 2], [2, 1, 5], [4, 1, 3],
      [1, 4, 2], [1, 4, 3], [0, 2, 4], [1, 4, 3], [5, 0, 2], [5, 0, 2], [1, 4, 2], [4, 1, 3]
    ][row]
  }

  lemma GatesOfPattern(e: seq<Byte>)
    requires |e| == 4
    ensures e == [0xA0, 0x80, 0xA8, 0x88] ==> RowGate(e, 3) == 2 && RowGate(e, 5) == 1 && RowGate(e, 7) == 5
    ensures e == [0x28, 0xA8, 0x08, 0x88] ==> RowGate(e, 3) == 5 && RowGate(e, 5) == 3 && RowGate(e, 7) == 0
    ensures e == [0xA0, 0x80, 0x20, 0x00] ==> RowGate(e, 3) == 4 && RowGate(e, 5) == 1 && RowGate(e, 7) == 3
    ensures e == [0x08, 0x28, 0x88, 0xA8] ==> RowGate(e, 3) == 5 && RowGate(e, 5) == 0 && RowGate(e, 7) == 2
    ensures e == [0x08, 0x00, 0x88, 0x80] ==> RowGate(e, 3) == 1 && RowGate(e, 5) == 4 && RowGate(e, 7) == 2
    ensures e == [0x00, 0x08, 0x20, 0x28] ==> RowGate(e, 3) == 0 && RowGate(e, 5) == 2 && RowGate(e, 7) == 4
    ensures e == [0x88, 0x80, 0x08, 0x00] ==> RowGate(e, 3) == 1 && RowGate(e, 5) == 4 && RowGate(e, 7) == 3
  {
    hide BitOf;
    MuxBytes();
  }

  predicate Belong(e: seq<Byte>, c: seq<nat>) {
    || (e == [0xA0, 0x80, 0xA8, 0x88] && c == [2, 1, 5]) || (e == [0x28, 0xA8, 0x08, 0x88] && c == [5, 3, 0])
    || (e == [0xA0, 0x80, 0x20, 0x00] && c == [4, 1, 3]) || (e == [0x08, 0x28, 0x88, 0xA8] && c == [5, 0, 2])
    || (e == [0x08, 0x00, 0x88, 0x80] && c == [1, 4, 2]) || (e == [0x00, 0x08, 0x20, 0x28] && c == [0, 2, 4])
    || (e == [0x88, 0x80, 0x08, 0x00] && c == [1, 4, 3])
  }

  lemma RowsOfCircuit(row: nat)
    requires row < 32
    ensures |CONVTABLE| == 32 && Belong(CONVTABLE[row], Circuit(row))
  {
    hide CONVTABLE, Circuit, Belong;
    if row < 8 {
      Rows0(row);
    } else if row < 16 {
      Rows8(row);
    } else if row < 24 {
      Rows16(row);
    } else {
      Rows24(row);
    }
  }

  lemma Rows0(row: nat)
    requires row < 8
    ensures |CONVTABLE| == 32 && Belong(CONVTABLE[row], Circuit(row))
  {
  }

  lemma Rows8(row: nat)
    requires 8 <= row < 16
    ensures |CONVTABLE| == 32 && Belong(CONVTABLE[row], Circuit(row))
  {
  }

  lemma Rows16(row: nat)
    requires 16 <= row < 24
    ensures |CONVTABLE| == 32 && Belong(CONVTABLE[row], Circuit(row))
  {
  }

  lemma Rows24(row: nat)
    requires 24 <= row < 32
    ensures |CONVTABLE| == 32 && Belong(CONVTABLE[row], Circuit(row))
  {
  }

  lemma CircuitOfRow(row: nat)
    requires row < 32
    ensures RowGate(CONVTABLE[row], 3) == Circuit(row)[0] && RowGate(CONVTABLE[row], 5) == Circuit(row)[1]
    ensures RowGate(CONVTABLE[row], 7) == Circuit(row)[2]
  {
    hide RowGate, CONVTABLE, Circuit;
    RowsOfCircuit(row);
    GatesOfPattern(CONVTABLE[row]);
  }

  /** Even gates take one of the bits 3, 5 and 7 of the encrypted byte as it is, odd gates turn it round. */
  lemma GateTakes(gate: nat, data: Byte)
    requires gate < 6
    ensures Apply(gate, data) == [data as int / 8 % 2, 1 - data as int / 8 % 2, data as int / 32 % 2,
                                  1 - data as int / 32 % 2, data as int / 128 % 2, 1 - data as int / 128 % 2][gate]
  {
  }

  /** The selector is read from address bits 0, 4, 8 and 12, whatever the others are. */
  lemma SelectorBits(b0: nat, b4: nat, b8: nat, b12: nat, from1: nat, from5: nat, from9: nat, from13: nat)
    requires b0 < 2 && b4 < 2 && b8 < 2 && b12 < 2 && from1 < 8 && from5 < 8 && from9 < 8
    ensures Sel(b0 + 2 * from1 + 16 * b4 + 32 * from5 + 256 * b8 + 512 * from9 + 4096 * b12 + 8192 * from13)
         == b0 + 2 * b4 + 4 * b8 + 8 * b12
  {
    var a := b0 + 2 * from1 + 16 * b4 + 32 * from5 + 256 * b8 + 512 * from9 + 4096 * b12 + 8192 * from13;
    BitOfWeight1(a, from1 + 8 * b4 + 16 * from5 + 128 * b8 + 256 * from9 + 2048 * b12 + 4096 * from13, b0);
    BitOfWeight16(a, from5 + 8 * b8 + 16 * from9 + 128 * b12 + 256 * from13, b4, b0 + 2 * from1);
    BitOfWeight256(a, from9 + 8 * b12 + 16 * from13, b8, b0 + 2 * from1 + 16 * b4 + 32 * from5);
    BitOfWeight4096(a, from13, b12, b0 + 2 * from1 + 16 * b4 + 32 * from5 + 256 * b8 + 512 * from9);
  }

  // ------------------------------------------------------------ sega_decrypt

  /** What sega_decrypt makes of one ROM byte, as an opcode or as data. */
  function Plain(rom: seq<Byte>, a: nat, opcode: bool): Byte
    requires a < |rom|
  {
    var row := 2 * Sel(a) + if opcode then 0 else 1;
    DecodedFollowsGate(rom[a], row, 3);
    Decoded(rom[a], row)
  }

  lemma RestOfComposed(l: nat, b4: nat, b6: nat, d3: nat, d5: nat, d7: nat)
    requires l < 8 && b4 < 2 && b6 < 2 && d3 < 2 && d5 < 2 && d7 < 2
    ensures var x := Compose(l + 16 * b4 + 64 * b6, d3, d5, d7); x % 8 == l && x / 16 % 2 == b4 && x / 64 % 2 == b6
  {
    var x := Compose(l + 16 * b4 + 64 * b6, d3, d5, d7);
    assert x / 16 == b4 + 2 * d5 + 4 * b6 + 8 * d7;
    assert x / 64 == b6 + 2 * d7;
  }

  /** A decrypted byte differs from the encrypted one in bits 3, 5 and 7 at most, */
  lemma PlainKeepsRest(rom: seq<Byte>, a: nat, opcode: bool)
    requires a < |rom|
    ensures var p, src := Plain(rom, a, opcode) as int, rom[a] as int;
            p % 8 == src % 8 && p / 16 % 2 == src / 16 % 2 && p / 64 % 2 == src / 64 % 2
  {
    hide BitOf, RowGate, Gate, CONVTABLE, Masked, Compose, Decoded;
    var src := rom[a];
    var c, e, d3, d5, d7 := DecodedIs(src, 2 * Sel(a) + if opcode then 0 else 1);
    MaskedIs(src);
    RestOfComposed(src as int % 8, src as int / 16 % 2, src as int / 64 % 2, d3, d5, d7);
  }

  /** and these are what the circuit makes of them. */
  lemma PlainFollowsCircuit(rom: seq<Byte>, a: nat, opcode: bool)
    requires a < |rom|
    ensures var c := Circuit(2 * Sel(a) + if opcode then 0 else 1);
            var p := Plain(rom, a, opcode) as int;
            && p / 8 % 2 == Apply(c[0], rom[a]) && p / 32 % 2 == Apply(c[1], rom[a])
            && p / 128 % 2 == Apply(c[2], rom[a])
  {
    hide Apply, RowGate, CONVTABLE, Circuit;
    var row := 2 * Sel(a) + if opcode then 0 else 1;
    TableIsSignedPermutation(row);
    CircuitOfRow(row);
    DecodedFollowsGate(rom[a], row, 3);
    DecodedFollowsGate(rom[a], row, 5);
    DecodedFollowsGate(rom[a], row, 7);
  }

  /** The three gates of an entry take one bit each, */
  lemma CircuitIsOneToOne(row: nat, x: Byte, y: Byte)
    requires row < 32
    requires forall k :: 0 <= k < 3 ==> Apply(Circuit(row)[k], x) == Apply(Circuit(row)[k], y)
    ensures BitOf(x, 3) == BitOf(y, 3) && BitOf(x, 5) == BitOf(y, 5) && BitOf(x, 7) == BitOf(y, 7)
  {
    hide BitOf, Circuit, CONVTABLE;
    RowsOfCircuit(row);
    var c := Circuit(row);
    assert Apply(c[0], x) == Apply(c[0], y) && Apply(c[1], x) == Apply(c[1], y) && Apply(c[2], x) == Apply(c[2], y);
  }

  /** so nothing is lost: at any address different bytes are decrypted to different bytes. */
  lemma DecryptionLosesNothing(rom: seq<Byte>, rom': seq<Byte>, a: nat, opcode: bool)
    requires a < |rom| && a < |rom'|
    ensures Plain(rom, a, opcode) == Plain(rom', a, opcode) <==> rom[a] == rom'[a]
  {
    hide BitOf, Apply, Circuit, Decoded;
    PlainKeepsRest(rom, a, opcode);
    PlainKeepsRest(rom', a, opcode);
    PlainFollowsCircuit(rom, a, opcode);
    PlainFollowsCircuit(rom', a, opcode);
    Bits(rom[a]);
    Bits(rom'[a]);
    if Plain(rom, a, opcode) == Plain(rom', a, opcode) {
      CircuitIsOneToOne(2 * Sel(a) + if opcode then 0 else 1, rom[a], rom'[a]);
    }
  }

  method SegaDecrypt(rom: array<Byte>, ref: array<Byte>)
    requires rom != ref && rom.Length >= ROM_SIZE && ref.Length >= 2 * ROM_SIZE
    modifies ref
    ensures forall a: nat :: a < ROM_SIZE ==>
              ref[a + ROM_SIZE] == Plain(rom[..], a, true) && ref[a] == Plain(rom[..], a, false)
    ensures forall a: nat :: a < ROM_SIZE ==>
              && ref[a] as int % 8 == ref[a + ROM_SIZE] as int % 8 == rom[a] as int % 8
              && ref[a] as int / 16 % 2 == ref[a + ROM_SIZE] as int / 16 % 2 == rom[a] as int / 16 % 2
              && ref[a] as int / 64 % 2 == ref[a + ROM_SIZE] as int / 64 % 2 == rom[a] as int / 64 % 2
    ensures forall a :: 2 * ROM_SIZE <= a < ref.Length ==> ref[a] == old(ref[a])
  {
    hide Plain;
    for a := 0 to ROM_SIZE
      invariant forall k: nat :: k < a ==>
                  ref[k + ROM_SIZE] == Plain(rom[..], k, true) && ref[k] == Plain(rom[..], k, false)
      invariant forall k :: 2 * ROM_SIZE <= k < ref.Length ==> ref[k] == old(ref[k])
    {
      var opcode, data := DecodeBoth(rom, a);
      ref[a + ROM_SIZE] := opcode;
      ref[a] := data;
    }
    forall a: nat | a < ROM_SIZE
      ensures ref[a] as int % 8 == ref[a + ROM_SIZE] as int % 8 == rom[a] as int % 8
      ensures ref[a] as int / 16 % 2 == ref[a + ROM_SIZE] as int / 16 % 2 == rom[a] as int / 16 % 2
      ensures ref[a] as int / 64 % 2 == ref[a + ROM_SIZE] as int / 64 % 2 == rom[a] as int / 64 % 2
    {
      PlainKeepsRest(rom[..], a, true);
      PlainKeepsRest(rom[..], a, false);
    }
  }

  /** The body of the loop for address `a`. */
  method DecodeBoth(rom: array<Byte>, a: nat) returns (opcode: Byte, data: Byte)
    requires a < rom.Length
    ensures opcode == Plain(rom[..], a, true) && data == Plain(rom[..], a, false)
  {
    hide BitOf, Masked, Apply, RowGate, Follows, CONVTABLE, Gate;
    var src := rom[a];
    var row := Sel(a);
    DecodedFollowsGate(src, 2 * row, 3);
    DecodedFollowsGate(src, 2 * row + 1, 3);
    TableIsSignedPermutation(2 * row);
    TableIsSignedPermutation(2 * row + 1);
    Columns(src);
    var col := BitOf(src, 3) + 2 * BitOf(src, 5);
    if BitOf(src, 7) == 1 {
      col := 3 - col;
      opcode := Masked(src) + (0xA8 - CONVTABLE[2 * row][col] as nat);
      data := Masked(src) + (0xA8 - CONVTABLE[2 * row + 1][col] as nat);
    } else {
      opcode := Masked(src) + CONVTABLE[2 * row][col] as nat;
      data := Masked(src) + CONVTABLE[2 * row + 1][col] as nat;
    }
  }

  // ------------------------------------------------------------ the search

  /** Gate `op` explains bit `bit` of `mem` at every address with selector `s`. */
  ghost predicate Consistent(rom: seq<Byte>, mem: seq<Byte>, bit: nat, s: nat, op: nat)
    requires |rom| >= ROM_SIZE && |mem| >= ROM_SIZE
  {
    forall a: nat :: a < ROM_SIZE && Sel(a) == s ==> Explains(rom[a], mem[a], bit, op)
  }

  predicate Explains(src: Byte, dst: Byte, bit: nat, op: nat) {
    BitOf(dst, bit) as int == Apply(op, src)
  }

  /** The least gate that does, 6 if there is none. */
  ghost function Least(rom: seq<Byte>, mem: seq<Byte>, bit: nat, s: nat): (op: nat)
    requires |rom| >= ROM_SIZE && |mem| >= ROM_SIZE
    ensures op <= 6 && (op < 6 ==> Consistent(rom, mem, bit, s, op))
    ensures forall k: nat :: k < op ==> !Consistent(rom, mem, bit, s, k)
  {
    if Consistent(rom, mem, bit, s, 0) then 0 else if Consistent(rom, mem, bit, s, 1) then 1
    else if Consistent(rom, mem, bit, s, 2) then 2 else if Consistent(rom, mem, bit, s, 3) then 3
    else if Consistent(rom, mem, bit, s, 4) then 4 else if Consistent(rom, mem, bit, s, 5) then 5 else 6
  }

  /** `mem` is the decryption of `rom`, as opcodes or as data. */
  ghost predicate DecryptionOf(rom: seq<Byte>, mem: seq<Byte>, opcode: bool) {
    |rom| >= ROM_SIZE && |mem| >= ROM_SIZE && forall a: nat :: a < ROM_SIZE ==> mem[a] == Plain(rom, a, opcode)
  }

  ghost predicate EverySelectorHasOne(rom: seq<Byte>, mem: seq<Byte>, bit: nat)
    requires |rom| >= ROM_SIZE && |mem| >= ROM_SIZE
  {
    forall s: nat :: s < 16 ==> Least(rom, mem, bit, s) < 6
  }

  /** For a decryption there always is one. */
  lemma GateExists(rom: seq<Byte>, mem: seq<Byte>, opcode: bool, bit: nat, s: nat)
    requires DecryptionOf(rom, mem, opcode) && IsMuxBit(bit) && s < 16
    ensures Least(rom, mem, bit, s) < 6
  {
    hide BitOf, Apply, RowGate, CONVTABLE, Decoded;
    var row := 2 * s + if opcode then 0 else 1;
    TableIsSignedPermutation(row);
    var op := RowGate(CONVTABLE[row], bit);
    forall a: nat | a < ROM_SIZE && Sel(a) == s ensures Explains(rom[a], mem[a], bit, op) {
      DecodedFollowsGate(rom[a], row, bit);
    }
    assert Consistent(rom, mem, bit, s, op);
  }

  /** try_mux: the output of the gate currently chosen for the address; any other number leaves `b` alone. */
  method TryMux(selB: array2<nat>, addr: nat, data: Byte, bit: nat, b: int) returns (r: int)
    requires selB.Length0 == 8 && selB.Length1 == 16 && bit < 8
    ensures r == if selB[bit, Sel(addr)] < 6 then Apply(selB[bit, Sel(addr)], data) else b
  {
    r := b;
    match selB[bit, Sel(addr)]
    case 0 => r := BitOf(data, 3);
    case 1 => r := 1 - BitOf(data, 3);
    case 2 => r := BitOf(data, 5);
    case 3 => r := 1 - BitOf(data, 5);
    case 4 => r := BitOf(data, 7);
    case 5 => r := 1 - BitOf(data, 7);
    case _ =>
  }

  /** Address bits that have to be clear in the stage with mask `am`. */
  predicate Skipped(am: nat, a: nat) {
    (am < 4 && a / 16 % 2 == 1) || (am < 8 && a / 256 % 2 == 1) || (am < 12 && a / 4096 % 2 == 1)
  }

  lemma StageAddresses(am: nat, a: nat)
    ensures !Skipped(am, a) <==> (am < 4 ==> a / 16 % 2 == 0) && (am < 8 ==> a / 256 % 2 == 0) &&
                                 (am < 12 ==> a / 4096 % 2 == 0)
  {
  }

  /** One scan over the addresses of a stage: the first one whose byte the chosen gates do not explain. */
  method FirstMismatch(rom: array<Byte>, mem: seq<Byte>, bit: nat, selB: array2<nat>, am: nat) returns (a: nat)
    requires rom.Length >= ROM_SIZE && |mem| >= ROM_SIZE && IsMuxBit(bit)
    requires selB.Length0 == 8 && selB.Length1 == 16
    requires forall s :: 0 <= s < 16 ==> selB[bit, s] < 6
    ensures a <= ROM_SIZE
    ensures a < ROM_SIZE ==> !Skipped(am, a) && !Explains(rom[a], mem[a], bit, selB[bit, Sel(a)])
    ensures forall k: nat :: k < a && !Skipped(am, k) ==> Explains(rom[k], mem[k], bit, selB[bit, Sel(k)])
  {
    hide BitOf, Apply, Sel;
    var b := 0;
    a := 0;
    while a < ROM_SIZE
      invariant a <= ROM_SIZE
      invariant forall k: nat :: k < a && !Skipped(am, k) ==> Explains(rom[k], mem[k], bit, selB[bit, Sel(k)])
    {
      if !Skipped(am, a) {
        b := TryMux(selB, a, rom[a], bit, b);
        if BitOf(mem[a], bit) != b {
          return;
        }
      }
      a := a + 1;
    }
  }

  function Sum(v: seq<nat>): nat {
    if v == [] then 0 else Sum(v[..|v| - 1]) + v[|v| - 1]
  }

  lemma {:induction false} SumStep(v: seq<nat>, i: nat)
    requires i < |v|
    ensures Sum(v[i := v[i] + 1]) == Sum(v) + 1
  {
    var n := |v| - 1;
    var w := v[i := v[i] + 1];
    if i < n {
      assert w[..n] == v[..n][i := v[i] + 1];
      SumStep(v[..n], i);
    } else {
      assert w[..n] == v[..n];
    }
  }

  lemma {:induction false} SumBound(v: seq<nat>, most: nat)
    requires forall i :: 0 <= i < |v| ==> v[i] <= most
    ensures Sum(v) <= most * |v|
  {
    if v == [] {
    } else {
      SumBound(v[..|v| - 1], most);
    }
  }

  /** The gates chosen for one output bit. */
  function Chosen(selB: array2<nat>, bit: nat): (v: seq<nat>)
    requires selB.Length0 == 8 && selB.Length1 == 16 && bit < 8
    reads selB
    ensures |v| == 16
  {
    seq(16, s requires 0 <= s < 16 reads selB => selB[bit, s])
  }

  /** No selector has passed its least gate yet. */
  ghost predicate NotPast(rom: seq<Byte>, mem: seq<Byte>, bit: nat, v: seq<nat>)
    requires |rom| >= ROM_SIZE && |mem| >= ROM_SIZE && |v| == 16
  {
    forall s :: 0 <= s < 16 ==> v[s] <= Least(rom, mem, bit, s) < 6
  }

  /** A gate that fails to explain a byte is not the least one that explains them all. */
  lemma MismatchMovesOn(rom: seq<Byte>, mem: seq<Byte>, bit: nat, v: seq<nat>, a: nat)
    requires |rom| >= ROM_SIZE && |mem| >= ROM_SIZE && |v| == 16 && a < ROM_SIZE
    requires NotPast(rom, mem, bit, v) && !Explains(rom[a], mem[a], bit, v[Sel(a)])
    ensures NotPast(rom, mem, bit, v[Sel(a) := v[Sel(a)] + 1])
    ensures Sum(v[Sel(a) := v[Sel(a)] + 1]) == Sum(v) + 1 <= 96
  {
    hide Explains, Sel, Least;
    SumStep(v, Sel(a));
    assert v[Sel(a)] != Least(rom, mem, bit, Sel(a));
    SumBound(v[Sel(a) := v[Sel(a)] + 1], 6);
  }

  /** Gates that explain everything and have not passed the least ones are the least ones. */
  lemma ExplainingIsLeast(rom: seq<Byte>, mem: seq<Byte>, bit: nat, v: seq<nat>)
    requires |rom| >= ROM_SIZE && |mem| >= ROM_SIZE && |v| == 16 && NotPast(rom, mem, bit, v)
    requires forall a: nat :: a < ROM_SIZE ==> Explains(rom[a], mem[a], bit, v[Sel(a)])
    ensures forall s :: 0 <= s < 16 ==> v[s] == Least(rom, mem, bit, s)
  {
    hide Explains, Sel;
    forall s | 0 <= s < 16 ensures v[s] == Least(rom, mem, bit, s) {
      assert Consistent(rom, mem, bit, s, v[s]);
    }
  }

  /** One stage of find_mux: step the selector of the first address whose byte is not explained, until none is left. */
  method Stage(rom: array<Byte>, image: seq<Byte>, bit: nat, selB: array2<nat>, am: nat)
    requires rom.Length >= ROM_SIZE && |image| >= ROM_SIZE && IsMuxBit(bit)
    requires selB.Length0 == 8 && selB.Length1 == 16
    requires NotPast(rom[..], image, bit, Chosen(selB, bit))
    modifies selB
    ensures NotPast(rom[..], image, bit, Chosen(selB, bit))
    ensures forall k: nat :: k < ROM_SIZE && !Skipped(am, k) ==> Explains(rom[k], image[k], bit, selB[bit, Sel(k)])
    ensures forall i, s :: 0 <= i < 8 && 0 <= s < 16 && i != bit ==> selB[i, s] == old(selB[i, s])
  {
    hide Explains, Sel, Least, BitOf, Apply, Skipped;
    while true
      invariant NotPast(rom[..], image, bit, Chosen(selB, bit))
      invariant forall i, s :: 0 <= i < 8 && 0 <= s < 16 && i != bit ==> selB[i, s] == old(selB[i, s])
      decreases 96 - Sum(Chosen(selB, bit))
    {
      ghost var v := Chosen(selB, bit);
      assert forall s :: 0 <= s < 16 ==> selB[bit, s] == v[s];
      var a := FirstMismatch(rom, image, bit, selB, am);
      if a == ROM_SIZE {
        return;
      }
      MismatchMovesOn(rom[..], image, bit, v, a);
      selB[bit, Sel(a)] := selB[bit, Sel(a)] + 1;
      assert Chosen(selB, bit) == v[Sel(a) := v[Sel(a)] + 1];
    }
  }

  /** find_mux, for one output bit of an image that starts at `mem[base]` and in which every selector has a consistent
      gate, as it has in every decryption (GateExists). */
  method FindMux(rom: array<Byte>, mem: array<Byte>, base: nat, bit: nat, selB: array2<nat>)
    requires rom.Length >= ROM_SIZE && base + ROM_SIZE <= mem.Length && IsMuxBit(bit)
    requires selB.Length0 == 8 && selB.Length1 == 16
    requires EverySelectorHasOne(rom[..], mem[base..base + ROM_SIZE], bit)
    requires forall s :: 0 <= s < 16 ==> selB[bit, s] == 0
    modifies selB
    ensures forall s: nat :: s < 16 ==> selB[bit, s] == Least(rom[..], mem[base..base + ROM_SIZE], bit, s) < 6
    ensures forall a: nat :: a < ROM_SIZE ==> Explains(rom[a], mem[base + a], bit, selB[bit, Sel(a)])
    ensures forall i, s :: 0 <= i < 8 && 0 <= s < 16 && i != bit ==> selB[i, s] == old(selB[i, s])
  {
    hide Explains, Sel, Least, BitOf, Apply;
    var image := mem[base..base + ROM_SIZE];
    var am := 0;
    while am <= 12
      invariant am % 4 == 0 && am <= 16
      invariant NotPast(rom[..], image, bit, Chosen(selB, bit))
      invariant forall i, s :: 0 <= i < 8 && 0 <= s < 16 && i != bit ==> selB[i, s] == old(selB[i, s])
      invariant am > 12 ==> forall a: nat :: a < ROM_SIZE ==> Explains(rom[a], image[a], bit, selB[bit, Sel(a)])
    {
      Stage(rom, image, bit, selB, am);
      am := am + 4;
    }
    ExplainingIsLeast(rom[..], image, bit, Chosen(selB, bit));
    assert forall a: nat :: a < ROM_SIZE ==> image[a] == mem[base + a];
  }
}
