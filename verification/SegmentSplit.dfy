/** split.cpp cuts a load segment into records that go through an 8K window at $4000, selected by the bank register at
    $FFA2, so that a machine with banked memory can load it. */
module SegmentSplit {
  import opened Storage

  // ------------------------------------------------------------ records

  /** Bytes for consecutive addresses. */
  datatype Record = Record(addr: nat, data: seq<Byte>)

  function Header(kind: Byte, len: nat, addr: nat): (h: seq<Byte>)
    ensures |h| == 5
  {
    [kind, len / 256 % 256, len % 256, addr / 256 % 256, addr % 256]
  }

  function Word(s: seq<Byte>, at: nat): nat
    requires at + 1 < |s|
  {
    s[at] as nat * 256 + s[at + 1] as nat
  }

  function Encoded(r: Record): seq<Byte> {
    Header(0, |r.data|, r.addr) + r.data
  }

  function EncodedAll(rs: seq<Record>): seq<Byte> {
    if rs == [] then [] else EncodedAll(rs[..|rs| - 1]) + Encoded(rs[|rs| - 1])
  }

  const POSTAMBLE: seq<Byte> := [0xFF, 0, 0, 0, 0]

  // ------------------------------------------------------------ the machine that loads them

  const BANK_REGISTER: nat := 0xFFA2
  const WINDOW: nat := 0x4000
  const BANK_SIZE: nat := 0x2000

  /** The bank register, physical memory, and stores that went anywhere else. */
  datatype Machine = Machine(bank: Byte, memory: map<nat, Byte>, stray: map<nat, Byte>)

  function Store(m: Machine, addr: nat, b: Byte): Machine {
    if addr == BANK_REGISTER then m.(bank := b)
    else if WINDOW <= addr < WINDOW + BANK_SIZE then
      m.(memory := m.memory[m.bank * BANK_SIZE + addr - WINDOW := b])
    else m.(stray := m.stray[addr := b])
  }

  function StoreAll(m: Machine, addr: nat, data: seq<Byte>): Machine {
    if data == [] then m
    else Store(StoreAll(m, addr, data[..|data| - 1]), addr + |data| - 1, data[|data| - 1])
  }

  datatype Outcome = Loaded(m: Machine) | Malformed

  /** A loader: data records are stored, the postamble ends the file. */
  function Load(file: seq<Byte>, m: Machine): Outcome
    decreases |file|
  {
    if |file| < 5 then Malformed
    else
      var len, addr := Word(file, 1), Word(file, 3);
      if file[0] == 0xFF then (if |file| == 5 then Loaded(m) else Malformed)
      else if file[0] == 0 && 5 + len <= |file| then Load(file[5 + len..], StoreAll(m, addr, file[5..5 + len]))
      else Malformed
  }

  function RunAll(rs: seq<Record>, m: Machine): Machine {
    if rs == [] then m else RunAll(rs[1..], StoreAll(m, rs[0].addr, rs[0].data))
  }

  predicate Fits(r: Record) {
    r.addr < 0x10000 && |r.data| < 0x10000
  }

  lemma LoadRecord(r: Record, rest: seq<Byte>, m: Machine)
    requires Fits(r)
    ensures Load(Encoded(r) + rest, m) == Load(rest, StoreAll(m, r.addr, r.data))
  {
    var file := Encoded(r) + rest;
    assert file[..5] == Header(0, |r.data|, r.addr);
    assert file[0] == 0 && Word(file, 1) == |r.data| && Word(file, 3) == r.addr;
    assert file[5..5 + |r.data|] == r.data && file[5 + |r.data|..] == rest;
  }

  lemma {:induction false} EncodedFirst(rs: seq<Record>)
    requires rs != []
    ensures EncodedAll(rs) == Encoded(rs[0]) + EncodedAll(rs[1..])
  {
    if |rs| > 1 {
      var n := |rs| - 1;
      EncodedFirst(rs[..n]);
      assert rs[..n][1..] == rs[1..][..n - 1];
    } else {
      assert rs[..0] == [] && rs[1..] == [];
    }
  }

  lemma {:induction false} LoadAll(rs: seq<Record>, m: Machine)
    requires forall r :: r in rs ==> Fits(r)
    ensures Load(EncodedAll(rs) + POSTAMBLE, m) == Loaded(RunAll(rs, m))
  {
    if rs == [] {
      assert EncodedAll(rs) + POSTAMBLE == POSTAMBLE;
    } else {
      EncodedFirst(rs);
      LoadRecord(rs[0], EncodedAll(rs[1..]) + POSTAMBLE, m);
      assert EncodedAll(rs) + POSTAMBLE == Encoded(rs[0]) + (EncodedAll(rs[1..]) + POSTAMBLE);
      LoadAll(rs[1..], StoreAll(m, rs[0].addr, rs[0].data));
    }
  }

  // ------------------------------------------------------------ splitting

  /** The bank of an address, as the register wants it. */
  function BankOf(addr: nat): Byte {
    (16 + addr / BANK_SIZE) % 256
  }

  function BlockLen(addr: nat, len: nat): (n: nat)
    ensures n <= len && (len > 0 ==> n > 0)
  {
    var offset := addr % BANK_SIZE;
    if len < BANK_SIZE - offset then len else BANK_SIZE - offset
  }

  /** A block goes as far as it can: to the end of the segment or of the bank. */
  lemma BlockReaches(addr: nat, len: nat)
    ensures var n := BlockLen(addr, len);
            n <= len && addr % 0x2000 + n <= 0x2000 && (n == len || (addr + n) % 0x2000 == 0)
  {
    var n, offset := BlockLen(addr, len), addr % 0x2000;
    if n < len {
      assert addr + n == 0x2000 * (addr / 0x2000 + 1);
    }
  }

  /** The records for the bytes from `addr` on: the bank, then what of it lies in that bank, and so on. */
  function Blocks(addr: nat, data: seq<Byte>): seq<Record>
    decreases |data|
  {
    if data == [] then []
    else
      var n := BlockLen(addr, |data|);
      [Record(BANK_REGISTER, [BankOf(addr)]), Record(WINDOW + addr % BANK_SIZE, data[..n])]
      + Blocks(addr + n, data[n..])
  }

  /** All records of a segment: at the end the bank is what it was. */
  function Records(addr: nat, data: seq<Byte>): seq<Record> {
    Blocks(addr, data) + [Record(BANK_REGISTER, [0x3A])]
  }

  /** Consecutive bytes in physical memory. */
  function Placed(memory: map<nat, Byte>, at: nat, data: seq<Byte>): map<nat, Byte> {
    if data == [] then memory else Placed(memory, at, data[..|data| - 1])[at + |data| - 1 := data[|data| - 1]]
  }

  lemma {:induction false} PlacedIs(memory: map<nat, Byte>, at: nat, data: seq<Byte>, x: nat)
    ensures at <= x < at + |data| ==> x in Placed(memory, at, data) && Placed(memory, at, data)[x] == data[x - at]
    ensures !(at <= x < at + |data|) ==>
              (x in Placed(memory, at, data) <==> x in memory) &&
              (x in memory ==> Placed(memory, at, data)[x] == memory[x])
  {
    if data == [] {
    } else {
      PlacedIs(memory, at, data[..|data| - 1], x);
    }
  }

  lemma {:induction false} PlacedTwice(memory: map<nat, Byte>, at: nat, a: seq<Byte>, b: seq<Byte>)
    ensures Placed(Placed(memory, at, a), at + |a|, b) == Placed(memory, at, a + b)
  {
    if b == [] {
      assert a + b == a;
    } else {
      assert (a + b)[..|a + b| - 1] == a + b[..|b| - 1];
      PlacedTwice(memory, at, a, b[..|b| - 1]);
    }
  }

  /** A record inside the window goes to the selected bank. */
  lemma {:induction false} StoreWindow(m: Machine, offset: nat, data: seq<Byte>)
    requires offset + |data| <= BANK_SIZE
    ensures StoreAll(m, WINDOW + offset, data) == m.(memory := Placed(m.memory, m.bank * BANK_SIZE + offset, data))
  {
    if data == [] {
    } else {
      StoreWindow(m, offset, data[..|data| - 1]);
    }
  }

  lemma StoreBank(m: Machine, b: Byte)
    ensures StoreAll(m, BANK_REGISTER, [b]) == m.(bank := b)
  {
    assert [b][..0] == [];
  }

  lemma {:induction false} RunAllAppend(rs: seq<Record>, r: Record, m: Machine)
    ensures RunAll(rs + [r], m) == StoreAll(RunAll(rs, m), r.addr, r.data)
  {
    if rs != [] {
      assert (rs + [r])[1..] == rs[1..] + [r];
      RunAllAppend(rs[1..], r, StoreAll(m, rs[0].addr, rs[0].data));
    } else {
      assert (rs + [r])[1..] == [];
    }
  }

  /** Executing the blocks writes the bytes where they belong, and nothing anywhere else. */
  lemma {:induction false} RunBlocks(addr: nat, data: seq<Byte>, m: Machine)
    requires addr + |data| <= 0x20000
    ensures var m' := RunAll(Blocks(addr, data), m);
            m'.memory == Placed(m.memory, 0x20000 + addr, data) && m'.stray == m.stray
    decreases |data|
  {
    hide *;
    if data == [] {
      RunNone(addr, m);
    } else {
      var n := BlockLen(addr, |data|);
      RunBlock(addr, data, m);
      RunBlocks(addr + n, data[n..], Machine(BankOf(addr), Placed(m.memory, 0x20000 + addr, data[..n]), m.stray));
      PlacedInParts(m.memory, 0x20000 + addr, data, n);
    }
  }

  lemma RunNone(addr: nat, m: Machine)
    ensures RunAll(Blocks(addr, []), m) == m && Placed(m.memory, 0x20000 + addr, []) == m.memory
  {
  }

  lemma PlacedInParts(memory: map<nat, Byte>, at: nat, data: seq<Byte>, n: nat)
    requires n <= |data|
    ensures Placed(Placed(memory, at, data[..n]), at + n, data[n..]) == Placed(memory, at, data)
  {
    hide Placed;
    PlacedTwice(memory, at, data[..n], data[n..]);
    assert data[..n] + data[n..] == data;
  }

  /** One round: the bank is selected and its part of the bytes written. */
  lemma RunBlock(addr: nat, data: seq<Byte>, m: Machine)
    requires data != [] && addr + |data| <= 0x20000
    ensures var n := BlockLen(addr, |data|);
            RunAll(Blocks(addr, data), m) ==
              RunAll(Blocks(addr + n, data[n..]),
                     Machine(BankOf(addr), Placed(m.memory, 0x20000 + addr, data[..n]), m.stray))
  {
    hide Store, StoreAll, Placed;
    var n := BlockLen(addr, |data|);
    var bank := BankOf(addr);
    StoreBank(m, bank);
    StoreWindow(m.(bank := bank), addr % BANK_SIZE, data[..n]);
    assert bank * BANK_SIZE + addr % BANK_SIZE == 0x20000 + addr;
    RunTwo(Record(BANK_REGISTER, [bank]), Record(WINDOW + addr % BANK_SIZE, data[..n]), Blocks(addr + n, data[n..]), m);
  }

  lemma RunTwo(a: Record, b: Record, rs: seq<Record>, m: Machine)
    ensures RunAll([a, b] + rs, m) == RunAll(rs, StoreAll(StoreAll(m, a.addr, a.data), b.addr, b.data))
  {
    hide StoreAll;
    assert ([a, b] + rs)[1..] == [b] + rs && ([b] + rs)[1..] == rs;
  }

  /** Every record fits its header, and every data record stays inside the window. */
  lemma {:induction false} BlocksFit(addr: nat, data: seq<Byte>)
    ensures forall r :: r in Blocks(addr, data) ==>
              && Fits(r)
              && ((r.addr == BANK_REGISTER && |r.data| == 1) ||
                  (WINDOW <= r.addr && r.addr + |r.data| <= WINDOW + BANK_SIZE))
    decreases |data|
  {
    if data == [] {
    } else {
      BlocksFit(addr + BlockLen(addr, |data|), data[BlockLen(addr, |data|)..]);
    }
  }

  /** Loading what is written for a segment puts its bytes at physical $20000 + addr, touches nothing else, and leaves
      the bank register at $3A. */
  lemma LoadedSegment(addr: nat, data: seq<Byte>, m: Machine)
    requires addr < 0x10000 && |data| < 0x10000
    ensures Load(EncodedAll(Records(addr, data)) + POSTAMBLE, m) ==
            Loaded(Machine(0x3A, Placed(m.memory, 0x20000 + addr, data), m.stray))
  {
    BlocksFit(addr, data);
    LoadAll(Records(addr, data), m);
    RunBlocks(addr, data, m);
    RunAllAppend(Blocks(addr, data), Record(BANK_REGISTER, [0x3A]), m);
    StoreBank(RunAll(Blocks(addr, data), m), 0x3A);
  }

  // ------------------------------------------------------------ the loop

  /** fread: what the file still has, the rest of the buffer stays. */
  function Filled(rom: seq<Byte>, rest: seq<Byte>, n: nat): (buf: seq<Byte>)
    requires n <= |rom|
    ensures |buf| == |rom|
  {
    if |rest| >= n then rest[..n] + rom[n..] else rest + rom[|rest|..]
  }

  function Behind(rest: seq<Byte>, n: nat): seq<Byte> {
    if |rest| >= n then rest[n..] else []
  }

  /** The bytes that the rounds take for the segment: those of the file, and where it has ended what the copy buffer
      still has from before. */
  function Taken(rom: seq<Byte>, rest: seq<Byte>, addr: nat, len: nat): (data: seq<Byte>)
    requires |rom| == 0x10000
    ensures |data| == len
    decreases len
  {
    if len == 0 then []
    else
      var n := BlockLen(addr, len);
      var buf := Filled(rom, rest, n);
      buf[..n] + Taken(buf, Behind(rest, n), addr + n, len - n)
  }

  lemma FilledBegins(rom: seq<Byte>, rest: seq<Byte>, n: nat, i: nat)
    requires n <= |rom| && i < n && i < |rest|
    ensures Filled(rom, rest, n)[i] == rest[i]
  {
  }

  /** As far as the file goes they are its bytes. */
  lemma {:induction false} TakenFromFile(rom: seq<Byte>, rest: seq<Byte>, addr: nat, len: nat, i: nat)
    requires |rom| == 0x10000 && i < len && i < |rest|
    ensures Taken(rom, rest, addr, len)[i] == rest[i]
    decreases len
  {
    hide Filled, BlockLen;
    var n := BlockLen(addr, len);
    BlockShort(addr, len);
    if i < n {
      FilledBegins(rom, rest, n, i);
    } else {
      TakenFromFile(Filled(rom, rest, n), Behind(rest, n), addr + n, len - n, i - n);
    }
  }

  /** So a segment that the file has whole is taken as it is. */
  lemma TakenWhole(rom: seq<Byte>, fp: seq<Byte>, addr: nat, len: nat)
    requires |rom| == 0x10000 && len <= |fp|
    ensures Taken(rom, fp, addr, len) == fp[..len]
  {
    hide Taken;
    forall i | 0 <= i < len ensures Taken(rom, fp, addr, len)[i] == fp[i] {
      TakenFromFile(rom, fp, addr, len, i);
    }
  }

  /** One round of the segment loop. */
  method WriteBlock(fp2: seq<Byte>, rest: seq<Byte>, rom: seq<Byte>, addr: nat, len: nat)
    returns (out: seq<Byte>, left: seq<Byte>, buf: seq<Byte>, blockLen: nat)
    requires len >= 1 && |rom| == 0x10000
    ensures blockLen == BlockLen(addr, len) && 1 <= blockLen <= len && |buf| == 0x10000
    ensures blockLen <= |rom| && buf == Filled(rom, rest, blockLen) && left == Behind(rest, blockLen)
    ensures out == fp2 + Chunk(addr, buf[..blockLen])
  {
    hide Header, Filled;
    var bank := (16 + addr / 8192) % 256;
    var offset := addr % 8192;
    blockLen := if len < 8192 - offset then len else 8192 - offset;
    var base := 0x4000 + offset;
    buf := Filled(rom, rest, blockLen);
    out := fp2 + (Header(0, 1, 0xFFA2) + [bank] + (Header(0, blockLen, base) + buf[..blockLen]));
    left := if |rest| >= blockLen then rest[blockLen..] else [];
    ChunkIs(addr, buf[..blockLen]);
  }

  /** The segment loop: `fp` is the input behind the segment's preamble, `rom0` what the copy buffer holds before. The
      output is that of a segment of the bytes taken, which are the input's if it has all of them. */
  method SplitSegment(fp: seq<Byte>, addr0: nat, len0: nat, rom0: seq<Byte>) returns (fp2: seq<Byte>, rest: seq<Byte>)
    requires addr0 < 0x10000 && len0 < 0x10000 && |rom0| == 0x10000
    ensures fp2 == EncodedAll(Records(addr0, Taken(rom0, fp, addr0, len0))) + POSTAMBLE && rest == Behind(fp, len0)
    ensures len0 <= |fp| ==> fp2 == EncodedAll(Records(addr0, fp[..len0])) + POSTAMBLE
  {
    hide Blocks, Encoded, EncodedAll, Header, Chunk, BlockLen, Taken, Filled, Behind, Records;
    var rom := rom0;
    var len: nat, addr: nat := len0, addr0;
    fp2, rest := [], fp;
    BehindOn(fp, 0, 0);
    ghost var all := EncodedAll(Blocks(addr0, Taken(rom0, fp, addr0, len0)));
    assert fp2 + all == all;
    while len > 0
      invariant 0 <= len <= len0 && addr == addr0 + (len0 - len) && |rom| == 0x10000
      invariant rest == Behind(fp, len0 - len) && fp2 + EncodedAll(Blocks(addr, Taken(rom, rest, addr, len))) == all
    {
      ghost var was, data, done := fp2, Taken(rom, rest, addr, len), len0 - len;
      TakenStep(rom, rest, addr, len);
      var blockLen: nat;
      fp2, rest, rom, blockLen := WriteBlock(fp2, rest, rom, addr, len);
      NextBlock(was, addr, data, all);
      BehindOn(fp, done, blockLen);
      len := len - blockLen;
      addr := addr + blockLen;
    }
    NoBlocks(addr, Taken(rom, rest, addr, len));
    LastRecord(addr0, Taken(rom0, fp, addr0, len0));
    fp2 := fp2 + (Header(0, 1, 0xFFA2) + [0x3A]);
    fp2 := fp2 + POSTAMBLE;
    if len0 <= |fp| {
      TakenWhole(rom0, fp, addr0, len0);
    }
  }

  lemma TakenStep(rom: seq<Byte>, rest: seq<Byte>, addr: nat, len: nat)
    requires |rom| == 0x10000 && len > 0
    ensures var n := BlockLen(addr, len);
            n <= |rom| && var (data, buf) := (Taken(rom, rest, addr, len), Filled(rom, rest, n));
                          data[..n] == buf[..n] && data[n..] == Taken(buf, Behind(rest, n), addr + n, len - n)
  {
    hide Filled, BlockLen;
    BlockShort(addr, len);
  }

  lemma BlockShort(addr: nat, len: nat)
    ensures BlockLen(addr, len) <= BANK_SIZE
  {
  }

  lemma BehindOn(s: seq<Byte>, k: nat, n: nat)
    ensures Behind(s, 0) == s && Behind(Behind(s, k), n) == Behind(s, k + n)
  {
  }

  /** What one round writes: the bank record and the data record for `block`. */
  ghost function Chunk(addr: nat, block: seq<Byte>): seq<Byte> {
    Encoded(Record(BANK_REGISTER, [BankOf(addr)])) + Encoded(Record(WINDOW + addr % BANK_SIZE, block))
  }

  lemma ChunkIs(addr: nat, block: seq<Byte>)
    ensures Chunk(addr, block) == Header(0, 1, BANK_REGISTER) + [BankOf(addr)]
                                  + (Header(0, |block|, WINDOW + addr % BANK_SIZE) + block)
  {
  }

  /** Byte by byte, high bytes first: $00, the length 1, the address $FFA2, the bank; $00, the length, the address in
      the window, the bytes. */
  lemma ChunkBytes(addr: nat, block: seq<Byte>)
    requires addr < 0x20000 && |block| <= 0x2000
    ensures Chunk(addr, block)
         == [0x00, 0x00, 0x01, 0xFF, 0xA2, 0x10 + addr / 0x2000]
            + [0x00, |block| / 0x100, |block| % 0x100, 0x40 + addr % 0x2000 / 0x100, addr % 0x2000 % 0x100] + block
  {
    var len, at := |block|, 0x4000 + addr % 0x2000;
    assert len / 256 % 256 == len / 0x100 && at / 256 % 256 == 0x40 + addr % 0x2000 / 0x100;
    assert at % 256 == addr % 0x2000 % 0x100;
    ChunkIs(addr, block);
  }

  /** The last records byte by byte: bank $3A again, and the end mark. */
  lemma FileEnds(addr: nat, data: seq<Byte>)
    ensures EncodedAll(Records(addr, data)) + POSTAMBLE
         == EncodedAll(Blocks(addr, data)) + [0x00, 0x00, 0x01, 0xFF, 0xA2, 0x3A, 0xFF, 0x00, 0x00, 0x00, 0x00]
  {
    hide EncodedAll, Blocks, Records;
    LastRecord(addr, data);
    assert Header(0, 1, BANK_REGISTER) + [0x3A] == [0x00, 0x00, 0x01, 0xFF, 0xA2, 0x3A];
  }

  /** fread writes what the file still has, up to the length asked for, and nothing behind it. */
  lemma FilledAt(rom: seq<Byte>, rest: seq<Byte>, n: nat, i: nat)
    requires n <= |rom| && i < |rom|
    ensures Filled(rom, rest, n)[i] == if i < n && i < |rest| then rest[i] else rom[i]
    ensures Behind(rest, n) == if |rest| <= n then [] else rest[n..]
  {
  }

  lemma NoBlocks(addr: nat, data: seq<Byte>)
    requires data == []
    ensures EncodedAll(Blocks(addr, data)) == []
    ensures forall s: seq<Byte> :: s + EncodedAll(Blocks(addr, data)) == s
  {
  }

  lemma LastRecord(addr: nat, data: seq<Byte>)
    ensures EncodedAll(Records(addr, data)) == EncodedAll(Blocks(addr, data)) + (Header(0, 1, BANK_REGISTER) + [0x3A])
  {
    hide Blocks;
    var rs := Blocks(addr, data);
    assert (rs + [Record(BANK_REGISTER, [0x3A])])[..|rs|] == rs;
  }

  lemma EncodedTwo(a: Record, b: Record, rs: seq<Record>)
    ensures EncodedAll([a, b] + rs) == (Encoded(a) + Encoded(b)) + EncodedAll(rs)
  {
    hide Encoded;
    EncodedFirst([a, b] + rs);
    assert ([a, b] + rs)[1..] == [b] + rs;
    EncodedFirst([b] + rs);
    assert ([b] + rs)[1..] == rs;
  }

  lemma NextBlock(was: seq<Byte>, addr: nat, data: seq<Byte>, all: seq<Byte>)
    requires data != [] && was + EncodedAll(Blocks(addr, data)) == all
    ensures var n := BlockLen(addr, |data|);
            (was + Chunk(addr, data[..n])) + EncodedAll(Blocks(addr + n, data[n..])) == all
  {
    hide Encoded, EncodedAll;
    var n := BlockLen(addr, |data|);
    EncodedTwo(Record(BANK_REGISTER, [BankOf(addr)]), Record(WINDOW + addr % BANK_SIZE, data[..n]),
               Blocks(addr + n, data[n..]));
  }
}
