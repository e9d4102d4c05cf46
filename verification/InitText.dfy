/** The INIT-line printer bin2init.cpp and its reader xv2bin.cpp. */
module InitText {
  import opened Storage

  datatype Option<T> = None | Some(value: T)

  // ------------------------------------------------------------ hexadecimal

  const DIGITS: string := "0123456789ABCDEF"

  /** `%02X`: upper case, at least two digits. */
  function Hex(n: nat): (s: string)
    ensures |s| >= 2
  {
    if n < 256 then [DIGITS[n / 16], DIGITS[n % 16]] else Hex(n / 16) + [DIGITS[n % 16]]
  }

  /** The value ahtoi gives a character. Only '0' to '9' and 'A' to 'F' are what it is meant for. */
  function DigitValue(c: char): int {
    if '0' <= c <= '9' then c as int - '0' as int else c as int - 'A' as int + 10
  }

  /** ahtoi on the first `len` characters. */
  function Ahtoi(buf: string, len: nat): int
    requires len <= |buf|
  {
    if len == 0 then 0 else Ahtoi(buf, len - 1) * 16 + DigitValue(buf[len - 1])
  }

  /** ahtoi, up to the end of the string or `len` characters. */
  method ReadHex(buf: string, len: nat) returns (val: int)
    ensures val == Ahtoi(buf, if len <= |buf| then len else |buf|)
  {
    val := 0;
    var at, left := 0, len;
    while at < |buf| && left > 0
      invariant 0 <= at <= |buf| && left == len - at && val == Ahtoi(buf, at)
    {
      val := val * 16;
      val := val + DigitValue(buf[at]);
      at, left := at + 1, left - 1;
    }
  }

  /** Any other character is taken for a letter: what comes before 'A' counts negative, small letters too much. */
  lemma DigitValueIs(c: char)
    ensures DigitValue(c) == if 0x30 <= c as int <= 0x39 then c as int - 0x30 else c as int - 0x37
  {
  }

  /** Reading two digits gives back the byte they were printed for. */
  lemma ByteRoundTrip(b: Byte, rest: string)
    ensures |Hex(b)| == 2 && Ahtoi(Hex(b) + rest, 2) == b
  {
    DigitRoundTrip(b / 16);
    DigitRoundTrip(b % 16);
    var s := Hex(b) + rest;
    assert s[0] == DIGITS[b / 16] && s[1] == DIGITS[b % 16];
    assert Ahtoi(s, 1) == Ahtoi(s, 0) * 16 + DigitValue(s[0]);
  }

  lemma DigitRoundTrip(n: nat)
    requires n < 16
    ensures DigitValue(DIGITS[n]) == n && DIGITS[n] !in "\"=>\n"
  {
  }

  /** A printed number reads back as itself, whatever its length; beyond two digits it does not begin with 0. */
  lemma {:induction false} HexReads(n: nat)
    ensures Ahtoi(Hex(n), |Hex(n)|) == n && (|Hex(n)| > 2 ==> Hex(n)[0] != '0')
  {
    DigitRoundTrip(n % 16);
    if n < 256 {
      ByteRoundTrip(n, "");
      assert Hex(n) + "" == Hex(n);
    } else {
      HexReads(n / 16);
      HexNext(n);
    }
  }

  lemma HexNext(n: nat)
    requires n >= 256 && Ahtoi(Hex(n / 16), |Hex(n / 16)|) == n / 16
    ensures Ahtoi(Hex(n), |Hex(n)|) == n && Hex(n)[0] == Hex(n / 16)[0]
    ensures n < 4096 ==> Hex(n)[0] != '0'
  {
    HexLast(n);
    hide *;
    DigitsNext(Hex(n / 16), Hex(n), n / 16, n % 16);
    if n < 4096 { TwoDigits(n / 16); }
  }

  lemma DigitsNext(s: string, t: string, q: int, r: nat)
    requires r < 16 && s != "" && t == s + [DIGITS[r]] && Ahtoi(s, |s|) == q
    ensures Ahtoi(t, |t|) == 16 * q + r && t[0] == s[0]
  {
    hide Ahtoi;
    LastDigit(s, r);
  }

  lemma HexLast(n: nat)
    requires n >= 256
    ensures Hex(n) == Hex(n / 16) + [DIGITS[n % 16]]
  {
  }

  lemma LastDigit(s: string, d: nat)
    requires d < 16
    ensures Ahtoi(s + [DIGITS[d]], |s| + 1) == Ahtoi(s, |s|) * 16 + d
  {
    hide Ahtoi;
    DigitRoundTrip(d);
    AhtoiPrefix(s, [DIGITS[d]], |s|);
    AhtoiLast(s + [DIGITS[d]], |s|);
  }

  lemma TwoDigits(n: nat)
    requires 16 <= n < 256
    ensures Hex(n)[0] != '0'
  {
    DigitsAre(n / 16);
  }

  lemma AhtoiLast(s: string, len: nat)
    requires len < |s|
    ensures Ahtoi(s, len + 1) == Ahtoi(s, len) * 16 + DigitValue(s[len])
  {
  }

  lemma {:induction false} AhtoiPrefix(s: string, rest: string, len: nat)
    requires len <= |s|
    ensures Ahtoi(s + rest, len) == Ahtoi(s, len)
  {
    if len == 0 {
    } else {
      AhtoiPrefix(s, rest, len - 1);
    }
  }

  /** The sixteen digits. */
  lemma DigitsAre(n: nat)
    requires n < 16
    ensures DIGITS[n] as int == if n < 10 then '0' as int + n else 'A' as int + (n - 10)
  {
  }

  // ------------------------------------------------------------ the printer

  /** The digits of a block, last byte first. */
  function Reversed(block: seq<Byte>): string {
    if block == [] then "" else Reversed(block[1..]) + Hex(block[0])
  }

  predicate AllDigits(s: string) {
    forall k :: 0 <= k < |s| ==> '0' <= s[k] <= '9' || 'A' <= s[k] <= 'F'
  }

  lemma {:induction false} HexIsDigits(n: nat)
    ensures AllDigits(Hex(n))
  {
    DigitsAre(n % 16);
    if n >= 256 {
      HexIsDigits(n / 16);
    } else {
      DigitsAre(n / 16);
    }
  }

  lemma {:induction false} ReversedIsDigits(block: seq<Byte>)
    ensures AllDigits(Reversed(block))
  {
    hide Hex;
    if block == [] {
    } else {
      ReversedIsDigits(block[1..]);
      HexIsDigits(block[0]);
    }
  }

  function Line(n: nat, block: seq<Byte>): string {
    "  INIT_" + Hex(n) + " => X\"" + Reversed(block) + "\",\n"
  }

  /** A line from left to right: the label with the line number, the arrow, a quote, two digits for every byte, and the
      end. The digits of byte `j` stand `j` places from the end of the block. */
  lemma LineText(n: nat, block: seq<Byte>, j: nat)
    requires j < |block|
    ensures var line, h, at := Line(n, block), |Hex(n)|, |Hex(n)| + 13 + 2 * (|block| - 1 - j);
            && |line| == h + 2 * |block| + 16 && line[..7] == "  INIT_" && Ahtoi(line[7..7 + h], h) == n
            && line[7 + h..13 + h] == " => X\"" && Ahtoi(line[at..at + 2], 2) == block[j]
            && line[13 + h + 2 * |block|..] == "\",\n"
  {
    hide Hex, Reversed, Ahtoi;
    LineParts(n, block);
    hide Line;
    HexReads(n);
    PairAt(block, j, "");
    var digits, k := Reversed(block), 2 * (|block| - 1 - j);
    assert digits + "" == digits;
    AhtoiPrefix(digits[k..k + 2], digits[k + 2..], 2);
    assert digits[k..] == digits[k..k + 2] + digits[k + 2..];
    PartOf(Line(n, block), |Hex(n)| + 13, digits, k);
  }

  lemma PartOf(line: string, at: nat, digits: string, k: nat)
    requires at + |digits| <= |line| && line[at..at + |digits|] == digits && k + 2 <= |digits|
    ensures line[at + k..at + k + 2] == digits[k..k + 2]
  {
    var part := line[at..at + |digits|];
    assert part[k] == line[at + k] && part[k + 1] == line[at + k + 1];
  }

  lemma LineParts(n: nat, block: seq<Byte>)
    ensures var line, h := Line(n, block), |Hex(n)|;
            && |Reversed(block)| == 2 * |block| && |line| == h + 2 * |block| + 16
            && line[..7] == "  INIT_" && line[7..7 + h] == Hex(n) && line[7 + h..13 + h] == " => X\""
            && line[13 + h..13 + h + 2 * |block|] == Reversed(block) && line[13 + h + 2 * |block|..] == "\",\n"
  {
    hide Hex, Reversed;
    ReversedLength(block);
  }

  /** What is printed for a file, from line `n` on: a line for every full block. */
  function Text(file: seq<Byte>, n: nat): string {
    if |file| < 32 then "" else Line(n, file[..32]) + Text(file[32..], n + 1)
  }

  /** fread of up to 32 bytes; reaching for a byte that is not there sets the end-of-file mark. */
  method Fread(file: seq<Byte>, pos: nat) returns (buf: seq<Byte>, eof: bool)
    requires pos <= |file|
    ensures buf == if pos + 32 <= |file| then file[pos..pos + 32] else file[pos..]
    ensures eof <==> |file| < pos + 32
  {
    buf, eof := if pos + 32 <= |file| then file[pos..pos + 32] else file[pos..], |file| < pos + 32;
  }

  /** The body of the read loop: one line. */
  method PrintLine(n: nat, buf: seq<Byte>) returns (line: string)
    ensures line == Line(n, buf)
  {
    hide Hex;
    line := "  INIT_" + Hex(n) + " => X\"";
    var digits := "";
    var i := 0;
    while i < |buf|
      invariant 0 <= i <= |buf| && digits == Reversed(buf[|buf| - i..])
    {
      digits := digits + Hex(buf[|buf| - 1 - i]);
      i := i + 1;
    }
    line := line + digits + "\",\n";
  }

  /** The read loop of bin2init. A last block that is not full is not printed: it comes with the end-of-file mark. */
  method Print(file: seq<Byte>) returns (out: string)
    ensures out == Text(file, 0)
  {
    hide Line;
    out := "";
    var n, pos := 0, 0;
    var buf, eof := Fread(file, pos);
    pos := pos + |buf|;
    ghost var rest := file;
    while !eof
      invariant 0 <= n && 0 <= pos - |buf| <= pos <= |file| && rest == file[pos - |buf|..]
      invariant if eof then |rest| < 32 else |rest| >= 32 && buf == rest[..32]
      invariant out + Text(rest, n) == Text(file, 0)
      decreases |file| - pos, !eof
    {
      var line := PrintLine(n, buf);
      out := out + line;
      rest := rest[32..];
      buf, eof := Fread(file, pos);
      pos := pos + |buf|;
      n := n + 1;
    }
  }

  // ------------------------------------------------------------ the reader

  const BUFSIZE: nat := 256
  const ROM_SIZE: nat := 2048

  /** Where `c` first occurs, or the length of the string. */
  function IndexOf(s: string, c: char): (k: nat)
    ensures k <= |s| && (k < |s| ==> s[k] == c) && forall j :: 0 <= j < k ==> s[j] != c
  {
    if s == "" || s[0] == c then 0 else 1 + IndexOf(s[1..], c)
  }

  lemma IndexIs(s: string, c: char, k: nat)
    requires k < |s| && s[k] == c && forall j :: 0 <= j < k ==> s[j] != c
    ensures IndexOf(s, c) == k
  {
  }

  /** What fgets leaves in the buffer, and whether it ran into the end of the file. */
  function Fgets(text: string): (r: (string, bool))
    ensures r.0 <= text && (!r.1 ==> r.0 != "")
  {
    var k := IndexOf(text, '\n');
    if k < |text| && k + 1 < BUFSIZE then (text[..k + 1], false)
    else if |text| >= BUFSIZE - 1 then (text[..BUFSIZE - 1], false)
    else (text, true)
  }

  /** The buffers the reader looks at: the last one, that runs into the end of the file, is not among them. */
  function Buffers(text: string): seq<string> {
    var (buf, eof) := Fgets(text);
    if eof then [] else [buf] + Buffers(text[|buf|..])
  }

  /** fgets takes up to 255 characters, and nothing behind the first line end among them. */
  lemma FgetsTakes(text: string, k: nat)
    ensures |Fgets(text).0| <= 255 && Fgets(text).0 == text[..|Fgets(text).0|]
    ensures k < |text| && text[k] == '\n' && (forall j :: 0 <= j < k ==> text[j] != '\n') ==>
              Fgets(text) == (text[..if k < 255 then k + 1 else 255], false)
    ensures '\n' !in text ==> Fgets(text) == if |text| >= 255 then (text[..255], false) else (text, true)
  {
    if k < |text| && text[k] == '\n' && forall j :: 0 <= j < k ==> text[j] != '\n' {
      IndexIs(text, '\n', k);
    }
  }

  predicate HasArrow(buf: string) {
    exists k :: 0 <= k < |buf| - 1 && buf[k] == '=' && buf[k + 1] == '>'
  }

  function ToByte(val: int): Byte {
    val % 256
  }

  /** The bytes of 64 digits, last pair first. */
  function Pairs(digits: string): (row: seq<Byte>)
    requires |digits| == 64
    ensures |row| == 32
  {
    seq(32, j requires 0 <= j < 32 => ToByte(Ahtoi(digits[2 * (31 - j)..], 2)))
  }

  /** What a line gives: 32 bytes, if there is an arrow and 64 characters between the first two quotes. */
  function Row(buf: string): (row: Option<seq<Byte>>)
    ensures row.Some? ==> |row.value| == 32
  {
    var p := IndexOf(buf, '\"') + 1;
    if !HasArrow(buf) || p > |buf| then None
    else
      var q := IndexOf(buf[p..], '\"');
      if p + q == |buf| || q != 64 then None else Some(Pairs(buf[p..p + q]))
  }

  /** A buffer gives a row if there is an arrow in it, anywhere, and 64 characters between its first two quotes. */
  lemma RowExactly(buf: string, p: nat, q: nat)
    requires p < q < |buf| && buf[p] == buf[q] == '\"'
    requires forall k :: 0 <= k < q && k != p ==> buf[k] != '\"'
    ensures Row(buf).Some? <==> q - p == 65 && exists k :: 0 <= k < |buf| - 1 && buf[k] == '=' && buf[k + 1] == '>'
  {
    IndexIs(buf, '\"', p);
    IndexIs(buf[p + 1..], '\"', q - p - 1);
  }

  lemma NoRow(buf: string, p: nat)
    requires p <= |buf| && (p < |buf| ==> buf[p] == '\"') && forall k :: 0 <= k < |buf| && k != p ==> buf[k] != '\"'
    ensures Row(buf).None?
  {
    if p < |buf| {
      IndexIs(buf, '\"', p);
      assert IndexOf(buf[p + 1..], '\"') == |buf[p + 1..]|;
    }
  }

  /** Byte `j` of a row is what ahtoi makes of its two characters, cut to eight bits. */
  lemma RowByte(digits: string, j: nat)
    requires |digits| == 64 && j < 32
    ensures Pairs(digits)[j] == (16 * DigitValue(digits[62 - 2 * j]) + DigitValue(digits[63 - 2 * j])) % 256
  {
    hide Ahtoi, DigitValue;
    AhtoiTwo(digits[62 - 2 * j..]);
  }

  lemma AhtoiTwo(s: string)
    requires |s| >= 2
    ensures Ahtoi(s, 2) == 16 * DigitValue(s[0]) + DigitValue(s[1])
  {
    AhtoiLast(s, 0);
    AhtoiLast(s, 1);
  }

  function Rows(buffers: seq<string>): (rows: seq<seq<Byte>>)
    ensures forall k :: 0 <= k < |rows| ==> |rows[k]| == 32
  {
    if buffers == [] then []
    else RowOf(buffers[0]) + Rows(buffers[1..])
  }

  function Flat(rows: seq<seq<Byte>>): seq<Byte> {
    if rows == [] then [] else Flat(rows[..|rows| - 1]) + rows[|rows| - 1]
  }

  lemma {:induction false} FlatLength(rows: seq<seq<Byte>>)
    requires forall k :: 0 <= k < |rows| ==> |rows[k]| == 32
    ensures |Flat(rows)| == 32 * |rows|
  {
    if rows == [] {
    } else {
      FlatLength(rows[..|rows| - 1]);
    }
  }

  /** One round of the reader's loop: a line that is not an INIT line is passed over. */
  method ReadLine(buf: string, rom: array<Byte>, lines: nat) returns (next: nat)
    requires rom.Length == ROM_SIZE && (Row(buf).Some? ==> lines < 64)
    modifies rom
    ensures Row(buf).None? ==> next == lines && rom[..] == old(rom[..])
    ensures Row(buf).Some? ==> next == lines + 1
    ensures Row(buf).Some? ==> rom[..] == old(rom[..lines * 32]) + Row(buf).value + old(rom[(lines + 1) * 32..])
  {
    next := lines;
    if !HasArrow(buf) {
      return;
    }
    var p := IndexOf(buf, '\"');
    if p == |buf| {
      return;
    }
    p := p + 1;
    var q := p + IndexOf(buf[p..], '\"');
    if q == |buf| {
      return;
    }
    if q - p != 64 {
      return;
    }
    StoreRow(buf[p..q], rom, lines);
    next := lines + 1;
  }

  /** The loop over the digit pairs. */
  method StoreRow(digits: string, rom: array<Byte>, lines: nat)
    requires |digits| == 64 && rom.Length == ROM_SIZE && lines < 64
    modifies rom
    ensures rom[..] == old(rom[..lines * 32]) + Pairs(digits) + old(rom[(lines + 1) * 32..])
  {
    hide Ahtoi;
    var i, at := 0, 0;
    while i < 32
      invariant 0 <= i <= 32 && at == 2 * i
      invariant forall k :: 0 <= k < ROM_SIZE && !(lines * 32 + 32 - i <= k < lines * 32 + 32) ==> rom[k] == old(rom[k])
      invariant forall k :: lines * 32 + 32 - i <= k < lines * 32 + 32 ==> rom[k] == Pairs(digits)[k - lines * 32]
    {
      var val := ReadHex(digits[at..], 2);
      rom[lines * 32 + 32 - 1 - i] := ToByte(val);
      at := at + 2;
      i := i + 1;
    }
  }

  /** The contents of the ROM after some lines: their rows from the start, zeros behind. */
  function Rom(rows: seq<seq<Byte>>): (rom: seq<Byte>)
    requires |rows| <= 64 && forall k :: 0 <= k < |rows| ==> |rows[k]| == 32
    ensures |rom| == ROM_SIZE
  {
    FlatLength(rows);
    Flat(rows) + seq(ROM_SIZE - 32 * |rows|, _ => 0)
  }

  /** What one buffer adds. */
  function RowOf(buf: string): seq<seq<Byte>> {
    match Row(buf) case Some(row) => [row] case None => []
  }

  lemma RowsStep(text: string)
    ensures var (buf, eof) := Fgets(text);
            if eof then Rows(Buffers(text)) == []
            else Rows(Buffers(text)) == RowOf(buf) + Rows(Buffers(text[|buf|..]))
  {
    hide Row, Fgets;
    var (buf, eof) := Fgets(text);
    if !eof { assert Buffers(text)[1..] == Buffers(text[|buf|..]); }
  }

  /** The program xv2bin, for a text with at most as many INIT lines as the ROM has room for. */
  method Read(text: string) returns (rom: array<Byte>, lines: nat)
    requires |Rows(Buffers(text))| <= 64
    ensures rom.Length == ROM_SIZE && fresh(rom) && rom[..] == Rom(Rows(Buffers(text)))
    ensures lines == |Rows(Buffers(text))|
  {
    hide Row, Fgets, Rows, Buffers, Rom;
    rom := new Byte[ROM_SIZE](_ => 0);
    lines := 0;
    var pos := 0;
    ghost var rows, rest := [], text;
    var (buf, eof) := Fgets(text[pos..]);
    assert text[0..] == text;
    pos := pos + |buf|;
    RomEmpty();
    while !eof
      invariant 0 <= pos - |buf| <= pos <= |text| && (buf, eof) == Fgets(rest) && rest == text[pos - |buf|..]
      invariant (forall k :: 0 <= k < |rows| ==> |rows[k]| == 32) && lines == |rows|
      invariant rows + Rows(Buffers(rest)) == Rows(Buffers(text))
      invariant |rows| <= 64 && rom[..] == Rom(rows)
      decreases |text| - pos, !eof
    {
      RowsStep(rest);
      if Row(buf).Some? { RomNext(rows, Row(buf).value); }
      lines := ReadLine(buf, rom, lines);
      assert rows + [] == rows;
      rows := rows + RowOf(buf);
      rest := text[pos..];
      var next := Fgets(text[pos..]);
      buf, eof := next.0, next.1;
      pos := pos + |buf|;
    }
    RowsStep(rest);
    assert rows + [] == rows;
  }

  lemma RomEmpty()
    ensures Rom([]) == seq(ROM_SIZE, _ => 0)
  {
  }

  lemma RomNext(rows: seq<seq<Byte>>, row: seq<Byte>)
    requires |rows| < 64 && |row| == 32 && forall k :: 0 <= k < |rows| ==> |rows[k]| == 32
    ensures Rom(rows + [row]) == Rom(rows)[..|rows| * 32] + row + Rom(rows)[(|rows| + 1) * 32..]
  {
    FlatLength(rows);
    assert (rows + [row])[..|rows|] == rows;
  }

  // ------------------------------------------------------------ printing and reading back

  /** The characters between the digits of a line. */
  lemma LineShape(n: nat, block: seq<Byte>)
    requires |block| == 32
    ensures var line, h := Line(n, block), |Hex(n)|;
            && |Reversed(block)| == 64 && |line| == h + 80
            && HasArrow(line) && IndexOf(line, '\"') == h + 12
            && line[h + 13..] == Reversed(block) + "\",\n" && IndexOf(line[h + 13..], '\"') == 64
            && IndexOf(line, '\n') == |line| - 1
  {
    hide Hex, Reversed, IndexOf;
    HexIsDigits(n);
    ReversedIsDigits(block);
    var line, h := Line(n, block), |Hex(n)|;
    ReversedLength(block);
    assert line[h + 8] == '=' && line[h + 9] == '>';
    IndexIs(line, '\"', h + 12);
    IndexIs(line[h + 13..], '\"', 64);
    IndexIs(line, '\n', |line| - 1);
  }

  lemma {:induction false} ReversedLength(block: seq<Byte>)
    ensures |Reversed(block)| == 2 * |block|
  {
    if block == [] {
    } else {
      ReversedLength(block[1..]);
    }
  }

  /** Reading the pairs from the last to the first gives the bytes from the first to the last. */
  lemma {:induction false} PairAt(block: seq<Byte>, j: nat, rest: string)
    requires j < |block|
    ensures |Reversed(block)| == 2 * |block| && Ahtoi((Reversed(block) + rest)[2 * (|block| - 1 - j)..], 2) == block[j]
  {
    hide Ahtoi, Hex;
    ReversedLength(block);
    ReversedLength(block[1..]);
    var s := Reversed(block) + rest;
    if j == 0 {
      ByteRoundTrip(block[0], rest);
      assert s[2 * (|block| - 1)..] == Hex(block[0]) + rest;
    } else {
      PairAt(block[1..], j - 1, Hex(block[0]) + rest);
      assert s == Reversed(block[1..]) + (Hex(block[0]) + rest);
    }
  }

  lemma PairsOfReversed(block: seq<Byte>)
    requires |block| == 32
    ensures |Reversed(block)| == 64 && Pairs(Reversed(block)) == block
  {
    hide Ahtoi, Hex, Reversed;
    ReversedLength(block);
    forall j | 0 <= j < 32 ensures Pairs(Reversed(block))[j] == block[j] {
      PairAt(block, j, "");
      assert Reversed(block) + "" == Reversed(block);
    }
  }

  /** The reader understands every line of the printer. */
  lemma LineRoundTrip(n: nat, block: seq<Byte>)
    requires |block| == 32
    ensures Row(Line(n, block)) == Some(block)
  {
    hide Hex, Reversed, IndexOf, Pairs, HasArrow;
    var line, h := Line(n, block), |Hex(n)|;
    LineShape(n, block);
    assert line[h + 13..h + 77] == Reversed(block);
    PairsOfReversed(block);
  }

  /** The blocks of a file: its whole ones. */
  function Blocks(file: seq<Byte>): (rows: seq<seq<Byte>>)
    ensures |rows| == |file| / 32 && forall k :: 0 <= k < |rows| ==> |rows[k]| == 32
  {
    if |file| < 32 then [] else [file[..32]] + Blocks(file[32..])
  }

  /** A line number that fits an int prints in at most eight digits, so that a line fits the reader's buffer. */
  lemma HexShort(n: nat)
    requires n < 0x8000_0000
    ensures |Hex(n)| <= 8
  {
    HexGrows(n, 0x800_0000);
    HexGrows(n / 16, 0x80_0000);
    HexGrows(n / 16 / 16, 0x8_0000);
    HexGrows(n / 16 / 16 / 16, 0x8000);
    HexGrows(n / 16 / 16 / 16 / 16, 0x800);
    HexGrows(n / 16 / 16 / 16 / 16 / 16, 0x80);
  }

  /** A sixteenth of a number has a digit less, unless two are left. */
  lemma HexGrows(n: nat, bound: nat)
    requires n < 16 * bound
    ensures n / 16 < bound && (|Hex(n)| <= |Hex(n / 16)| + 1) && (n < 256 ==> |Hex(n)| == 2)
  {
  }

  lemma FirstLine(n: nat, block: seq<Byte>, rest: string)
    requires |block| == 32 && n < 0x8000_0000
    ensures Fgets(Line(n, block) + rest) == (Line(n, block), false)
  {
    hide Line, Reversed, Hex, IndexOf, HasArrow;
    var line := Line(n, block);
    LineShape(n, block);
    HexShort(n);
    IndexIs(line + rest, '\n', |line| - 1);
    assert (line + rest)[..|line|] == line;
  }

  /** The reader gets from the printed text the blocks of the file, in order. */
  lemma {:induction false} TextRoundTrip(file: seq<Byte>, n: nat)
    requires n + |file| / 32 <= 0x8000_0000
    ensures Rows(Buffers(Text(file, n))) == Blocks(file)
    decreases |file|
  {
    hide Line, Row, Fgets, Rows, Buffers;
    RowsStep(Text(file, n));
    if |file| < 32 {
      EmptyText();
    } else {
      var line := Line(n, file[..32]);
      var rest := Text(file[32..], n + 1);
      FirstLine(n, file[..32], rest);
      LineRoundTrip(n, file[..32]);
      assert (line + rest)[|line|..] == rest;
      TextRoundTrip(file[32..], n + 1);
    }
  }

  lemma EmptyText()
    ensures Fgets("") == ("", true)
  {
  }

  lemma {:induction false} FlatBlocks(file: seq<Byte>)
    ensures Flat(Blocks(file)) == file[..|file| / 32 * 32]
    decreases |file|
  {
    if |file| < 32 {
    } else {
      FlatBlocks(file[32..]);
      FlatSplit([file[..32]], Blocks(file[32..]));
      assert Flat([file[..32]]) == file[..32] by { assert [file[..32]][..0] == []; }
      assert |file[32..]| / 32 == |file| / 32 - 1;
    }
  }

  lemma FlatLast(u: seq<seq<Byte>>)
    ensures Flat(u) == if u == [] then [] else Flat(u[..|u| - 1]) + u[|u| - 1]
  {
  }

  lemma {:induction false} FlatSplit(u: seq<seq<Byte>>, v: seq<seq<Byte>>)
    ensures Flat(u + v) == Flat(u) + Flat(v)
    decreases |v|
  {
    hide Flat;
    FlatLast(v);
    if v == [] {
      assert u + v == u;
    } else {
      var n := |v| - 1;
      FlatLast(u + v);
      FlatSplit(u, v[..n]);
      assert (u + v)[..|u| + n] == u + v[..n];
    }
  }

  /** A file of up to 2048 bytes, printed and read back: its whole blocks are at the start of the ROM, zeros behind. */
  lemma RomRoundTrip(file: seq<Byte>)
    requires |file| <= ROM_SIZE
    ensures |Rows(Buffers(Text(file, 0)))| <= 64
    ensures var whole := |file| / 32 * 32;
            Rom(Rows(Buffers(Text(file, 0)))) == file[..whole] + seq(ROM_SIZE - whole, _ => 0)
  {
    hide Rows, Buffers, Text, Blocks, Flat;
    TextRoundTrip(file, 0);
    FlatBlocks(file);
  }

  /** The file itself comes back, at its own length, if and only if that is a multiple of 32. */
  lemma WholeFileIff(file: seq<Byte>)
    requires |file| / 32 <= 0x8000_0000
    ensures Flat(Rows(Buffers(Text(file, 0)))) == file <==> |file| % 32 == 0
  {
    hide Rows, Buffers, Text, Blocks, Flat;
    TextRoundTrip(file, 0);
    FlatBlocks(file);
  }
}
