/** The transfers of mmc.c, block by block over the SPI bus. What the card answers is chosen freely; the transferred
    bytes themselves are taken for right, because the driver discards their CRC. */
module MmcCard {
  import opened Storage

  const SINGLE: Byte := 0xFE  // the token before a block
  const START: Byte := 0xFC   // the same in a write of several blocks
  const STOP: Byte := 0xFD    // the token that ends such a write

  /** A command packet, by its number, or a data token. */
  datatype Packet = Command(number: nat) | Token(b: Byte)

  class Card {
    var blocks: seq<Sector>
    const bad: set<nat>
    const worn: set<nat>
    /** How often the card has not answered as wanted. */
    ghost var refusals: nat

    /** What has been sent to the card, or would have been if it had become ready for it. */
    ghost var sent: seq<Packet>

    /** send_cmd: 0 if the card has taken the command. */
    method SendCmd(number: nat) returns (res: Byte)
      modifies `refusals, `sent
      ensures sent == old(sent) + [Command(number)]
      ensures refusals >= old(refusals) && (res == 0 <==> refusals == old(refusals))
    {
      res := *;
      sent := sent + [Command(number)];
      if res != 0 { refusals := refusals + 1; }
    }

    /** Waiting for a data token: a bad block never gets one. */
    method WaitToken(sector: nat) returns (token: Byte)
      modifies `refusals
      ensures token == SINGLE ==> sector < |blocks| && sector !in bad
      ensures refusals >= old(refusals) && (token == SINGLE <==> refusals == old(refusals))
    {
      token := *;
      if sector >= |blocks| || sector in bad {
        token := 0xFF;
      }
      if token != SINGLE { refusals := refusals + 1; }
    }

    /** rcvr_datablock: nothing is stored unless the token has come, and after that nothing fails. */
    method RcvrDatablock(buff: array<Byte>, at: nat, sector: nat) returns (ok: bool)
      requires at + 512 <= buff.Length
      modifies buff, `refusals
      ensures refusals >= old(refusals) && (ok <==> refusals == old(refusals))
      ensures ok ==> sector < |blocks| && sector !in bad && buff[at..at + 512] == blocks[sector]
      ensures forall k :: 0 <= k < buff.Length && !(ok && at <= k < at + 512) ==> buff[k] == old(buff[k])
    {
      var token := WaitToken(sector);
      if token != SINGLE {
        return false;
      }
      var btr, p := 512, at;
      while btr != 0
        invariant 0 <= btr <= 512 && btr % 2 == 0 && p == at + (512 - btr)
        invariant forall k :: at <= k < p ==> buff[k] == blocks[sector][k - at]
        invariant forall k :: 0 <= k < buff.Length && !(at <= k < p) ==> buff[k] == old(buff[k])
        modifies buff
      {
        buff[p] := blocks[sector][p - at];
        buff[p + 1] := blocks[sector][p + 1 - at];
        p, btr := p + 2, btr - 2;
      }
      assert forall k :: 0 <= k < 512 ==> buff[at..at + 512][k] == buff[at + k] == blocks[sector][k];
      ok := true;
    }

    /** disk_read. The first `done` sectors have come, rightly, and nothing else in the buffer has been touched; the
        answer is OK if they are all, as they are unless the card refuses. A failed read of one sector leaves the buffer
        as it was. A read of several sectors that has been `taken` is stopped, whatever has become of it. */
    method DiskRead(ready: bool, buff: array<Byte>, at: nat, sector: nat, count: nat)
      returns (ok: bool, ghost done: nat, ghost taken: bool)
      requires at + 512 * count <= buff.Length
      modifies buff, `refusals, `sent
      ensures done <= count && (ok <==> done == count > 0) && refusals >= old(refusals)
      ensures ready && count > 0 && refusals == old(refusals) ==> ok
      ensures !taken ==> done == 0
      ensures sent == old(sent) + if !ready || count == 0 then [] else if count == 1 then [Command(17)]
                                  else if taken then [Command(18), Command(12)] else [Command(18)]
      ensures done > 0 ==> sector + done <= |blocks| && forall s :: sector <= s < sector + done ==> s !in bad
      ensures forall k :: at <= k < at + 512 * done ==> buff[k] == blocks[sector + (k - at) / 512][(k - at) % 512]
      ensures forall k :: 0 <= k < buff.Length && !(at <= k < at + 512 * done) ==> buff[k] == old(buff[k])
      ensures count == 1 && !ok ==> buff[..] == old(buff[..])
    {
      ok, done, taken := false, 0, false;
      if count == 0 || !ready {
        return;
      }
      var res := SendCmd(if count == 1 then 17 else 18);
      if res != 0 {
        return;
      }
      taken := true;
      var left := count;
      ok := true;
      while ok && left != 0
        invariant sent == old(sent) + [Command(if count == 1 then 17 else 18)]
        invariant done <= count && left == count - done && (!ok ==> left != 0)
        invariant refusals >= old(refusals) && (!ok ==> refusals > old(refusals))
        invariant done > 0 ==> sector + done <= |blocks| && forall s :: sector <= s < sector + done ==> s !in bad
        invariant forall k :: at <= k < at + 512 * done ==> buff[k] == blocks[sector + (k - at) / 512][(k - at) % 512]
        invariant forall k :: 0 <= k < buff.Length && !(at <= k < at + 512 * done) ==> buff[k] == old(buff[k])
        decreases left, ok
      {
        ghost var p := at + 512 * done;
        ok := RcvrDatablock(buff, at + 512 * (count - left), sector + (count - left));
        if ok {
          BlockBytes(buff[..], p, blocks[sector + done]);
          done, left := done + 1, left - 1;
        }
      }
      if count > 1 {
        res := SendCmd(12);
      }
    }

    /** xmit_datablock: the block is stored if the card says so; if it does not, the block may hold anything, unless it
        is worn. */
    method XmitDatablock(buff: array<Byte>, at: nat, sector: nat, token: Byte) returns (ok: bool)
      requires at + 512 <= buff.Length
      modifies this
      ensures |blocks| == |old(blocks)| && refusals >= old(refusals) && (ok <==> refusals == old(refusals))
      ensures sent == old(sent) + [Token(token)]
      ensures ok ==> sector < |blocks| && sector !in worn && blocks[sector] == buff[at..at + 512]
      ensures forall s :: 0 <= s < |blocks| && (s != sector || s in worn) ==> blocks[s] == old(blocks[s])
    {
      var idle: bool := *;
      ok := *;
      sent := sent + [Token(token)];
      ok := ok && idle && sector < |blocks| && sector !in worn;
      if ok {
        blocks := blocks[sector := buff[at..at + 512]];
      } else if idle && sector < |blocks| && sector !in worn {
        var noise: Sector := *;
        blocks := blocks[sector := noise];
      }
      if !ok { refusals := refusals + 1; }
    }

    /** xmit_datablock with the stop token. */
    method XmitStop() returns (ok: bool)
      modifies `refusals, `sent
      ensures refusals >= old(refusals) && (ok <==> refusals == old(refusals))
      ensures sent == old(sent) + [Token(STOP)]
    {
      ok := *;
      sent := sent + [Token(STOP)];
      if !ok { refusals := refusals + 1; }
    }

    /** The blocks of a write, up to the first that is refused. The first `done` of them have been stored, and but for
        one behind them nothing else has changed. */
    method XmitBlocks(buff: array<Byte>, at: nat, sector: nat, count: nat, token: Byte)
      returns (ok: bool, ghost done: nat, ghost tried: nat)
      requires at + 512 * count <= buff.Length
      modifies this
      ensures |blocks| == |old(blocks)| && refusals >= old(refusals) && (ok <==> refusals == old(refusals))
      ensures tried == done + (if ok then 0 else 1) && tried <= count && (ok ==> done == count)
      ensures sent == old(sent) + Tokens(token, tried)
      ensures done > 0 ==> sector + done <= |blocks|
      ensures forall s :: sector <= s < sector + done ==> s !in worn && blocks[s] == Slice(buff[..], at, s - sector)
      ensures forall s :: 0 <= s < |blocks| && (!(sector <= s < sector + tried) || s in worn) ==>
                blocks[s] == old(blocks[s])
    {
      hide Tokens, Slice;
      ok, done, tried := true, 0, 0;
      var left := count;
      NextToken(token, 0);
      while ok && left != 0
        invariant |blocks| == |old(blocks)| && done <= count && left == count - done && (!ok ==> left != 0)
        invariant refusals >= old(refusals) && (ok <==> refusals == old(refusals))
        invariant tried == done + (if ok then 0 else 1) && sent == old(sent) + Tokens(token, tried)
        invariant done > 0 ==> sector + done <= |blocks|
        invariant forall s :: sector <= s < sector + done ==> s !in worn && blocks[s] == Slice(buff[..], at, s - sector)
        invariant forall s :: 0 <= s < |blocks| && (!(sector <= s < sector + tried) || s in worn) ==>
                    blocks[s] == old(blocks[s])
        decreases left, ok
      {
        NextToken(token, tried);
        SliceIs(buff[..], at, count - left);
        ok := XmitDatablock(buff, at + 512 * (count - left), sector + (count - left), token);
        tried := tried + 1;
        if ok {
          done, left := done + 1, left - 1;
        }
      }
    }

    /** disk_write. The first `done` sectors have been stored, and but for one behind them nothing else has changed; OK
        means that they are all stored, and with more than one also that the card has confirmed the end. It is
        answered unless the card refuses. A write of several sectors is announced to an SD card, and stopped whatever
        has become of it; `tried` blocks have been sent. */
    method DiskWrite(ready: bool, locked: bool, sdc: bool, buff: array<Byte>, at: nat, sector: nat, count: nat)
      returns (ok: bool, ghost done: nat, ghost tried: nat)
      requires at + 512 * count <= buff.Length
      modifies this
      ensures |blocks| == |old(blocks)| && done <= count && (ok ==> done == count > 0) && refusals >= old(refusals)
      ensures ready && !locked && count > 0 && refusals == old(refusals) ==> ok
      ensures done <= tried <= done + 1 && tried <= count
      ensures sent == old(sent) + if !ready || locked || count == 0 then []
                                  else if count == 1 then [Command(24)] + Tokens(0xFE, tried)
                                  else (if sdc then [Command(23)] else []) + [Command(25)] + Tokens(0xFC, tried)
                                       + if tried > 0 then [Token(0xFD)] else []
      ensures done > 0 ==> sector + done <= |blocks|
      ensures forall s :: sector <= s < sector + done ==> s !in worn && blocks[s] == Slice(buff[..], at, s - sector)
      ensures forall s :: 0 <= s < |blocks| && (!(sector <= s < sector + tried) || s in worn) ==>
                blocks[s] == old(blocks[s])
    {
      hide Tokens, Slice;
      ok, done, tried := false, 0, 0;
      NextToken(SINGLE, 0);
      NextToken(START, 0);
      if count == 0 || !ready || locked {
        return;
      }
      if count == 1 {
        var res := SendCmd(24);
        if res == 0 {
          ok, done, tried := XmitBlocks(buff, at, sector, 1, SINGLE);
        }
        return;
      }
      if sdc {
        var ignored := SendCmd(23);
      }
      var res := SendCmd(25);
      if res == 0 {
        ok, done, tried := XmitBlocks(buff, at, sector, count, START);
        var stopped := XmitStop();
        ok := ok && stopped;
      }
    }
  }

  lemma NextToken(b: Byte, n: nat)
    ensures Tokens(b, 0) == [] && Tokens(b, n + 1) == Tokens(b, n) + [Token(b)]
  {
  }

  lemma SliceIs(data: seq<Byte>, at: nat, j: nat)
    requires at + 512 * (j + 1) <= |data|
    ensures Slice(data, at, j) == data[at + 512 * j..at + 512 * j + 512]
  {
  }

  function Tokens(b: Byte, n: nat): seq<Packet> {
    seq(n, _ => Token(b))
  }

  lemma BlockBytes(buff: seq<Byte>, p: nat, block: Sector)
    requires p + 512 <= |buff| && buff[p..p + 512] == block
    ensures forall k :: p <= k < p + 512 ==> buff[k] == block[k - p]
  {
    assert forall k :: p <= k < p + 512 ==> buff[k] == buff[p..p + 512][k - p];
  }
}
