/** The receiving side of a firmware transfer: `handle_firmware`, `check_timeouts`, `reset_firmware_upload`. */
module FirmwareReceiver {
  import opened Base
  import opened Artnet
  import opened Misc
  import opened FirmwarePacket

  const TIMEOUT := 20 // seconds

  /** One call of the user's firmware callback. */
  datatype Upload = Upload(ubea: bool, data: seq<word>, length: int)

  /** The node's transfer record, with the callbacks made and the replies handed to the network so far.
      `data` is the malloc'ed buffer, empty when there is none. */
  datatype Rx = Rx(
    peer: nat, data: seq<word>, bytesCurrent: int, bytesTotal: int, ubea: bool, lastTime: int,
    expectedBlock: nat, uploads: seq<Upload>, replies: seq<Reply>)

  predicate Inv(s: Rx) {
    && s.bytesTotal == 2 * |s.data|
    && (s.peer == 0 ==> s.data == [])
  }

  /** Block ids travel in 8 bits. Past block 255 an id that agrees with the expected block modulo 256 is unwrapped. */
  function Resolve(expected: nat, id: byte): nat {
    if expected > 0xff && expected % 0x100 == id then expected else id
  }

  /** C division truncates; a negative length only ever meets a comparison that fails. */
  function TotalBlocks(length: int): int {
    if length >= 0 then length / BLOCK + 1 else -(-length / BLOCK) + 1
  }

  function Block(s: Rx, p: Master): nat {
    Resolve(s.expectedBlock, p.blockId)
  }

  predicate AcceptsFirst(s: Rx, p: Master, m: Malloc<word>) {
    IsFirst(p.kind) && s.peer == 0 && Length(p) >= 0 && m.ok
  }

  predicate AcceptsCont(s: Rx, p: Master) {
    && IsCont(p.kind) && s.peer == p.from && Length(p) == s.bytesTotal
    && Block(s, p) < TotalBlocks(Length(p)) - 1
  }

  predicate AcceptsLast(s: Rx, p: Master) {
    && IsLast(p.kind) && s.peer == p.from && Length(p) == s.bytesTotal
    && Block(s, p) == TotalBlocks(Length(p)) - 1
  }

  /** An accepted block ends inside the buffer, and an accepted LAST ends exactly at its end. */
  lemma AcceptedBlockFits(s: Rx, p: Master)
    requires Inv(s)
    ensures AcceptsCont(s, p) ==> WORDS * Block(s, p) + WORDS <= |s.data|
    ensures AcceptsLast(s, p) ==> WORDS * Block(s, p) + s.bytesTotal % BLOCK / 2 == |s.data|
  {
    assert s.bytesTotal == s.bytesTotal / BLOCK * BLOCK + s.bytesTotal % BLOCK;
  }

  function Answer(s: Rx, to: nat, code: byte): Rx {
    s.(replies := s.replies + [Reply(to, code)])
  }

  function Memory(m: Malloc<word>, words: nat): (r: seq<word>)
    ensures |r| == words && forall i :: 0 <= i < words ==> r[i] == m.memory(i)
  {
    if words == 0 then [] else Memory(m, words - 1) + [m.memory(words - 1)]
  }

  function Reset(s: Rx): (r: Rx) {
    s.(peer := 0, data := [], bytesCurrent := 0, bytesTotal := 0, ubea := false, lastTime := 0)
  }

  function First(s: Rx, p: Master, now: int, m: Malloc<word>): (r: Rx)
    requires Inv(s) && AcceptsFirst(s, p, m)
    ensures Inv(r)
  {
    var length := Length(p);
    var n := Min(length, BLOCK) / 2;
    var s1 := s.(peer := p.from, data := Splice(Memory(m, length / 2), 0, p.data[..n]), bytesCurrent := 2 * n,
                 bytesTotal := length, ubea := p.kind == UBEAFIRST, lastTime := now, expectedBlock := 1);
    if 2 * n == length then
      Answer(s1.(uploads := s.uploads + [Upload(s1.ubea, s1.data, length)]), p.from, ALLGOOD)
    else
      Answer(s1, p.from, BLOCKGOOD)
  }

  function Cont(s: Rx, p: Master): (r: Rx)
    requires Inv(s) && AcceptsCont(s, p)
    ensures Inv(r)
  {
    AcceptedBlockFits(s, p);
    Answer(s.(data := Splice(s.data, WORDS * Block(s, p), p.data), bytesCurrent := s.bytesCurrent + BLOCK,
              expectedBlock := s.expectedBlock + 1),
           p.from, BLOCKGOOD)
  }

  /** The buffer as the callback sees it when the last block arrives. */
  function Completed(s: Rx, p: Master): (r: seq<word>)
    requires Inv(s) && AcceptsLast(s, p)
    ensures |r| == |s.data|
  {
    AcceptedBlockFits(s, p);
    Splice(s.data, WORDS * Block(s, p), p.data[..s.bytesTotal % BLOCK / 2])
  }

  function Last(s: Rx, p: Master): (r: Rx)
    requires Inv(s) && AcceptsLast(s, p)
    ensures Inv(r)
  {
    var upload := Upload(s.ubea, Completed(s, p), s.bytesTotal / 2);
    Answer(Reset(s.(uploads := s.uploads + [upload])), p.from, ALLGOOD)
  }

  /** One firmware packet. A FIRST whose `malloc` fails claims the peer and sends nothing. */
  function OnPacket(s: Rx, p: Master, now: int, m: Malloc<word>): (r: Rx)
    requires Inv(s)
    ensures Inv(r)
  {
    if AcceptsFirst(s, p, m) then First(s, p, now, m)
    else if IsFirst(p.kind) && s.peer == 0 then s.(peer := p.from)
    else if AcceptsCont(s, p) then Cont(s, p)
    else if AcceptsLast(s, p) then Last(s, p)
    else Answer(s, p.from, FAIL)
  }

  /** `check_timeouts`. */
  function OnTick(s: Rx, now: int): (r: Rx)
    requires Inv(s)
    ensures Inv(r)
  {
    if s.peer != 0 && now - s.lastTime >= TIMEOUT then Reset(s) else s
  }

  /** A `malloc` that succeeds. */
  method Allocate(m: Malloc<word>, words: nat) returns (a: array<word>)
    ensures fresh(a) && a[..] == Memory(m, words)
  {
    a := new word[words](i requires 0 <= i => m.memory(i));
  }

  class Receiver {
    var peer: nat
    var data: array?<word>
    var bytesCurrent: int
    var bytesTotal: int
    var ubea: bool
    var lastTime: int
    var expectedBlock: nat
    ghost var uploads: seq<Upload>
    ghost var replies: seq<Reply>

    ghost function Buffer(): seq<word>
      reads this, data
    {
      if data == null then [] else data[..]
    }

    ghost function View(): Rx
      reads this, data
    {
      Rx(peer, Buffer(), bytesCurrent, bytesTotal, ubea, lastTime, expectedBlock, uploads, replies)
    }

    constructor ()
      ensures View() == Rx(0, [], 0, 0, false, 0, 0, [], []) && Inv(View())
    {
      peer, data, bytesCurrent, bytesTotal := 0, null, 0, 0;
      ubea, lastTime, expectedBlock := false, 0, 0;
      uploads, replies := [], [];
    }

    method ResetFirmwareUpload()
      modifies this
      ensures View() == Reset(old(View()))
    {
      bytesCurrent, bytesTotal, peer, ubea, lastTime := 0, 0, 0, false, 0;
      data := null;
    }

    method CheckTimeouts(now: int)
      requires Inv(View())
      modifies this
      ensures View() == OnTick(old(View()), now)
    {
      if peer != 0 && now - lastTime >= TIMEOUT {
        ResetFirmwareUpload();
      }
    }

    /** `memcpy` into the transfer buffer. */
    method Write(at: nat, src: seq<word>)
      requires at + |src| <= |Buffer()|
      modifies data
      ensures Buffer() == Splice(old(Buffer()), at, src)
    {
      if data != null {
        Memcpy(data, at, src);
      }
    }

    /** A FIRST packet takes the node over: peer, buffer, size and clock, before any payload is copied. */
    method Claim(p: Master, now: int, m: Malloc<word>, length: nat)
      requires length % 2 == 0
      modifies this
      ensures data != null && fresh(data)
      ensures View() == old(View()).(peer := p.from, data := Memory(m, length / 2), bytesTotal := length,
                                     ubea := p.kind != FIRMFIRST, lastTime := now, expectedBlock := 1)
    {
      peer := p.from;
      data := Allocate(m, length / 2);
      bytesTotal := length;
      lastTime := now;
      expectedBlock := 1;
      ubea := p.kind != FIRMFIRST;
    }

    /** The part of a FIRST packet after `malloc` has succeeded. */
    method Begin(p: Master, now: int, m: Malloc<word>, length: nat) returns (code: byte)
      requires Inv(View()) && AcceptsFirst(View(), p, m) && length == Length(p)
      modifies this
      ensures Answer(View(), p.from, code) == First(old(View()), p, now, m)
    {
      hide Memory, Length;
      Claim(p, now, m, length);
      var blockLength := Min(length, BLOCK);
      Write(0, p.data[..blockLength / 2]);
      bytesCurrent := blockLength;
      if blockLength == length {
        code := ALLGOOD;
        uploads := uploads + [Upload(ubea, Buffer(), bytesTotal)];
      } else {
        code := BLOCKGOOD;
      }
    }

    method HandleFirst(p: Master, now: int, m: Malloc<word>) returns (ret: int, code: byte)
      requires Inv(View()) && IsFirst(p.kind)
      modifies this
      ensures ret == if old(peer) == 0 && !old(AcceptsFirst(View(), p, m)) then EMEM else EOK
      ensures ret == EOK ==> Answer(View(), p.from, code) == OnPacket(old(View()), p, now, m)
      ensures ret != EOK ==> View() == OnPacket(old(View()), p, now, m)
    {
      hide First;
      ret, code := EOK, FAIL;
      if peer == 0 {
        var length := Length(p);
        if length < 0 || !m.ok {
          peer := p.from;
          return EMEM, code;
        }
        code := Begin(p, now, m, length);
      }
    }

    /** The accepted branch of a CONT packet. */
    method Store(p: Master, blockId: nat)
      requires Inv(View()) && AcceptsCont(View(), p) && blockId == Block(View(), p)
      modifies this, data
      ensures data == old(data) && Answer(View(), p.from, BLOCKGOOD) == Cont(old(View()), p)
    {
      AcceptedBlockFits(View(), p);
      Write(blockId * WORDS, p.data);
      bytesCurrent := bytesCurrent + BLOCK;
      expectedBlock := expectedBlock + 1;
    }

    method HandleCont(p: Master) returns (code: byte)
      requires Inv(View()) && IsCont(p.kind)
      modifies this, data
      ensures data == old(data)
      ensures Answer(View(), p.from, code) ==
        if old(AcceptsCont(View(), p)) then Cont(old(View()), p) else Answer(old(View()), p.from, FAIL)
    {
      hide Cont;
      var length := Length(p);
      var totalBlocks := TotalBlocks(length);
      var blockId: nat := p.blockId;
      if expectedBlock > 0xff && expectedBlock % 0x100 == p.blockId {
        blockId := expectedBlock;
      }
      if peer == p.from && length == bytesTotal && blockId < totalBlocks - 1 {
        Store(p, blockId);
        code := BLOCKGOOD;
      } else {
        code := FAIL;
      }
    }

    /** The accepted branch of a LAST packet: copy the tail, hand the buffer over, forget the transfer. */
    method Finish(p: Master, blockId: nat)
      requires Inv(View()) && AcceptsLast(View(), p) && blockId == Block(View(), p)
      modifies this, data
      ensures Answer(View(), p.from, ALLGOOD) == Last(old(View()), p)
    {
      AcceptedBlockFits(View(), p);
      var blockLength := bytesTotal % BLOCK;
      Write(blockId * WORDS, p.data[..blockLength / 2]);
      bytesCurrent := bytesCurrent + blockLength;
      uploads := uploads + [Upload(ubea, Buffer(), bytesTotal / 2)];
      ResetFirmwareUpload();
    }

    method HandleLast(p: Master) returns (code: byte)
      requires Inv(View()) && IsLast(p.kind)
      modifies this, data
      ensures Answer(View(), p.from, code) ==
        if old(AcceptsLast(View(), p)) then Last(old(View()), p) else Answer(old(View()), p.from, FAIL)
    {
      var length := Length(p);
      var totalBlocks := TotalBlocks(length);
      var blockId: nat := p.blockId;
      if expectedBlock > 0xff && expectedBlock % 0x100 == p.blockId {
        blockId := expectedBlock;
      }
      if peer == p.from && length == bytesTotal && blockId == totalBlocks - 1 {
        Finish(p, blockId);
        code := ALLGOOD;
      } else {
        code := FAIL;
      }
    }

    /** `handle_firmware`: a function of the record before, the packet, the clock and the allocator. `net` is what sending
        the reply returns, and so does the call. */
    method HandleFirmware(p: Master, now: int, m: Malloc<word>, net: int) returns (ret: int)
      requires Inv(View())
      modifies this, data
      ensures View() == OnPacket(old(View()), p, now, m) && Inv(View())
      ensures ret == if old(IsFirst(p.kind) && peer == 0 && !AcceptsFirst(View(), p, m)) then EMEM else net
    {
      hide First, Cont, Last, Length, Block, TotalBlocks;
      var code := FAIL;
      ret := EOK;
      if IsFirst(p.kind) {
        ret, code := HandleFirst(p, now, m);
        if ret != EOK {
          return;
        }
      } else if IsCont(p.kind) {
        code := HandleCont(p);
      } else if IsLast(p.kind) {
        code := HandleLast(p);
      }
      replies := replies + [Reply(p.from, code)];
      return net;
    }
  }
}
