/** The sending side of a firmware transfer: `artnet_send_firmware`, `artnet_tx_firmware_packet`,
    `handle_firmware_reply`, over the transfer record of one node-list entry. */
module FirmwareSender {
  import opened Base
  import opened Artnet
  import opened Misc
  import opened FirmwarePacket

  /** The record; `sent` and `results` log the packets put on the wire and the callbacks made since
      `artnet_send_firmware`. */
  datatype Tx = Tx(
    data: seq<word>, bytesCurrent: int, bytesTotal: int, peer: nat, ubea: bool, lastTime: int,
    expectedBlock: nat, sent: seq<Master>, results: seq<byte>)

  predicate Inv(s: Tx) {
    && 0 <= s.bytesCurrent <= s.bytesTotal < 0x8000_0000
    && s.bytesTotal == 2 * |s.data|
    && s.bytesCurrent % 2 == 0
    && s.expectedBlock < 0xff
  }

  function DataLength(s: Tx): nat
    requires Inv(s)
  {
    Min(s.bytesTotal - s.bytesCurrent, BLOCK)
  }

  function Padded(words: seq<word>): (r: seq<word>)
    requires |words| <= WORDS
    ensures |r| == WORDS
  {
    words + seq(WORDS - |words|, _ => 0)
  }

  lemma PaddedBySplice(words: seq<word>)
    requires |words| <= WORDS
    ensures Splice(seq(WORDS, _ => 0), 0, words) == Padded(words)
  {
  }

  function Chunk(s: Tx): (r: seq<word>)
    requires Inv(s)
    ensures |r| == DataLength(s) / 2 <= WORDS
  {
    s.data[s.bytesCurrent / 2..s.bytesCurrent / 2 + DataLength(s) / 2]
  }

  function PacketKind(s: Tx): byte
    requires Inv(s)
  {
    if s.bytesCurrent == 0 then (if s.ubea then UBEAFIRST else FIRMFIRST)
    else if DataLength(s) == BLOCK then (if s.ubea then UBEACONT else FIRMCONT)
    else (if s.ubea then UBEALAST else FIRMLAST)
  }

  function NextPacket(s: Tx, self: nat): Master
    requires Inv(s) && self > 0
  {
    MasterPacket(self, PacketKind(s), s.expectedBlock, BigEndian(s.bytesTotal / 2), Padded(Chunk(s)))
  }

  /** `artnet_tx_firmware_packet`: the record moves on only if the network took the packet. */
  function Transmit(s: Tx, self: nat, ok: bool, now: int): (r: Tx)
    requires Inv(s) && self > 0
    ensures Inv(r)
  {
    if !ok then s else
    s.(bytesCurrent := s.bytesCurrent + DataLength(s), lastTime := now,
       expectedBlock := (s.expectedBlock + 1) % 0xff, sent := s.sent + [NextPacket(s, self)])
  }

  function Start(entryIp: nat, image: seq<word>, ubea: bool, lastTime: int): (r: Tx)
    requires |image| < 0x4000_0000
    ensures Inv(r)
  {
    Tx(image, 0, 2 * |image|, entryIp, ubea, lastTime, 0, [], [])
  }

  function Cleared(s: Tx): (r: Tx)
    ensures Inv(r)
  {
    Tx([], 0, 0, 0, false, 0, 0, s.sent, s.results)
  }

  /** `handle_firmware_reply`. */
  function OnReply(s: Tx, entryIp: nat, self: nat, from: nat, code: byte, ok: bool, now: int): (r: Tx)
    requires Inv(s) && self > 0
    ensures Inv(r)
  {
    if from != entryIp || s.bytesTotal == 0 then s
    else if code == ALLGOOD then
      if s.bytesTotal == s.bytesCurrent then Cleared(s.(results := s.results + [ALLGOOD])) else s
    else if code == FAIL then Cleared(s.(results := s.results + [FAIL]))
    else if code == BLOCKGOOD && s.bytesTotal != s.bytesCurrent then Transmit(s, self, ok, now)
    else s
  }

  class Sender {
    const self: nat     // this node's address
    const entryIp: nat  // the address of the list entry that owns the record
    var data: array?<word>
    var bytesCurrent: int
    var bytesTotal: int
    var peer: nat
    var ubea: bool
    var lastTime: int
    var expectedBlock: nat
    ghost var sent: seq<Master>
    ghost var results: seq<byte>

    ghost function View(): Tx
      reads this, data
    {
      Tx(if data == null then [] else data[..], bytesCurrent, bytesTotal, peer, ubea, lastTime, expectedBlock,
         sent, results)
    }

    ghost predicate Valid()
      reads this, data
    {
      self > 0 && Inv(View())
    }

    constructor (self: nat, entryIp: nat)
      requires self > 0
      ensures Valid() && this.self == self && this.entryIp == entryIp
      ensures View() == Tx([], 0, 0, 0, false, 0, 0, [], [])
    {
      this.self, this.entryIp := self, entryIp;
      data, bytesCurrent, bytesTotal, peer := null, 0, 0, 0;
      ubea, lastTime, expectedBlock := false, 0, 0;
      sent, results := [], [];
    }

    method BuildPayload(dataLen: nat) returns (payload: array<word>)
      requires Valid() && dataLen == DataLength(View())
      ensures fresh(payload) && payload[..] == Padded(Chunk(View()))
    {
      payload := new word[WORDS](_ => 0);
      assert payload[..] == seq(WORDS, _ => 0);
      PaddedBySplice(Chunk(View()));
      if data != null {
        Memcpy(payload, 0, data[bytesCurrent / 2..bytesCurrent / 2 + dataLen / 2]);
      }
    }

    method BuildPacket(dataLen: nat, maxLen: nat) returns (packet: Master)
      requires Valid() && maxLen == BLOCK && dataLen == DataLength(View())
      ensures packet == NextPacket(View(), self)
    {
      var kind: byte;
      if ubea {
        kind := if bytesCurrent == 0 then UBEAFIRST else if dataLen == maxLen then UBEACONT else UBEALAST;
      } else {
        kind := if bytesCurrent == 0 then FIRMFIRST else if dataLen == maxLen then FIRMCONT else FIRMLAST;
      }
      var length := new byte[4];
      IntToBytes(bytesTotal / 2, length);
      assert length[..] == length[..4];
      var payload := BuildPayload(dataLen);
      packet := MasterPacket(self, kind, expectedBlock, length[..], payload[..]);
    }

    method TxFirmwarePacket(ok: bool, now: int) returns (ret: int)
      requires Valid()
      modifies this
      ensures View() == Transmit(old(View()), self, ok, now)
      ensures data == old(data) && ret == if ok then EOK else ENET
    {
      var maxLen := WORDS * 2;
      var dataLen := Min(bytesTotal - bytesCurrent, maxLen);
      var packet := BuildPacket(dataLen, maxLen);
      if !ok {
        return ENET;
      }
      sent := sent + [packet];
      bytesCurrent := bytesCurrent + dataLen;
      lastTime := now;
      expectedBlock := expectedBlock + 1;
      expectedBlock := expectedBlock % 0xff;
      return EOK;
    }

    /** Stores the parameters of a new transfer, with a copy of the image. */
    method Prepare(image: seq<word>, blen: int, isUbea: bool)
      requires self > 0 && |image| < 0x4000_0000 && blen == 2 * |image|
      modifies this
      ensures Valid() && View() == Start(entryIp, image, isUbea, old(lastTime))
    {
      data := new word[|image|](i requires 0 <= i < |image| => image[i]);
      assert data[..] == image;
      bytesCurrent, bytesTotal, peer, ubea, expectedBlock := 0, blen, entryIp, isUbea, 0;
      sent, results := [], [];
    }

    /** `artnet_send_firmware`; `found` says whether the entry is in the node list, `mallocOk` whether memory can be
        had. A byte count that overflows an `int` asks for nearly the whole address space, which fails. When it fails
        the record loses its buffer and is otherwise as it was, even if a transfer was in progress. */
    method SendFirmware(found: bool, modeOn: bool, nodeType: NodeType, image: seq<word>, isUbea: bool,
                        mallocOk: bool, ok: bool, now: int)
      returns (ret: int)
      requires Valid() && |image| < 0x8000_0000
      modifies this
      ensures ret == EARG <==> !found
      ensures ret == EACTION <==> found && !modeOn
      ensures ret == ESTATE <==> found && modeOn && nodeType != SRV && nodeType != RAW
      ensures ret == EMEM <==>
        found && modeOn && (nodeType == SRV || nodeType == RAW) && (!mallocOk || |image| >= 0x4000_0000)
      ensures ret in {EARG, EACTION, ESTATE, EMEM, ENET, EOK} && (ret == ENET ==> !ok) && (ret == EOK ==> ok)
      ensures ret in {EOK, ENET} ==>
        Valid() && View() == Transmit(Start(entryIp, image, isUbea, old(lastTime)), self, ok, now)
      ensures ret == EMEM ==> View() == old(View()).(data := [])
      ensures ret in {EARG, EACTION, ESTATE} ==> View() == old(View())
    {
      if !found {
        return EARG;
      }
      if !modeOn {
        return EACTION;
      }
      if nodeType == SRV || nodeType == RAW {
        var blen := ToInt32(|image| * 2);
        if blen < 0 || !mallocOk {
          data := null;
          return EMEM;
        }
        Prepare(image, blen, isUbea);
        ret := TxFirmwarePacket(ok, now);
        return;
      }
      return ESTATE;
    }

    method HandleFirmwareReply(from: nat, code: byte, ok: bool, now: int) returns (ret: int)
      requires Valid()
      modifies this
      ensures Valid() && View() == OnReply(old(View()), entryIp, self, from, code, ok, now)
      ensures ret == if from == entryIp && code == BLOCKGOOD && old(bytesTotal != 0 && bytesCurrent != bytesTotal) && !ok
                     then ENET else EOK
    {
      if from != entryIp || bytesTotal == 0 {
        return EOK;
      }
      if code == ALLGOOD {
        if bytesTotal == bytesCurrent {
          results := results + [ALLGOOD];
          Clear();
        }
      } else if code == FAIL {
        results := results + [FAIL];
        Clear();
      } else if code == BLOCKGOOD {
        if bytesTotal != bytesCurrent {
          ret := TxFirmwarePacket(ok, now);
          return;
        }
      }
      return EOK;
    }

    /** The `memset` of the record. */
    method Clear()
      modifies this
      ensures View() == Cleared(old(View()))
    {
      data, bytesCurrent, bytesTotal, peer := null, 0, 0, 0;
      ubea, lastTime, expectedBlock := false, 0, 0;
    }
  }

  // Runs: whatever replies arrive after artnet_send_firmware.

  datatype ReplyEvent = ReplyEvent(from: nat, code: byte, ok: bool, now: int)

  function Run(s: Tx, entryIp: nat, self: nat, es: seq<ReplyEvent>): (r: Tx)
    requires Inv(s) && self > 0
    ensures Inv(r)
  {
    if es == [] then s else
    var e := es[|es| - 1];
    OnReply(Run(s, entryIp, self, es[..|es| - 1]), entryIp, self, e.from, e.code, e.ok, e.now)
  }

  predicate IsNth(p: Master, image: seq<word>, ubea: bool, self: nat, j: nat)
    requires self > 0 && |image| < 0x4000_0000
  {
    WORDS * j <= |image| && p == NthPacket(image, ubea, self, j, j % 0xff)
  }

  /** The record of a transfer in progress after `n` packets. */
  predicate Active(s: Tx, image: seq<word>, ubea: bool, n: nat) {
    && s.data == image && s.ubea == ubea && s.bytesTotal == 2 * |image|
    && s.bytesCurrent == Min(BLOCK * n, 2 * |image|) && s.expectedBlock == n % 0xff
  }

  /** The wire carries exactly the first packets of the image, and the record says how far it got. */
  predicate Progress(s: Tx, image: seq<word>, ubea: bool, self: nat)
    requires self > 0 && |image| < 0x4000_0000
  {
    && |s.sent| <= NumBlocks(|image|)
    && (forall j :: 0 <= j < |s.sent| ==> IsNth(s.sent[j], image, ubea, self, j))
    && (s.bytesTotal != 0 ==> Active(s, image, ubea, |s.sent|))
    && |s.results| <= 1
    && (s.results != [] ==> s.bytesTotal == 0)
    && (ALLGOOD in s.results ==> |s.sent| == NumBlocks(|image|))
  }

  lemma Position(words: nat, n: nat, current: int)
    requires current == Min(BLOCK * n, 2 * words) && if words == 0 then n == 0 else current != 2 * words
    ensures WORDS * n <= words && current == BLOCK * n && n < NumBlocks(words)
  {
  }

  lemma NextIsNth(s: Tx, image: seq<word>, ubea: bool, self: nat)
    requires Inv(s) && self > 0 && |image| < 0x4000_0000
    requires Active(s, image, ubea, |s.sent|)
    requires if s.bytesTotal == 0 then s.sent == [] else s.bytesCurrent != s.bytesTotal
    ensures |s.sent| < NumBlocks(|image|)
    ensures IsNth(NextPacket(s, self), image, ubea, self, |s.sent|)
    ensures s.bytesCurrent + DataLength(s) == Min(BLOCK * (|s.sent| + 1), 2 * |image|)
  {
    hide NumBlocks;
    var n := |s.sent|;
    Position(|image|, n, s.bytesCurrent);
    assert Padded(Chunk(s)) == Payload(image, n);
  }

  lemma NumBlocksBounds(words: nat)
    ensures words > 0 ==> WORDS * (NumBlocks(words) - 1) < words <= WORDS * NumBlocks(words)
    ensures words > 0 ==> (words % WORDS == 0 <==> words == WORDS * NumBlocks(words))
  {
    assert words == words / WORDS * WORDS + words % WORDS;
  }

  lemma NextId(n: nat)
    ensures (n % 0xff + 1) % 0xff == (n + 1) % 0xff
  {
  }

  lemma AppendNth(sent: seq<Master>, p: Master, image: seq<word>, ubea: bool, self: nat)
    requires self > 0 && |image| < 0x4000_0000
    requires forall j :: 0 <= j < |sent| ==> IsNth(sent[j], image, ubea, self, j)
    requires IsNth(p, image, ubea, self, |sent|)
    ensures forall j :: 0 <= j < |sent| + 1 ==> IsNth((sent + [p])[j], image, ubea, self, j)
  {
    forall j | 0 <= j < |sent| + 1
      ensures IsNth((sent + [p])[j], image, ubea, self, j)
    {
      if j < |sent| {
        assert (sent + [p])[j] == sent[j];
      }
    }
  }

  lemma TransmitKeepsActive(s: Tx, image: seq<word>, ubea: bool, self: nat, now: int)
    requires Inv(s) && self > 0 && |image| < 0x4000_0000
    requires Active(s, image, ubea, |s.sent|)
    requires if s.bytesTotal == 0 then s.sent == [] else s.bytesCurrent != s.bytesTotal
    ensures Active(Transmit(s, self, true, now), image, ubea, |s.sent| + 1)
    ensures s.bytesTotal > 0 ==> Transmit(s, self, true, now).bytesCurrent > s.bytesCurrent
  {
    NextIsNth(s, image, ubea, self);
    NextId(|s.sent|);
  }

  lemma TransmitKeepsProgress(s: Tx, image: seq<word>, ubea: bool, self: nat, ok: bool, now: int)
    requires Inv(s) && self > 0 && |image| < 0x4000_0000
    requires Progress(s, image, ubea, self) && s.results == [] && Active(s, image, ubea, |s.sent|)
    requires if s.bytesTotal == 0 then s.sent == [] else s.bytesCurrent != s.bytesTotal
    ensures Progress(Transmit(s, self, ok, now), image, ubea, self)
    ensures s.bytesTotal > 0 && ok ==> Transmit(s, self, ok, now).bytesCurrent > s.bytesCurrent
  {
    if ok {
      NextIsNth(s, image, ubea, self);
      AppendNth(s.sent, NextPacket(s, self), image, ubea, self);
      TransmitKeepsActive(s, image, ubea, self, now);
    }
  }

  lemma FullySent(s: Tx, image: seq<word>, ubea: bool)
    requires Active(s, image, ubea, |s.sent|) && |s.sent| <= NumBlocks(|image|)
    requires 0 < s.bytesTotal == s.bytesCurrent
    ensures |s.sent| == NumBlocks(|image|)
  {
    NumBlocksBounds(|image|);
  }

  /** One reply: the run stays on track, and any packet it sends shortens what is left. */
  lemma ReplyKeepsProgress(s: Tx, image: seq<word>, ubea: bool, self: nat, entryIp: nat, e: ReplyEvent)
    requires Inv(s) && self > 0 && |image| < 0x4000_0000
    requires Progress(s, image, ubea, self)
    ensures var r := OnReply(s, entryIp, self, e.from, e.code, e.ok, e.now);
      && Progress(r, image, ubea, self)
      && (r.sent != s.sent ==> r.bytesTotal - r.bytesCurrent < s.bytesTotal - s.bytesCurrent)
  {
    if e.from == entryIp && s.bytesTotal != 0 {
      if s.bytesTotal == s.bytesCurrent {
        FullySent(s, image, ubea);
      } else {
        TransmitKeepsProgress(s, image, ubea, self, e.ok, e.now);
      }
    }
  }

  /** Under any replies in any order and number: the wire is a prefix of the image's packets in order. */
  lemma {:induction false} SenderUnderAnyReplies(
    image: seq<word>, ubea: bool, self: nat, entryIp: nat, last: int, ok: bool, now: int, es: seq<ReplyEvent>)
    requires self > 0 && |image| < 0x4000_0000
    ensures Progress(Run(Transmit(Start(entryIp, image, ubea, last), self, ok, now), entryIp, self, es), image, ubea, self)
  {
    var s := Start(entryIp, image, ubea, last);
    if es == [] {
      TransmitKeepsProgress(s, image, ubea, self, ok, now);
    } else {
      var before := es[..|es| - 1];
      SenderUnderAnyReplies(image, ubea, self, entryIp, last, ok, now, before);
      ReplyKeepsProgress(Run(Transmit(s, self, ok, now), entryIp, self, before), image, ubea, self, entryIp, es[|es| - 1]);
    }
  }

  /** The image words of the packets `sent`: all of each but for the padding of the last. */
  function Joined(sent: seq<Master>, words: nat): seq<word>
    requires WORDS * (|sent| - 1) <= words
  {
    if sent == [] then [] else
    var n := |sent| - 1;
    Joined(sent[..n], words) + sent[n].data[..Min(WORDS, words - WORDS * n)]
  }

  lemma PayloadIsPiece(image: seq<word>, k: nat)
    requires WORDS * k <= |image|
    ensures Payload(image, k)[..Min(WORDS, |image| - WORDS * k)] == image[WORDS * k..Min(WORDS * (k + 1), |image|)]
  {
  }

  /** So the payloads concatenate to a prefix of the image. */
  lemma {:induction false} SentIsPrefix(sent: seq<Master>, image: seq<word>, ubea: bool, self: nat)
    requires self > 0 && |image| < 0x4000_0000
    requires forall j :: 0 <= j < |sent| ==> IsNth(sent[j], image, ubea, self, j)
    ensures WORDS * (|sent| - 1) <= |image|
    ensures Joined(sent, |image|) == image[..Min(WORDS * |sent|, |image|)]
  {
    if sent != [] {
      var n := |sent| - 1;
      SentIsPrefix(sent[..n], image, ubea, self);
      assert IsNth(sent[n], image, ubea, self, n);
      PayloadIsPiece(image, n);
      assert image[..WORDS * n] + image[WORDS * n..Min(WORDS * (n + 1), |image|)] ==
        image[..Min(WORDS * (n + 1), |image|)];
    }
  }

  /** FIRST opens the transfer and appears nowhere else; LAST is only ever the final, shorter packet. */
  lemma SentKinds(s: Tx, image: seq<word>, ubea: bool, self: nat, j: nat)
    requires self > 0 && |image| < 0x4000_0000 && Progress(s, image, ubea, self) && j < |s.sent|
    ensures IsFirst(s.sent[j].kind) <==> j == 0
    ensures IsLast(s.sent[j].kind) <==> 0 < j == NumBlocks(|image|) - 1 && |image| % WORDS != 0
  {
    assert IsNth(s.sent[j], image, ubea, self, j);
    NumBlocksBounds(|image|);
  }
}
