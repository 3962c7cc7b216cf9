/** Reply by reply and packet by packet, what the sender of a firmware transfer does, with the numbers of the protocol
    written out. */
module FirmwareReplies {
  import opened Base
  import opened Artnet
  import opened Misc
  import opened FirmwarePacket
  import opened FirmwareSender

  /** A reply from any host but the one the transfer goes to changes nothing. */
  lemma ForeignReply(s: Tx, entryIp: nat, self: nat, from: nat, code: byte, ok: bool, now: int)
    requires Inv(s) && self > 0 && from != entryIp
    ensures OnReply(s, entryIp, self, from, code, ok, now) == s
  {
  }

  /** ... and so does any reply when no transfer is running. */
  lemma NoTransfer(s: Tx, entryIp: nat, self: nat, from: nat, code: byte, ok: bool, now: int)
    requires Inv(s) && self > 0 && s.bytesTotal == 0
    ensures OnReply(s, entryIp, self, from, code, ok, now) == s
  {
  }

  /** The record as `memset` leaves it, after a callback with `code`. */
  function Ended(s: Tx, code: byte): Tx {
    Tx([], 0, 0, 0, false, 0, 0, s.sent, s.results + [code])
  }

  /** ALLGOOD ends the transfer if everything has been sent and is ignored before that; FAIL ends it at any time; any
      other code but BLOCKGOOD is ignored. */
  lemma EndingReplies(s: Tx, entryIp: nat, self: nat, code: byte, ok: bool, now: int)
    requires Inv(s) && self > 0 && s.bytesTotal > 0 && code != 0
    ensures OnReply(s, entryIp, self, entryIp, code, ok, now) ==
      if code == 1 then (if s.bytesCurrent == s.bytesTotal then Ended(s, 1) else s)
      else if code == 0xff then Ended(s, 0xff)
      else s
  {
  }

  /** BLOCKGOOD sends the next packet if there is one, and is ignored otherwise; a send that fails changes nothing. */
  lemma BlockGoodSendsNext(s: Tx, entryIp: nat, self: nat, ok: bool, now: int)
    requires Inv(s) && self > 0 && s.bytesTotal > 0
    ensures var r := OnReply(s, entryIp, self, entryIp, 0, ok, now);
      if s.bytesCurrent == s.bytesTotal || !ok then r == s
      else
        && r == s.(bytesCurrent := r.bytesCurrent, lastTime := now, expectedBlock := r.expectedBlock, sent := r.sent)
        && r.bytesCurrent == (if s.bytesTotal < s.bytesCurrent + 1024 then s.bytesTotal else s.bytesCurrent + 1024)
        && |r.sent| == |s.sent| + 1 && r.sent[..|s.sent|] == s.sent
  {
  }

  /** The replies of a sequence that come from the host the transfer goes to. */
  function Own(es: seq<ReplyEvent>, entryIp: nat): seq<ReplyEvent> {
    if es == [] then [] else
    Own(es[..|es| - 1], entryIp) + if es[|es| - 1].from == entryIp then [es[|es| - 1]] else []
  }

  /** Replies from other hosts make no difference to any run: taking them out leaves the same record, wire and callbacks. */
  lemma {:induction false} ForeignRepliesChangeNothing(s: Tx, entryIp: nat, self: nat, es: seq<ReplyEvent>)
    requires Inv(s) && self > 0
    ensures Run(s, entryIp, self, es) == Run(s, entryIp, self, Own(es, entryIp))
  {
    hide OnReply;
    if es != [] {
      var before, e := es[..|es| - 1], es[|es| - 1];
      ForeignRepliesChangeNothing(s, entryIp, self, before);
      if e.from == entryIp {
        var own := Own(before, entryIp);
        assert (own + [e])[..|own|] == own;
      } else {
        ForeignReply(Run(s, entryIp, self, before), entryIp, self, e.from, e.code, e.ok, e.now);
        assert Own(before, entryIp) + [] == Own(before, entryIp);
      }
    }
  }

  /** Every field of every packet that any run puts on the wire: the kind by its place and by what is uploaded, the id
      counted modulo 255, the length in words, and the block's words followed by zeros. */
  lemma SentPackets(s: Tx, image: seq<word>, ubea: bool, self: nat, j: nat)
    requires self > 0 && |image| < 0x4000_0000 && Progress(s, image, ubea, self) && j < |s.sent|
    ensures var p := s.sent[j];
      && p.from == self && p.blockId as int == j % 255 && NBytesTo32(p.length) == |image|
      && p.kind == (if ubea then 3 else 0) + (if j == 0 then 0 else if 512 * (j + 1) <= |image| then 1 else 2)
      && forall i :: 0 <= i < 512 ==> p.data[i] == if 512 * j + i < |image| then image[512 * j + i] else 0
  {
    assert IsNth(s.sent[j], image, ubea, self, j);
    DecodeEncode(|image|);
  }

  /** The record `artnet_send_firmware` starts with. */
  lemma StartIs(entryIp: nat, image: seq<word>, ubea: bool, lastTime: int)
    requires |image| < 0x4000_0000
    ensures var s := Start(entryIp, image, ubea, lastTime);
      && s.data == image && s.bytesCurrent == 0 && s.bytesTotal == 2 * |image| && s.peer == entryIp && s.ubea == ubea
      && s.expectedBlock == 0 && s.sent == [] && s.results == []
  {
  }
}
