/** Packet by packet, what the receiver of a firmware transfer takes and what it refuses, with the numbers of the protocol
    written out. */
module FirmwareRejections {
  import opened Base
  import opened Artnet
  import opened Misc
  import opened FirmwarePacket
  import opened FirmwareReceiver
  import opened FirmwareBlocks
  import opened FirmwareHistory

  /** The record with a FAIL sent back and nothing else changed. */
  function Refused(s: Rx, p: Master): Rx {
    s.(replies := s.replies + [Reply(p.from, 0xff)])
  }

  /** A busy receiver refuses every FIRST, its own peer's included. */
  lemma BusyRefusesFirst(s: Rx, p: Master, now: int, m: Malloc<word>)
    requires Inv(s) && s.peer != 0 && p.kind in {0, 3}
    ensures OnPacket(s, p, now, m) == Refused(s, p)
  {
  }

  /** A FIRST to an idle receiver claims it: without memory for nothing, and silently; with memory for a transfer. */
  lemma IdleTakesFirst(s: Rx, p: Master, now: int, m: Malloc<word>)
    requires Inv(s) && s.peer == 0 && p.kind in {0, 3}
    ensures var r := OnPacket(s, p, now, m);
      if Length(p) < 0 || !m.ok then r == s.(peer := p.from)
      else
        && r.peer == p.from && r.bytesTotal == Length(p) && r.lastTime == now && r.expectedBlock == 1
        && r.ubea == (p.kind == 3) && r.replies == s.replies + [Reply(p.from, if Length(p) <= 1024 then 1 else 0)]
        && r.bytesCurrent == (if Length(p) <= 1024 then Length(p) else 1024) && |r.data| == Length(p) / 2
        && r.uploads == s.uploads + (if Length(p) <= 1024 then [Upload(p.kind == 3, r.data, Length(p))] else [])
        && forall i :: 0 <= i < |r.data| ==> r.data[i] == if i < 512 then p.data[i] else m.memory(i)
  {
  }

  /** The block an id stands for: the one expected if the id is its low byte, else the id itself. */
  lemma BlockIs(s: Rx, p: Master)
    ensures Block(s, p) % 0x100 == p.blockId as int
    ensures Block(s, p) == if s.expectedBlock % 0x100 == p.blockId as int then s.expectedBlock else p.blockId
  {
  }

  /** A CONT is stored exactly if it comes from the peer, with the length of the transfer, for a block that ends before
      the last byte of the last whole block or on it, whatever block was expected; otherwise it is refused. */
  lemma ContIsStoredIff(s: Rx, p: Master, now: int, m: Malloc<word>)
    requires Inv(s) && p.kind in {1, 4}
    ensures var r := OnPacket(s, p, now, m);
      if p.from == s.peer && Length(p) == s.bytesTotal && 1024 * (Block(s, p) + 1) <= s.bytesTotal then
        && r == s.(data := r.data, bytesCurrent := s.bytesCurrent + 1024, expectedBlock := s.expectedBlock + 1,
                   replies := s.replies + [Reply(p.from, 0)])
        && |r.data| == |s.data|
        && forall i :: 0 <= i < |s.data| ==>
             r.data[i] == if i / 512 == Block(s, p) then p.data[i % 512] else s.data[i]
      else r == Refused(s, p)
  {
    FitsIff(s.bytesTotal, Block(s, p));
    if AcceptsCont(s, p) {
      AcceptedBlockFits(s, p);
      forall i | 0 <= i < |s.data|
        ensures Cont(s, p).data[i] == if i / 512 == Block(s, p) then p.data[i % 512] else s.data[i]
      {
        ContAt(s, p, i);
      }
    }
  }

  lemma FitsIff(total: int, block: nat)
    requires total >= 0
    ensures block < TotalBlocks(total) - 1 <==> 1024 * (block + 1) <= total
    ensures block == TotalBlocks(total) - 1 <==> 1024 * block <= total < 1024 * (block + 1)
  {
  }

  /** A LAST ends the transfer exactly if it comes from the peer, with the length of the transfer, for the block the
      transfer ends in; otherwise it is refused. */
  lemma LastEndsIff(s: Rx, p: Master, now: int, m: Malloc<word>)
    requires Inv(s) && p.kind in {2, 5}
    ensures var r := OnPacket(s, p, now, m);
      if p.from == s.peer && Length(p) == s.bytesTotal && 1024 * Block(s, p) <= s.bytesTotal < 1024 * (Block(s, p) + 1)
      then
        && r == Rx(0, [], 0, 0, false, 0, s.expectedBlock, r.uploads, s.replies + [Reply(p.from, 1)])
        && |r.uploads| == |s.uploads| + 1 && r.uploads[..|s.uploads|] == s.uploads
        && var u := r.uploads[|s.uploads|];
        && u.ubea == s.ubea && u.length == |u.data| == |s.data|
        && forall i :: 0 <= i < |s.data| ==>
             u.data[i] == if i / 512 == Block(s, p) then p.data[i % 512] else s.data[i]
      else r == Refused(s, p)
  {
    FitsIff(s.bytesTotal, Block(s, p));
    if AcceptsLast(s, p) {
      forall i | 0 <= i < |s.data|
        ensures Completed(s, p)[i] == if i / 512 == Block(s, p) then p.data[i % 512] else s.data[i]
      {
        CompletedAt(s, p, i);
      }
    }
  }

  /** There are no other kinds of packet. */
  lemma UnknownKindRefused(s: Rx, p: Master, now: int, m: Malloc<word>)
    requires Inv(s) && p.kind > 5
    ensures OnPacket(s, p, now, m) == Refused(s, p)
  {
  }

  /** A check of the timeout drops the transfer from the twentieth second on. */
  lemma TickIs(s: Rx, now: int)
    requires Inv(s)
    ensures OnTick(s, now) ==
      if s.peer == 0 || now - s.lastTime < 20 then s
      else Rx(0, [], 0, 0, false, 0, s.expectedBlock, s.uploads, s.replies)
  {
  }

  // Over whole runs.

  function Silent(s: Rx): Rx {
    s.(replies := [])
  }

  /** What a node does never depends on what it has answered before. */
  lemma AnswersDoNotMatter(s: Rx, q: Rx, e: Event)
    requires Inv(s) && Inv(q) && Silent(s) == Silent(q)
    ensures Silent(Step(s, e)) == Silent(Step(q, e))
  {
    hide Memory, Length, TotalBlocks, Splice;
    assert q == s.(replies := q.replies);
  }

  /** The events of a run without every FIRST that found the receiver busy. */
  function WithoutLateFirsts(h: seq<Event>): seq<Event> {
    if h == [] then [] else
    var before, e := h[..|h| - 1], h[|h| - 1];
    if e.Packet? && e.p.kind in {0, 3} && Run(before).peer != 0 then WithoutLateFirsts(before)
    else WithoutLateFirsts(before) + [e]
  }

  /** Between the FIRST that was taken and the reset, by LAST or by a timeout, a FIRST changes nothing: not the buffer, the
      size, the clock, the callbacks, nor anything that happens later. Only its FAIL is sent. */
  lemma {:induction false} LateFirstsChangeNothing(h: seq<Event>)
    ensures Silent(Run(h)) == Silent(Run(WithoutLateFirsts(h)))
  {
    if h != [] {
      hide Step, Silent, OnPacket;
      var before, e := h[..|h| - 1], h[|h| - 1];
      LateFirstsChangeNothing(before);
      if e.Packet? && e.p.kind in {0, 3} && Run(before).peer != 0 {
        BusyRefusesFirst(Run(before), e.p, e.now, e.m);
        RefusedIsSilent(Run(before), e);
      } else {
        var rest := WithoutLateFirsts(before);
        assert (rest + [e])[..|rest|] == rest;
        AnswersDoNotMatter(Run(before), Run(rest), e);
      }
    }
  }

  lemma RefusedIsSilent(s: Rx, e: Event)
    requires Inv(s) && e.Packet? && OnPacket(s, e.p, e.now, e.m) == Refused(s, e.p)
    ensures Silent(Step(s, e)) == Silent(s)
  {
  }

  lemma RunMore(h: seq<Event>, e: Event)
    ensures Run([]) == IDLE && Run(h + [e]) == Step(Run(h), e)
  {
    assert (h + [e])[..|h|] == h;
  }

  /** The second of two one-packet uploads within 20 s, even from the same host, is refused: there is one callback. */
  lemma SecondUploadRefused(first: seq<word>, second: seq<word>, ubea: bool, from: nat, now: int, later: int,
                            m: Malloc<word>, m2: Malloc<word>)
    requires 0 < |first| <= 512 && 0 < |second| <= 512 && from > 0 && m.ok && now <= later < now + 20
    ensures var h := [Packet(NthPacket(first, ubea, from, 0, 0), now, m), Tick(later),
                      Packet(NthPacket(second, ubea, from, 0, 0), later, m2)];
      && Run(h).uploads == [Upload(ubea, first, 2 * |first|)]
      && Run(h).replies == [Reply(from, 1), Reply(from, 0xff)]
  {
    hide Memory, Payload, Length;
    var p, q := NthPacket(first, ubea, from, 0, 0), NthPacket(second, ubea, from, 0, 0);
    var e1, e2, e3 := Packet(p, now, m), Tick(later), Packet(q, later, m2);
    var h := [e1, e2, e3];
    RunMore([], e1);
    RunMore([e1], e2);
    RunMore([e1, e2], e3);
    assert [] + [e1] == [e1] && [e1] + [e2] == [e1, e2] && [e1, e2] + [e3] == h;
    hide OnPacket, Run;
    var s1 := OnPacket(IDLE, p, now, m);
    FirstCompletes(IDLE, first, ubea, from, now, m);
    BusyRefusesFirst(s1, q, later, m2);
  }
}
