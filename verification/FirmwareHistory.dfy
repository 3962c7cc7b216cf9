/** What the receiver guarantees over whole runs: whatever packets arrive, in whatever order. */
module FirmwareHistory {
  import opened Base
  import opened Artnet
  import opened Misc
  import opened FirmwarePacket
  import opened FirmwareReceiver

  datatype Event = Packet(p: Master, now: int, m: Malloc<word>) | Tick(now: int)

  const IDLE := Rx(0, [], 0, 0, false, 0, 0, [], [])

  function Step(s: Rx, e: Event): (r: Rx)
    requires Inv(s)
    ensures Inv(r)
  {
    match e
    case Packet(p, now, m) => OnPacket(s, p, now, m)
    case Tick(now) => OnTick(s, now)
  }

  /** The record after the events `h`, oldest first. */
  function RunFrom(s: Rx, h: seq<Event>): (r: Rx)
    requires Inv(s)
    ensures Inv(r)
  {
    if h == [] then s else Step(RunFrom(s, h[..|h| - 1]), h[|h| - 1])
  }

  function Run(h: seq<Event>): (r: Rx)
    ensures Inv(r)
  {
    RunFrom(IDLE, h)
  }

  /** The payload of the last packet that was accepted and resolved to block `b` since the transfer began. */
  function Source(h: seq<Event>, b: nat): Option<seq<word>> {
    if h == [] then None else
    var before, s := h[..|h| - 1], Run(h[..|h| - 1]);
    match h[|h| - 1]
    case Tick(_) => Source(before, b)
    case Packet(p, _, m) =>
      if AcceptsFirst(s, p, m) then (if b == 0 then Some(p.data) else None)
      else if AcceptsCont(s, p) && Block(s, p) == b then Some(p.data)
      else Source(before, b)
  }

  /** What the buffer's memory held at word `i` when the transfer began. */
  function Initial(h: seq<Event>, i: nat): word {
    if h == [] then 0 else
    var before := h[..|h| - 1];
    match h[|h| - 1]
    case Tick(_) => Initial(before, i)
    case Packet(p, _, m) => if AcceptsFirst(Run(before), p, m) then m.memory(i) else Initial(before, i)
  }

  function Expected(h: seq<Event>, i: nat): word
    requires Source(h, i / WORDS).Some? ==> |Source(h, i / WORDS).value| == WORDS
  {
    match Source(h, i / WORDS)
    case Some(payload) => payload[i % WORDS]
    case None => Initial(h, i)
  }

  lemma {:induction false} SourceIsBlock(h: seq<Event>, b: nat)
    ensures Source(h, b).Some? ==> |Source(h, b).value| == WORDS
  {
    if h != [] {
      SourceIsBlock(h[..|h| - 1], b);
    }
  }

  lemma FirstAt(s: Rx, p: Master, now: int, m: Malloc<word>, i: nat)
    requires Inv(s) && AcceptsFirst(s, p, m) && i < |First(s, p, now, m).data|
    ensures First(s, p, now, m).data[i] == if i / WORDS == 0 then p.data[i] else m.memory(i)
  {
  }

  lemma ContAt(s: Rx, p: Master, i: nat)
    requires Inv(s) && AcceptsCont(s, p) && i < |s.data|
    ensures Cont(s, p).data[i] == if i / WORDS == Block(s, p) then p.data[i % WORDS] else s.data[i]
  {
    AcceptedBlockFits(s, p);
    assert i == WORDS * (i / WORDS) + i % WORDS;
  }

  lemma ContKeepsLength(s: Rx, p: Master)
    requires Inv(s) && AcceptsCont(s, p)
    ensures |Cont(s, p).data| == |s.data|
  {
    AcceptedBlockFits(s, p);
  }

  /** Under loss, duplication, reordering and foreign packets, each word of the buffer is the one the last
      accepted packet for its block carried, or was never written. */
  lemma {:induction false} BufferHoldsLastAccepted(h: seq<Event>, i: nat)
    requires i < |Run(h).data|
    ensures Source(h, i / WORDS).Some? ==> |Source(h, i / WORDS).value| == WORDS
    ensures Run(h).data[i] == Expected(h, i)
  {
    hide First, Cont, Completed, Block;
    SourceIsBlock(h, i / WORDS);
    if h != [] {
      var before, s := h[..|h| - 1], Run(h[..|h| - 1]);
      match h[|h| - 1]
      case Tick(_) =>
        BufferHoldsLastAccepted(before, i);
      case Packet(p, now, m) =>
        if AcceptsFirst(s, p, m) {
          FirstAt(s, p, now, m, i);
        } else {
          if AcceptsCont(s, p) {
            ContKeepsLength(s, p);
            ContAt(s, p, i);
          }
          BufferHoldsLastAccepted(before, i);
        }
    }
  }

  lemma CompletedAt(s: Rx, p: Master, i: nat)
    requires Inv(s) && AcceptsLast(s, p) && i < |s.data|
    ensures Completed(s, p)[i] == if i / WORDS == Block(s, p) then p.data[i % WORDS] else s.data[i]
  {
    AcceptedBlockFits(s, p);
    assert i == WORDS * (i / WORDS) + i % WORDS;
  }

  /** The buffer handed to the callback: the tail from LAST, every other block from its last accepted packet. */
  lemma DeliveredBuffer(h: seq<Event>, p: Master, i: nat)
    requires AcceptsLast(Run(h), p) && i < |Run(h).data|
    ensures Source(h, i / WORDS).Some? ==> |Source(h, i / WORDS).value| == WORDS
    ensures Last(Run(h), p).uploads ==
      Run(h).uploads + [Upload(Run(h).ubea, Completed(Run(h), p), |Run(h).data|)]
    ensures Completed(Run(h), p)[i] == if i / WORDS == Block(Run(h), p) then p.data[i % WORDS] else Expected(h, i)
  {
    hide Completed, Run, Source, Initial;
    CompletedAt(Run(h), p, i);
    BufferHoldsLastAccepted(h, i);
  }

  /** What the last accepted packet for full block `b` carried, or what the memory held if there was none, is that part
      of the image. */
  predicate BlockRight(h: seq<Event>, image: seq<word>, b: nat)
    requires WORDS * b + WORDS <= |image|
  {
    match Source(h, b)
    case Some(payload) => payload == image[WORDS * b..WORDS * b + WORDS]
    case None => forall i :: WORDS * b <= i < WORDS * b + WORDS ==> Initial(h, i) == image[i]
  }

  predicate SameBlock(a: seq<word>, b: seq<word>, k: nat)
    requires |a| == |b| && WORDS * k + WORDS <= |b|
  {
    forall i :: WORDS * k <= i < WORDS * k + WORDS ==> a[i] == b[i]
  }

  lemma BlockRightIff(h: seq<Event>, image: seq<word>, b: nat)
    requires |Run(h).data| == |image| && WORDS * b + WORDS <= |image|
    ensures BlockRight(h, image, b) <==> SameBlock(Run(h).data, image, b)
  {
    hide Run, Source, Initial;
    SourceIsBlock(h, b);
    forall i | WORDS * b <= i < WORDS * b + WORDS
      ensures i / WORDS == b
      ensures Run(h).data[i] ==
        match Source(h, b) case Some(payload) => payload[i - WORDS * b] case None => Initial(h, i)
    {
      BufferHoldsLastAccepted(h, i);
    }
    if Source(h, b).Some? {
      var payload, piece := Source(h, b).value, image[WORDS * b..WORDS * b + WORDS];
      if SameBlock(Run(h).data, image, b) {
        forall k | 0 <= k < WORDS
          ensures payload[k] == piece[k]
        {
          assert Run(h).data[WORDS * b + k] == image[WORDS * b + k];
        }
      }
    }
  }

  /** Over any run, a LAST delivers exactly the image if and only if its own words are the image's tail and every block
      before it is right. */
  lemma DeliveredIsImageIff(h: seq<Event>, p: Master, image: seq<word>)
    requires AcceptsLast(Run(h), p) && |Run(h).data| == |image|
    ensures var last := Block(Run(h), p);
      && WORDS * last <= |image| < WORDS * last + WORDS
      && (Completed(Run(h), p) == image <==>
           && p.data[..|image| - WORDS * last] == image[WORDS * last..]
           && forall b :: 0 <= b < last ==> BlockRight(h, image, b))
  {
    hide Run, BlockRight;
    var s := Run(h);
    LastIsTail(s, p, image);
    var last := Block(s, p);
    var whole := Completed(s, p);
    forall b | 0 <= b < last
      ensures BlockRight(h, image, b) <==> SameBlock(whole, image, b)
    {
      BlockRightIff(h, image, b);
      assert forall i :: WORDS * b <= i < WORDS * b + WORDS ==> whole[..WORDS * last][i] == s.data[..WORDS * last][i];
    }
    WholeIff(whole, image, last);
  }

  lemma LastIsTail(s: Rx, p: Master, image: seq<word>)
    requires Inv(s) && AcceptsLast(s, p) && |s.data| == |image|
    ensures var last := Block(s, p);
      && WORDS * last <= |image| < WORDS * last + WORDS
      && Completed(s, p)[..WORDS * last] == s.data[..WORDS * last]
      && Completed(s, p)[WORDS * last..] == p.data[..|image| - WORDS * last]
  {
    AcceptedBlockFits(s, p);
  }

  /** Two buffers agree exactly if they agree block by block and in the tail. */
  lemma WholeIff(a: seq<word>, b: seq<word>, last: nat)
    requires |a| == |b| && WORDS * last <= |b| < WORDS * last + WORDS
    ensures a == b <==>
      && a[WORDS * last..] == b[WORDS * last..]
      && forall k :: 0 <= k < last ==> SameBlock(a, b, k)
  {
    if a[WORDS * last..] == b[WORDS * last..] && forall k :: 0 <= k < last ==> SameBlock(a, b, k) {
      forall i | 0 <= i < |a|
        ensures a[i] == b[i]
      {
        if i < WORDS * last {
          assert SameBlock(a, b, i / WORDS);
        } else {
          assert a[i] == a[WORDS * last..][i - WORDS * last];
        }
      }
    }
  }

  function Count(replies: seq<Reply>, code: byte): nat {
    if replies == [] then 0
    else Count(replies[..|replies| - 1], code) + if replies[|replies| - 1].code == code then 1 else 0
  }

  lemma AnswerCounts(s: Rx, to: nat, code: byte)
    ensures Count(Answer(s, to, code).replies, ALLGOOD) == Count(s.replies, ALLGOOD) + if code == ALLGOOD then 1 else 0
  {
    var r := s.replies + [Reply(to, code)];
    assert r[..|r| - 1] == s.replies;
  }

  lemma StepKeepsCount(s: Rx, e: Event)
    requires Inv(s)
    ensures |Step(s, e).uploads| - |s.uploads| == Count(Step(s, e).replies, ALLGOOD) - Count(s.replies, ALLGOOD)
  {
    hide Count, Memory, Block, Completed;
    match e
    case Tick(_) =>
    case Packet(p, _, _) =>
      AnswerCounts(s, p.from, FAIL);
      AnswerCounts(s, p.from, ALLGOOD);
      AnswerCounts(s, p.from, BLOCKGOOD);
  }

  /** The callback fires exactly as often as ALLGOOD is answered. */
  lemma {:induction false} OneCallbackPerAllGood(h: seq<Event>)
    ensures |Run(h).uploads| == Count(Run(h).replies, ALLGOOD)
  {
    if h != [] {
      OneCallbackPerAllGood(h[..|h| - 1]);
      StepKeepsCount(Run(h[..|h| - 1]), h[|h| - 1]);
    }
  }

  function Rejections(ps: seq<Event>): seq<Reply>
    requires forall e <- ps :: e.Packet?
  {
    if ps == [] then [] else Rejections(ps[..|ps| - 1]) + [Reply(ps[|ps| - 1].p.from, FAIL)]
  }

  /** Packets from other peers leave a transfer in progress unchanged; each is answered FAIL. */
  lemma {:induction false} ForeignPacketsIgnored(s: Rx, ps: seq<Event>)
    requires Inv(s) && s.peer != 0
    requires forall e <- ps :: e.Packet? && e.p.from != s.peer
    ensures RunFrom(s, ps) == s.(replies := s.replies + Rejections(ps))
  {
    if ps != [] {
      var before, e := ps[..|ps| - 1], ps[|ps| - 1];
      ForeignPacketsIgnored(s, before);
      assert e in ps;
      assert s.replies + (Rejections(before) + [Reply(e.p.from, FAIL)]) ==
        (s.replies + Rejections(before)) + [Reply(e.p.from, FAIL)];
    } else {
      assert s.replies + Rejections(ps) == s.replies;
    }
  }

  /** When the transfer in progress began: only an accepted FIRST sets the clock. */
  function StartTime(h: seq<Event>): int {
    if h == [] then 0 else
    var before := h[..|h| - 1];
    match h[|h| - 1]
    case Tick(_) => StartTime(before)
    case Packet(p, now, m) =>
      if AcceptsFirst(Run(before), p, m) then now
      else if IsFirst(p.kind) && Run(before).peer == 0 then 0
      else StartTime(before)
  }

  lemma {:induction false} ClockRunsFromFirst(h: seq<Event>)
    ensures if Run(h).peer == 0 then Run(h).lastTime == 0 else Run(h).lastTime == StartTime(h)
  {
    if h != [] {
      ClockRunsFromFirst(h[..|h| - 1]);
    }
  }

  /** The timeout covers the whole transfer: no packet after FIRST extends it. */
  lemma TimeoutCoversTransfer(h: seq<Event>, now: int)
    ensures Run(h + [Tick(now)]).peer != 0 <==> Run(h).peer != 0 && now - StartTime(h) < TIMEOUT
  {
    ClockRunsFromFirst(h);
    assert (h + [Tick(now)])[..|h|] == h;
  }
}
