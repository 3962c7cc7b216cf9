/** Sender and receiver joined by a lossless in-order link: the whole firmware transfer. */
module FirmwareTransfer {
  import opened Base
  import opened Artnet
  import opened Misc
  import opened FirmwarePacket
  import R = FirmwareReceiver
  import S = FirmwareSender
  import B = FirmwareBlocks

  /** One transfer: what is sent, between which addresses, and what the receiver's `malloc` returns. */
  datatype Transfer = Transfer(image: seq<word>, ubea: bool, sender: nat, receiver: nat, m: Malloc<word>)
  {
    predicate Valid() {
      sender > 0 && 0 < |image| < 0x4000_0000 && m.ok
    }

    function Blocks(): nat {
      NumBlocks(|image|)
    }

    function Nth(k: nat): Master
      requires Valid() && WORDS * k <= |image|
    {
      NthPacket(image, ubea, sender, k, k % 0xff)
    }
  }

  /** `toRx` and `toTx` hold what is in flight, oldest first. */
  datatype Sys = Sys(rx: R.Rx, tx: S.Tx, toRx: seq<Master>, toTx: seq<byte>)

  /** Besides the two kinds of delivery: packets from other hosts, and idle timeout checks. */
  datatype Event =
    | DeliverMaster(now: int)
    | DeliverReply(now: int)
    | Noise(p: Master, now: int, m: Malloc<word>)
    | Tick(now: int)

  predicate Inv(s: Sys) {
    R.Inv(s.rx) && S.Inv(s.tx)
  }

  function Begin(t: Transfer, rx: R.Rx, last: int, now: int): (s: Sys)
    requires t.Valid() && R.Inv(rx)
    ensures Inv(s)
  {
    var tx := S.Transmit(S.Start(t.receiver, t.image, t.ubea, last), t.sender, true, now);
    Sys(rx, tx, tx.sent, [])
  }

  /** What may happen next, at any time: deliveries of what is in flight; any packet from another host, except a FIRST
      that finds the receiver idle (and would claim it). */
  predicate Possible(t: Transfer, s: Sys, e: Event)
    requires Inv(s)
  {
    match e
    case DeliverMaster(_) => s.toRx != []
    case DeliverReply(_) => s.toTx != []
    case Noise(p, now, _) => p.from != t.sender && (R.OnTick(s.rx, now).peer == 0 ==> !IsFirst(p.kind))
    case Tick(_) => true
  }

  /** ... within 20 s of the FIRST that was accepted. */
  predicate Enabled(t: Transfer, s: Sys, e: Event)
    requires Inv(s)
  {
    Possible(t, s, e) && InTime(s.rx, e.now)
  }

  /** The time is within the receiver's timeout. */
  predicate InTime(rx: R.Rx, now: int) {
    rx.peer != 0 ==> now - rx.lastTime < R.TIMEOUT
  }

  function NewCodes(before: seq<Reply>, after: seq<Reply>): seq<byte> {
    if |after| > |before| then [after[|after| - 1].code] else []
  }

  function Step(t: Transfer, s: Sys, e: Event): (r: Sys)
    requires t.Valid() && Inv(s) && Possible(t, s, e)
    ensures Inv(r)
  {
    match e
    case DeliverMaster(now) =>
      var rx := R.OnPacket(R.OnTick(s.rx, now), s.toRx[0], now, t.m);
      s.(rx := rx, toRx := s.toRx[1..], toTx := s.toTx + NewCodes(s.rx.replies, rx.replies))
    case DeliverReply(now) =>
      var tx := S.OnReply(s.tx, t.receiver, t.sender, t.receiver, s.toTx[0], true, now);
      s.(tx := tx, toTx := s.toTx[1..],
         toRx := if |tx.sent| > |s.tx.sent| then s.toRx + tx.sent[|s.tx.sent|..] else s.toRx)
    case Noise(p, now, m) => s.(rx := R.OnPacket(R.OnTick(s.rx, now), p, now, m))
    case Tick(now) => s.(rx := R.OnTick(s.rx, now))
  }

  predicate CanRun(t: Transfer, s: Sys, h: seq<Event>)
    requires t.Valid() && Inv(s)
    decreases |h|
  {
    h == [] || (Enabled(t, s, h[0]) && CanRun(t, Step(t, s, h[0]), h[1..]))
  }

  function Run(t: Transfer, s: Sys, h: seq<Event>): (r: Sys)
    requires t.Valid() && Inv(s) && CanRun(t, s, h)
    ensures Inv(r)
    decreases |h|
  {
    if h == [] then s else Run(t, Step(t, s, h[0]), h[1..])
  }

  function Weight(e: Event): nat {
    if e.DeliverMaster? || e.DeliverReply? then 1 else 0
  }

  function Deliveries(h: seq<Event>): nat {
    if h == [] then 0 else Weight(h[0]) + Deliveries(h[1..])
  }

  // The phases of a transfer.

  predicate Aligned(k: nat) {
    k % 0xff00 < 0xff
  }

  /** The answer to packet `k - 1`. */
  function Verdict(t: Transfer, k: nat): byte {
    if t.Blocks() == 1 then ALLGOOD
    else if WORDS * k <= |t.image| then BLOCKGOOD
    else if Aligned(k - 1) then ALLGOOD
    else FAIL
  }

  const PROBE := WORDS * 0xff // first word of block 255, the first one no id of the sender ever names

  /** What can be said of a buffer in which `k` blocks have been stored under the sender's ids. */
  predicate Buffer(t: Transfer, data: seq<word>, k: nat) {
    && |data| == |t.image|
    && (k <= 0xff ==> forall i :: 0 <= i < WORDS * k && i < |data| ==> data[i] == t.image[i])
    && (PROBE < |data| ==> data[PROBE] == t.m.memory(PROBE))
  }

  /** The receiver after `k` of the transfer's packets; `before` are the callbacks made earlier. */
  predicate RxAfter(t: Transfer, rx: R.Rx, before: seq<R.Upload>, k: nat)
    requires t.Valid()
  {
    if k == 0 then rx.peer == 0 && rx.uploads == before
    else if t.Blocks() == 1 then
      rx.peer == t.sender && rx.uploads == before + [R.Upload(t.ubea, t.image, 2 * |t.image|)]
    else if WORDS * k <= |t.image| then
      B.Busy(rx, t.image, t.ubea, t.sender, k) && Buffer(t, rx.data, k) && rx.uploads == before
    else if Aligned(k - 1) then
      && rx.peer == 0 && |rx.uploads| == |before| + 1
      && rx.uploads == before + [R.Upload(t.ubea, rx.uploads[|before|].data, |t.image|)]
      && Buffer(t, rx.uploads[|before|].data, k)
    else
      rx.peer == t.sender && rx.uploads == before
  }

  /** The sender's record with `n` packets sent and no callback made yet. */
  predicate TxAfter(t: Transfer, tx: S.Tx, n: nat)
    requires t.Valid()
  {
    S.Progress(tx, t.image, t.ubea, t.sender) && |tx.sent| == n && tx.bytesTotal != 0 && tx.results == []
  }

  /** How the sender ends. */
  predicate TxDone(t: Transfer, tx: S.Tx)
    requires t.Valid()
  {
    var verdict := Verdict(t, t.Blocks());
    if verdict == BLOCKGOOD then TxAfter(t, tx, t.Blocks())
    else tx.results == [verdict] && tx == S.Cleared(tx) && |tx.sent| == t.Blocks()
  }

  /** The state after `j` deliveries: packets and replies alternate. */
  predicate Phase(t: Transfer, before: seq<R.Upload>, s: Sys, j: nat)
    requires t.Valid()
  {
    && Inv(s) && j <= 2 * t.Blocks()
    && RxAfter(t, s.rx, before, (j + 1) / 2)
    && if j == 2 * t.Blocks() then s.toRx == [] && s.toTx == [] && TxDone(t, s.tx)
       else if j % 2 == 0 then
         && WORDS * (j / 2) <= |t.image|
         && s.toRx == [t.Nth(j / 2)] && s.toTx == [] && TxAfter(t, s.tx, j / 2 + 1)
       else s.toRx == [] && s.toTx == [Verdict(t, (j + 1) / 2)] && TxAfter(t, s.tx, (j + 1) / 2)
  }

  lemma BeginPhase(t: Transfer, rx: R.Rx, last: int, now: int)
    requires t.Valid() && R.Inv(rx) && rx.peer == 0
    ensures Phase(t, rx.uploads, Begin(t, rx, last, now), 0)
  {
    var s := S.Start(t.receiver, t.image, t.ubea, last);
    S.TransmitKeepsProgress(s, t.image, t.ubea, t.sender, true, now);
    var tx := Begin(t, rx, last, now).tx;
    assert S.IsNth(tx.sent[0], t.image, t.ubea, t.sender, 0);
    assert tx.sent == [t.Nth(0)];
  }

  /** A packet from another host changes nothing but the replies. */
  lemma ForeignPacket(rx: R.Rx, sender: nat, p: Master, now: int, m: Malloc<word>)
    requires R.Inv(rx) && rx.peer in {0, sender} && p.from != sender
    requires rx.peer == 0 ==> !IsFirst(p.kind)
    requires rx.peer != 0 ==> now - rx.lastTime < R.TIMEOUT
    ensures R.OnPacket(R.OnTick(rx, now), p, now, m) == R.Answer(rx, p.from, FAIL)
  {
  }

  lemma NoiseKeepsPhase(t: Transfer, before: seq<R.Upload>, s: Sys, j: nat, e: Event)
    requires t.Valid() && Phase(t, before, s, j) && Enabled(t, s, e) && (e.Noise? || e.Tick?)
    ensures Phase(t, before, Step(t, s, e), j)
  {
    if e.Noise? {
      ForeignPacket(s.rx, t.sender, e.p, e.now, e.m);
    }
  }

  lemma LastBlock(t: Transfer, k: nat)
    requires t.Valid() && k < t.Blocks() && t.Blocks() > 1
    ensures WORDS * k < |t.image|
    ensures k + 1 < t.Blocks() ==> WORDS * (k + 1) < |t.image|
    ensures k + 1 == t.Blocks() ==> |t.image| <= WORDS * (k + 1)
  {
    S.NumBlocksBounds(|t.image|);
  }

  lemma BufferGrows(t: Transfer, rx: R.Rx, k: nat, r: R.Rx)
    requires t.Valid() && 0 < k && WORDS * (k + 1) <= |t.image| && Buffer(t, rx.data, k)
    requires WORDS * R.Resolve(k, k % 0xff) + WORDS <= |rx.data|
    requires r.data == Splice(rx.data, WORDS * R.Resolve(k, k % 0xff), Payload(t.image, k))
    ensures Buffer(t, r.data, k + 1)
  {
    B.Modulo255Resolves(k);
    if k + 1 <= 0xff {
      B.ContExtendsPrefix(rx, t.image, k, r);
    }
  }

  lemma MasterCont(t: Transfer, before: seq<R.Upload>, rx: R.Rx, k: nat, now: int)
    requires t.Valid() && R.Inv(rx) && 0 < k < t.Blocks() && WORDS * (k + 1) <= |t.image|
    requires RxAfter(t, rx, before, k) && now - rx.lastTime < R.TIMEOUT
    ensures var r := R.OnPacket(rx, t.Nth(k), now, t.m);
      RxAfter(t, r, before, k + 1) && r.replies == rx.replies + [Reply(t.sender, BLOCKGOOD)]
  {
    hide R.OnPacket, B.Busy, NthPacket, Buffer;
    B.Modulo255Resolves(k);
    B.ContAdvances(rx, t.image, t.ubea, t.sender, k, k % 0xff, now, t.m);
    BufferGrows(t, rx, k, R.OnPacket(rx, t.Nth(k), now, t.m));
  }

  lemma MasterLast(t: Transfer, before: seq<R.Upload>, rx: R.Rx, k: nat, now: int)
    requires t.Valid() && R.Inv(rx) && 0 < k < t.Blocks() && WORDS * k < |t.image| < WORDS * (k + 1)
    requires RxAfter(t, rx, before, k) && now - rx.lastTime < R.TIMEOUT
    ensures var r := R.OnPacket(rx, t.Nth(k), now, t.m);
      RxAfter(t, r, before, k + 1) && r.replies == rx.replies + [Reply(t.sender, Verdict(t, k + 1))]
  {
    var id := k % 0xff;
    B.Modulo255Resolves(k);
    B.LastResolves(rx, t.image, t.ubea, t.sender, k, id, now, t.m);
    var p := t.Nth(k);
    if Aligned(k) {
      var data := R.Completed(rx, p);
      B.LastCompletesPrefix(rx, t.image, t.ubea, t.sender, k, p);
      if PROBE < |data| {
        assert k >= 0x100;
        assert data[..WORDS * k][PROBE] == rx.data[..WORDS * k][PROBE];
      }
      assert Buffer(t, data, k + 1);
      assert R.OnPacket(rx, p, now, t.m).uploads[|before|].data == data;
    }
  }

  lemma MasterFirst(t: Transfer, before: seq<R.Upload>, rx: R.Rx, now: int)
    requires t.Valid() && R.Inv(rx) && RxAfter(t, rx, before, 0)
    ensures var r := R.OnPacket(rx, t.Nth(0), now, t.m);
      RxAfter(t, r, before, 1) && r.replies == rx.replies + [Reply(t.sender, Verdict(t, 1))]
  {
    hide R.OnPacket, NthPacket, Payload;
    S.NumBlocksBounds(|t.image|);
    if t.Blocks() == 1 {
      B.FirstCompletes(rx, t.image, t.ubea, t.sender, now, t.m);
    } else {
      B.FirstStarts(rx, t.image, t.ubea, t.sender, now, t.m);
    }
  }

  lemma MasterKeepsRx(t: Transfer, before: seq<R.Upload>, rx: R.Rx, k: nat, now: int)
    requires t.Valid() && R.Inv(rx) && k < t.Blocks() && WORDS * k <= |t.image|
    requires RxAfter(t, rx, before, k)
    requires rx.peer != 0 ==> now - rx.lastTime < R.TIMEOUT
    ensures var r := R.OnPacket(R.OnTick(rx, now), t.Nth(k), now, t.m);
      RxAfter(t, r, before, k + 1) && r.replies == rx.replies + [Reply(t.sender, Verdict(t, k + 1))]
  {
    hide R.OnPacket, NthPacket, Buffer;
    if k == 0 {
      MasterFirst(t, before, rx, now);
    } else {
      LastBlock(t, k);
      if WORDS * (k + 1) <= |t.image| {
        MasterCont(t, before, rx, k, now);
      } else {
        MasterLast(t, before, rx, k, now);
      }
    }
  }

  lemma MasterKeepsPhase(t: Transfer, before: seq<R.Upload>, s: Sys, j: nat, now: int)
    requires t.Valid() && Phase(t, before, s, j) && Enabled(t, s, DeliverMaster(now))
    ensures Phase(t, before, Step(t, s, DeliverMaster(now)), j + 1)
  {
    hide R.OnPacket, R.OnTick, NthPacket, Verdict, RxAfter, TxAfter, TxDone;
    MasterKeepsRx(t, before, s.rx, j / 2, now);
  }

  lemma ReplyAsksForNext(t: Transfer, tx: S.Tx, k: nat, now: int)
    requires t.Valid() && S.Inv(tx) && TxAfter(t, tx, k) && 0 < k < t.Blocks()
    ensures WORDS * k < |t.image|
    ensures var r := S.OnReply(tx, t.receiver, t.sender, t.receiver, BLOCKGOOD, true, now);
      TxAfter(t, r, k + 1) && r.sent == tx.sent + [t.Nth(k)]
  {
    S.NumBlocksBounds(|t.image|);
    S.NextIsNth(tx, t.image, t.ubea, t.sender);
    S.TransmitKeepsProgress(tx, t.image, t.ubea, t.sender, true, now);
  }

  lemma ReplyEnds(t: Transfer, tx: S.Tx, now: int)
    requires t.Valid() && S.Inv(tx) && TxAfter(t, tx, t.Blocks())
    ensures var r := S.OnReply(tx, t.receiver, t.sender, t.receiver, Verdict(t, t.Blocks()), true, now);
      TxDone(t, r) && r.sent == tx.sent
  {
    S.NumBlocksBounds(|t.image|);
  }

  lemma ReplyMidway(t: Transfer, before: seq<R.Upload>, s: Sys, k: nat, now: int)
    requires t.Valid() && 0 < k < t.Blocks() && Phase(t, before, s, 2 * k - 1) && Possible(t, s, DeliverReply(now))
    ensures Phase(t, before, Step(t, s, DeliverReply(now)), 2 * k)
  {
    hide R.OnPacket, NthPacket, RxAfter, TxAfter, TxDone, S.OnReply;
    ReplyAsksForNext(t, s.tx, k, now);
    assert s.toTx == [Verdict(t, k)] && Verdict(t, k) == BLOCKGOOD;
    assert Step(t, s, DeliverReply(now)).toRx == [t.Nth(k)];
  }

  lemma ReplyAtEnd(t: Transfer, before: seq<R.Upload>, s: Sys, now: int)
    requires t.Valid() && Phase(t, before, s, 2 * t.Blocks() - 1) && Possible(t, s, DeliverReply(now))
    ensures Phase(t, before, Step(t, s, DeliverReply(now)), 2 * t.Blocks())
  {
    hide R.OnPacket, NthPacket, RxAfter, TxAfter, TxDone, S.OnReply, Verdict;
    ReplyEnds(t, s.tx, now);
  }

  lemma ReplyKeepsPhase(t: Transfer, before: seq<R.Upload>, s: Sys, j: nat, now: int)
    requires t.Valid() && Phase(t, before, s, j) && Possible(t, s, DeliverReply(now))
    ensures Phase(t, before, Step(t, s, DeliverReply(now)), j + 1)
  {
    hide Step, RxAfter, TxAfter, TxDone, Verdict, NthPacket;
    var k := (j + 1) / 2;
    assert j == 2 * k - 1;
    if k < t.Blocks() {
      ReplyMidway(t, before, s, k, now);
    } else {
      ReplyAtEnd(t, before, s, now);
    }
  }

  lemma StepKeepsPhase(t: Transfer, before: seq<R.Upload>, s: Sys, j: nat, e: Event)
    requires t.Valid() && Phase(t, before, s, j) && Enabled(t, s, e)
    ensures Phase(t, before, Step(t, s, e), j + Weight(e))
  {
    hide Phase, Possible, InTime, Step, Inv;
    match e
    case DeliverMaster(now) => MasterKeepsPhase(t, before, s, j, now);
    case DeliverReply(now) => ReplyKeepsPhase(t, before, s, j, now);
    case Noise(_, _, _) => NoiseKeepsPhase(t, before, s, j, e);
    case Tick(_) => NoiseKeepsPhase(t, before, s, j, e);
  }

  /** Whatever happens, in whatever order, the state is the one the number of deliveries says. */
  lemma {:induction false} RunKeepsPhase(t: Transfer, before: seq<R.Upload>, s: Sys, j: nat, h: seq<Event>)
    requires t.Valid() && Inv(s) && Phase(t, before, s, j) && CanRun(t, s, h)
    ensures Phase(t, before, Run(t, s, h), j + Deliveries(h))
    decreases |h|
  {
    hide Phase, Possible, InTime, Step;
    if h != [] {
      StepKeepsPhase(t, before, s, j, h[0]);
      RunKeepsPhase(t, before, Step(t, s, h[0]), j + Weight(h[0]), h[1..]);
    }
  }

  predicate Quiet(s: Sys) {
    s.toRx == [] && s.toTx == []
  }

  lemma PhaseBound(t: Transfer, before: seq<R.Upload>, s: Sys, j: nat)
    requires t.Valid() && Phase(t, before, s, j)
    ensures Inv(s) && j <= 2 * t.Blocks() && (Quiet(s) <==> j == 2 * t.Blocks())
    ensures Quiet(s) ==> RxAfter(t, s.rx, before, t.Blocks()) && TxDone(t, s.tx)
  {
    hide RxAfter, TxAfter, TxDone, NthPacket, Verdict;
  }

  /** Every run goes quiet after exactly two deliveries per block, never before and never later. */
  lemma QuietAfterAllDeliveries(t: Transfer, rx: R.Rx, last: int, start: int, h: seq<Event>)
    requires t.Valid() && R.Inv(rx) && rx.peer == 0 && CanRun(t, Begin(t, rx, last, start), h)
    ensures Deliveries(h) <= 2 * t.Blocks()
    ensures Quiet(Run(t, Begin(t, rx, last, start), h)) <==> Deliveries(h) == 2 * t.Blocks()
  {
    hide Run, CanRun, Begin, Phase, Quiet, RxAfter, TxDone;
    BeginPhase(t, rx, last, start);
    RunKeepsPhase(t, rx.uploads, Begin(t, rx, last, start), 0, h);
    PhaseBound(t, rx.uploads, Run(t, Begin(t, rx, last, start), h), Deliveries(h));
  }

  /** What a quiet system looks like. */
  lemma QuietState(t: Transfer, rx: R.Rx, last: int, start: int, h: seq<Event>)
    requires t.Valid() && R.Inv(rx) && rx.peer == 0 && CanRun(t, Begin(t, rx, last, start), h)
    requires Quiet(Run(t, Begin(t, rx, last, start), h))
    ensures var s := Run(t, Begin(t, rx, last, start), h);
      RxAfter(t, s.rx, rx.uploads, t.Blocks()) && TxDone(t, s.tx)
  {
    hide Run, CanRun, Begin, Phase, Quiet, RxAfter, TxDone;
    BeginPhase(t, rx, last, start);
    RunKeepsPhase(t, rx.uploads, Begin(t, rx, last, start), 0, h);
    PhaseBound(t, rx.uploads, Run(t, Begin(t, rx, last, start), h), Deliveries(h));
  }

  lemma DeliveryStaysInTime(rx: R.Rx, p: Master, now: int, m: Malloc<word>)
    requires R.Inv(rx) && m.ok && Length(p) >= 0 && InTime(rx, now)
    ensures InTime(R.OnPacket(R.OnTick(rx, now), p, now, m), now)
  {
  }

  /** The delivery that phase `j` is waiting for. */
  function NextDelivery(j: nat, now: int): Event {
    if j % 2 == 0 then DeliverMaster(now) else DeliverReply(now)
  }

  lemma NextDeliveryEnabled(t: Transfer, before: seq<R.Upload>, s: Sys, j: nat, now: int)
    requires t.Valid() && Phase(t, before, s, j) && j < 2 * t.Blocks() && InTime(s.rx, now)
    ensures Enabled(t, s, NextDelivery(j, now))
    ensures InTime(Step(t, s, NextDelivery(j, now)).rx, now)
  {
    hide R.OnPacket, R.OnTick, NthPacket, RxAfter, TxAfter, TxDone;
    if j % 2 == 0 {
      DeliveryStaysInTime(s.rx, s.toRx[0], now, t.m);
    }
  }

  lemma {:induction false} FinishFrom(t: Transfer, before: seq<R.Upload>, s: Sys, j: nat, now: int) returns (h: seq<Event>)
    requires t.Valid() && Phase(t, before, s, j) && InTime(s.rx, now)
    ensures CanRun(t, s, h) && Quiet(Run(t, s, h))
    decreases 2 * t.Blocks() - j
  {
    hide Phase, Possible, Step, InTime, Quiet, Inv;
    PhaseBound(t, before, s, j);
    if j == 2 * t.Blocks() {
      h := [];
    } else {
      var e := NextDelivery(j, now);
      NextDeliveryEnabled(t, before, s, j, now);
      StepKeepsPhase(t, before, s, j, e);
      var rest := FinishFrom(t, before, Step(t, s, e), j + 1, now);
      h := [e] + rest;
      assert h[1..] == rest;
    }
  }

  /** No run gets stuck: from every reachable state, while there is time, the transfer can still be finished. */
  lemma CanAlwaysFinish(t: Transfer, rx: R.Rx, last: int, start: int, h: seq<Event>, now: int)
    requires t.Valid() && R.Inv(rx) && rx.peer == 0 && CanRun(t, Begin(t, rx, last, start), h)
    requires InTime(Run(t, Begin(t, rx, last, start), h).rx, now)
    ensures var s := Run(t, Begin(t, rx, last, start), h);
      exists more :: CanRun(t, s, more) && Quiet(Run(t, s, more))
  {
    hide Run, CanRun, Begin, Phase, InTime, Quiet;
    BeginPhase(t, rx, last, start);
    RunKeepsPhase(t, rx.uploads, Begin(t, rx, last, start), 0, h);
    var more := FinishFrom(t, rx.uploads, Run(t, Begin(t, rx, last, start), h), Deliveries(h), now);
  }

  /** One packet, or at most 255 blocks of which the last is not whole. */
  predicate Fits(t: Transfer) {
    |t.image| <= WORDS || (|t.image| % WORDS != 0 && t.Blocks() <= 0xff)
  }

  /** The callback's buffer is the image; its length argument is in bytes for a one-packet upload, else in words. */
  function Delivered(t: Transfer): R.Upload {
    R.Upload(t.ubea, t.image, if |t.image| <= WORDS then 2 * |t.image| else |t.image|)
  }

  /** The transfer works: one callback at the receiver with the image, one ALLGOOD at the sender, record cleared. */
  lemma FirmwareDelivered(t: Transfer, rx: R.Rx, last: int, start: int, h: seq<Event>)
    requires t.Valid() && R.Inv(rx) && rx.peer == 0 && CanRun(t, Begin(t, rx, last, start), h)
    requires Quiet(Run(t, Begin(t, rx, last, start), h)) && Fits(t)
    ensures var s := Run(t, Begin(t, rx, last, start), h);
      && s.rx.uploads == rx.uploads + [Delivered(t)]
      && s.tx == S.Tx([], 0, 0, 0, false, 0, 0, s.tx.sent, [ALLGOOD])
      && |s.tx.sent| == t.Blocks()
  {
    hide Run, CanRun, Begin;
    QuietState(t, rx, last, start, h);
    S.NumBlocksBounds(|t.image|);
    if t.Blocks() > 1 {
      var data := Run(t, Begin(t, rx, last, start), h).rx.uploads[|rx.uploads|].data;
      assert data == t.image by {
        assert Buffer(t, data, t.Blocks());
      }
    }
  }

  /** Which images end in ALLGOOD: not the multi-block ones that are whole blocks (they send no LAST), nor those
      whose last id, counted modulo 255, no longer names the last block. The rest end in a FAIL or in silence. */
  lemma AllGoodIff(t: Transfer, rx: R.Rx, last: int, start: int, h: seq<Event>)
    requires t.Valid() && R.Inv(rx) && rx.peer == 0 && CanRun(t, Begin(t, rx, last, start), h)
    requires Quiet(Run(t, Begin(t, rx, last, start), h))
    ensures var s := Run(t, Begin(t, rx, last, start), h);
      var whole := |t.image| > WORDS && |t.image| % WORDS == 0;
      && (s.tx.results == [ALLGOOD] <==> !whole && Aligned(t.Blocks() - 1))
      && (s.tx.results == [FAIL] <==> !whole && !Aligned(t.Blocks() - 1))
      && (s.tx.results == [] <==> whole)
      && |s.rx.uploads| == |rx.uploads| + |s.tx.results| - (if s.tx.results == [FAIL] then 1 else 0)
      && (s.rx.peer == 0 <==> |t.image| > WORDS && s.tx.results == [ALLGOOD])
  {
    hide Run, CanRun, Begin;
    QuietState(t, rx, last, start, h);
    S.NumBlocksBounds(|t.image|);
  }

  /** Exactly the images that fit arrive intact, unless stale memory happens to agree with the image: beyond
      255 blocks, block 255 is never written even when both sides report success. */
  lemma IntactIff(t: Transfer, rx: R.Rx, last: int, start: int, h: seq<Event>)
    requires t.Valid() && R.Inv(rx) && rx.peer == 0 && CanRun(t, Begin(t, rx, last, start), h)
    requires Quiet(Run(t, Begin(t, rx, last, start), h))
    requires PROBE < |t.image| ==> t.m.memory(PROBE) != t.image[PROBE]
    ensures Run(t, Begin(t, rx, last, start), h).rx.uploads == rx.uploads + [Delivered(t)] <==> Fits(t)
  {
    hide Run, CanRun, Begin;
    QuietState(t, rx, last, start, h);
    S.NumBlocksBounds(|t.image|);
    if Fits(t) {
      FirmwareDelivered(t, rx, last, start, h);
    } else if t.Blocks() > 0xff && |t.image| % WORDS != 0 {
      assert PROBE < |t.image|;
    }
  }
}
