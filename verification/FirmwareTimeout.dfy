/** The whole firmware transfer without any bound on time: what a receiver that times out midway leads to. */
module FirmwareTimeout {
  import opened Base
  import opened Artnet
  import opened Misc
  import opened FirmwarePacket
  import opened FirmwareTransfer
  import R = FirmwareReceiver
  import S = FirmwareSender

  predicate CanRunEver(t: Transfer, s: Sys, h: seq<Event>)
    requires t.Valid() && Inv(s)
    decreases |h|
  {
    h == [] || (Possible(t, s, h[0]) && CanRunEver(t, Step(t, s, h[0]), h[1..]))
  }

  function RunEver(t: Transfer, s: Sys, h: seq<Event>): (r: Sys)
    requires t.Valid() && Inv(s) && CanRunEver(t, s, h)
    ensures Inv(r)
    decreases |h|
  {
    if h == [] then s else RunEver(t, Step(t, s, h[0]), h[1..])
  }

  /** A reply on its way, or the next packet, or nothing any more, once the receiver has given up. */
  predicate SenderLeft(t: Transfer, s: Sys)
    requires t.Valid()
  {
    var n := |s.tx.sent|;
    || (s.toRx == [] && s.toTx == [FAIL] && TxAfter(t, s.tx, n))
    || (s.toRx == [] && s.toTx == [BLOCKGOOD] && 0 < n <= t.Blocks() && WORDS * n <= |t.image| && TxAfter(t, s.tx, n))
    || (s.toTx == [] && n > 1 && WORDS * (n - 1) <= |t.image| && s.toRx == [t.Nth(n - 1)] && TxAfter(t, s.tx, n))
    || (Quiet(s) && GivenUp(t, s))
  }

  /** How the sender ends: with FAIL, its record cleared; or, all packets sent and none of them a LAST, in silence. */
  predicate GivenUp(t: Transfer, s: Sys)
    requires t.Valid()
  {
    || (s.tx.results == [FAIL] && s.tx == S.Cleared(s.tx))
    || (TxAfter(t, s.tx, t.Blocks()) && |t.image| % WORDS == 0)
  }

  /** The receiver timed out in the middle of the transfer: it is idle, and has made no callback. */
  predicate Expired(t: Transfer, before: seq<R.Upload>, s: Sys)
    requires t.Valid()
  {
    Inv(s) && s.rx.peer == 0 && s.rx.uploads == before && SenderLeft(t, s)
  }

  lemma NthIsNoFirst(t: Transfer, k: nat)
    requires t.Valid() && 0 < k && WORDS * k <= |t.image|
    ensures !IsFirst(t.Nth(k).kind) && t.Nth(k).from == t.sender
  {
  }

  /** An idle receiver answers FAIL to whatever is no FIRST. */
  lemma IdleAnswersFail(rx: R.Rx, p: Master, now: int, m: Malloc<word>)
    requires R.Inv(rx) && rx.peer == 0 && !IsFirst(p.kind)
    ensures R.OnPacket(rx, p, now, m) == R.Answer(rx, p.from, FAIL)
  {
  }

  lemma FailEnds(t: Transfer, tx: S.Tx, n: nat, now: int)
    requires t.Valid() && S.Inv(tx) && TxAfter(t, tx, n)
    ensures var r := S.OnReply(tx, t.receiver, t.sender, t.receiver, FAIL, true, now);
      r.results == [FAIL] && r == S.Cleared(r) && r.sent == tx.sent
  {
  }

  lemma BlockGoodGoesOn(t: Transfer, tx: S.Tx, n: nat, now: int)
    requires t.Valid() && S.Inv(tx) && TxAfter(t, tx, n) && 0 < n <= t.Blocks() && WORDS * n <= |t.image|
    ensures var r := S.OnReply(tx, t.receiver, t.sender, t.receiver, BLOCKGOOD, true, now);
      if n < t.Blocks() then TxAfter(t, r, n + 1) && r.sent == tx.sent + [t.Nth(n)]
      else r == tx && |t.image| % WORDS == 0
  {
    S.NumBlocksBounds(|t.image|);
    if n < t.Blocks() {
      ReplyAsksForNext(t, tx, n, now);
    }
  }

  /** What a late check of the timeout does to a transfer in progress. */
  lemma ExpiresNow(t: Transfer, before: seq<R.Upload>, s: Sys, j: nat, now: int)
    requires t.Valid() && t.Blocks() > 1 && Phase(t, before, s, j) && !InTime(s.rx, now)
    ensures Expired(t, before, s.(rx := R.OnTick(s.rx, now)))
  {
    hide S.Progress, NthPacket;
    S.NumBlocksBounds(|t.image|);
    var k := (j + 1) / 2;
    assert RxAfter(t, s.rx, before, k) && k > 0;
    assert R.OnTick(s.rx, now) == R.Reset(s.rx);
  }

  lemma ExpiredStays(t: Transfer, before: seq<R.Upload>, s: Sys, e: Event)
    requires t.Valid() && Expired(t, before, s) && Possible(t, s, e)
    ensures Expired(t, before, Step(t, s, e))
  {
    hide R.OnPacket, S.OnReply, TxAfter, NthPacket, R.First, R.Cont, R.Last;
    match e
    case DeliverMaster(now) =>
      NthIsNoFirst(t, |s.tx.sent| - 1);
      IdleAnswersFail(s.rx, s.toRx[0], now, t.m);
    case DeliverReply(now) =>
      if s.toTx[0] == FAIL {
        FailEnds(t, s.tx, |s.tx.sent|, now);
      } else {
        BlockGoodGoesOn(t, s.tx, |s.tx.sent|, now);
      }
    case Noise(p, now, m) =>
      IdleAnswersFail(s.rx, p, now, m);
    case Tick(_) =>
  }

  /** A step that checks the timeout does what it would have done had it been checked before. */
  lemma StepAfterTick(t: Transfer, s: Sys, e: Event)
    requires t.Valid() && Inv(s) && Possible(t, s, e) && !e.DeliverReply?
    ensures var checked := s.(rx := R.OnTick(s.rx, e.now));
      Inv(checked) && Possible(t, checked, e) && Step(t, checked, e).rx == Step(t, s, e).rx
      && (Step(t, checked, e).tx, Step(t, checked, e).toRx) == (Step(t, s, e).tx, Step(t, s, e).toRx)
      && Step(t, checked, e).toTx == Step(t, s, e).toTx
  {
    hide R.OnPacket;
    assert R.OnTick(R.OnTick(s.rx, e.now), e.now) == R.OnTick(s.rx, e.now);
    assert R.OnTick(s.rx, e.now).replies == s.rx.replies;
  }

  /** Where a multi-block transfer can be at any time: on its way, or given up. */
  predicate Anywhere(t: Transfer, before: seq<R.Upload>, s: Sys)
    requires t.Valid()
  {
    Expired(t, before, s) || exists j: nat :: j <= 2 * t.Blocks() && Phase(t, before, s, j)
  }

  lemma StepKeepsAnywhere(t: Transfer, before: seq<R.Upload>, s: Sys, e: Event)
    requires t.Valid() && t.Blocks() > 1 && Inv(s) && Anywhere(t, before, s) && Possible(t, s, e)
    ensures Anywhere(t, before, Step(t, s, e))
  {
    hide Phase, Expired, Possible, Step, InTime;
    if Expired(t, before, s) {
      ExpiredStays(t, before, s, e);
    } else {
      var j: nat :| j <= 2 * t.Blocks() && Phase(t, before, s, j);
      if InTime(s.rx, e.now) {
        StepKeepsPhase(t, before, s, j, e);
        PhaseBound(t, before, Step(t, s, e), j + Weight(e));
      } else if e.DeliverReply? {
        ReplyKeepsPhase(t, before, s, j, e.now);
        PhaseBound(t, before, Step(t, s, e), j + 1);
      } else {
        ExpiresNow(t, before, s, j, e.now);
        StepAfterTick(t, s, e);
        ExpiredStays(t, before, s.(rx := R.OnTick(s.rx, e.now)), e);
      }
    }
  }

  lemma {:induction false} RunKeepsAnywhere(t: Transfer, before: seq<R.Upload>, s: Sys, h: seq<Event>)
    requires t.Valid() && t.Blocks() > 1 && Inv(s) && Anywhere(t, before, s) && CanRunEver(t, s, h)
    ensures Anywhere(t, before, RunEver(t, s, h))
    decreases |h|
  {
    hide Anywhere, Possible, Step;
    if h != [] {
      StepKeepsAnywhere(t, before, s, h[0]);
      RunKeepsAnywhere(t, before, Step(t, s, h[0]), h[1..]);
    }
  }

  /** Runs within the time are runs. */
  lemma {:induction false} TimelyRuns(t: Transfer, s: Sys, h: seq<Event>)
    requires t.Valid() && Inv(s) && CanRun(t, s, h)
    ensures CanRunEver(t, s, h) && RunEver(t, s, h) == Run(t, s, h)
    decreases |h|
  {
    hide Possible, InTime, Step;
    if h != [] {
      TimelyRuns(t, Step(t, s, h[0]), h[1..]);
    }
  }

  /** However long it takes: when nothing is in flight any more, a multi-block transfer has ended as it would have in time,
      or the receiver is idle, has made no callback, and the sender's one callback was FAIL, or it got none because its
      image, a whole number of blocks, has no LAST. */
  lemma EveryRunEnds(t: Transfer, rx: R.Rx, last: int, start: int, h: seq<Event>)
    requires t.Valid() && t.Blocks() > 1 && R.Inv(rx) && rx.peer == 0
    requires CanRunEver(t, Begin(t, rx, last, start), h)
    requires Quiet(RunEver(t, Begin(t, rx, last, start), h))
    ensures var s := RunEver(t, Begin(t, rx, last, start), h);
      || (RxAfter(t, s.rx, rx.uploads, t.Blocks()) && TxDone(t, s.tx))
      || (s.rx.peer == 0 && s.rx.uploads == rx.uploads && GivenUp(t, s))
  {
    hide RunEver, CanRunEver, Begin, Phase, RxAfter, TxDone, GivenUp, Possible;
    var s := RunEver(t, Begin(t, rx, last, start), h);
    BeginPhase(t, rx, last, start);
    RunKeepsAnywhere(t, rx.uploads, Begin(t, rx, last, start), h);
    if !Expired(t, rx.uploads, s) {
      var j: nat :| j <= 2 * t.Blocks() && Phase(t, rx.uploads, s, j);
      PhaseBound(t, rx.uploads, s, j);
    }
  }

  lemma LateDelivery(t: Transfer, before: seq<R.Upload>, s: Sys, k: nat, now: int)
    requires t.Valid() && t.Blocks() > 1 && 0 < k < t.Blocks() && Phase(t, before, s, 2 * k) && !InTime(s.rx, now)
    ensures Inv(s) && Possible(t, s, DeliverMaster(now)) && s.rx.uploads == before && TxAfter(t, s.tx, k + 1)
    ensures Step(t, s, DeliverMaster(now)) ==
      s.(rx := R.Answer(R.Reset(s.rx), t.sender, FAIL), toRx := [], toTx := [FAIL])
  {
    hide R.OnPacket, NthPacket, TxAfter, TxDone;
    ExpiresNow(t, before, s, 2 * k, now);
    NthIsNoFirst(t, k);
    IdleAnswersFail(R.OnTick(s.rx, now), s.toRx[0], now, t.m);
    assert R.OnTick(s.rx, now) == R.Reset(s.rx);
  }

  lemma FailDelivered(t: Transfer, s: Sys, n: nat, later: int)
    requires t.Valid() && Inv(s) && TxAfter(t, s.tx, n) && s.toTx == [FAIL] && s.toRx == []
    ensures Possible(t, s, DeliverReply(later))
    ensures var r := Step(t, s, DeliverReply(later));
      r.rx == s.rx && Quiet(r) && r.tx.results == [FAIL] && r.tx == S.Cleared(r.tx) && |r.tx.sent| == n
  {
    FailEnds(t, s.tx, n, later);
  }

  lemma RunOne(t: Transfer, s: Sys, e: Event)
    requires t.Valid() && Inv(s) && Possible(t, s, e)
    ensures CanRunEver(t, s, [e]) && RunEver(t, s, [e]) == Step(t, s, e)
  {
    hide Step, Possible;
    assert [e][1..] == [];
  }

  lemma RunTwo(t: Transfer, s: Sys, e: Event, f: Event)
    requires t.Valid() && Inv(s) && Possible(t, s, e) && Possible(t, Step(t, s, e), f)
    ensures CanRunEver(t, s, [e, f]) && RunEver(t, s, [e, f]) == Step(t, Step(t, s, e), f)
  {
    hide Step, Possible;
    RunOne(t, Step(t, s, e), f);
    assert [e, f][1..] == [f];
  }

  /** A time-out midway: the packet on its way is answered FAIL, the sender's one callback is FAIL and its record is
      cleared, and the receiver is idle without having made a callback. */
  lemma TimeoutMidway(t: Transfer, before: seq<R.Upload>, s: Sys, k: nat, now: int, later: int)
    requires t.Valid() && t.Blocks() > 1 && 0 < k < t.Blocks() && Phase(t, before, s, 2 * k) && !InTime(s.rx, now)
    ensures var h := [DeliverMaster(now), DeliverReply(later)];
      && CanRunEver(t, s, h)
      && var r := RunEver(t, s, h);
      && r.rx == R.Answer(R.Reset(s.rx), t.sender, FAIL) && r.rx.uploads == before
      && Quiet(r) && r.tx.results == [FAIL] && r.tx == S.Cleared(r.tx) && |r.tx.sent| == k + 1
  {
    hide Phase, Step, Quiet, TxAfter, Possible, RxAfter, InTime, S.Cleared;
    LateDelivery(t, before, s, k, now);
    var e, f := DeliverMaster(now), DeliverReply(later);
    FailDelivered(t, Step(t, s, e), k + 1, later);
    RunTwo(t, s, e, f);
  }
}
