/** The flush timer (libs/core/timer.h) driving the USB client: how soon an update reaches the widget. */
module FlushTiming {
  import opened Base
  import opened Overlay
  import opened UsbClient
  import opened EnttecFrame

  /** `ShouldRun` for a timer with a callback. */
  predicate Due(now: int, lastCall: int, interval: nat) {
    now - lastCall > interval
  }

  class Timer {
    const interval: nat // nanoseconds
    var hasCallback: bool
    var lastCall: int
    ghost var calls: seq<int> // when the callback ran

    constructor (interval: nat)
      ensures this.interval == interval && !hasCallback && lastCall == 0 && calls == []
    {
      this.interval, hasCallback, lastCall, calls := interval, false, 0, [];
    }

    method Start(now: int)
      modifies this
      ensures hasCallback && lastCall == now && calls == old(calls)
    {
      hasCallback := true;
      lastCall := now;
    }

    method Stop()
      modifies this
      ensures !hasCallback && lastCall == old(lastCall) && calls == old(calls)
    {
      hasCallback := false;
    }

    /** Says whether the callback is to run now. */
    method Poll(now: int) returns (runs: bool)
      modifies this
      ensures hasCallback == old(hasCallback)
      ensures runs == (hasCallback && now - old(lastCall) > interval)
      ensures lastCall == (if runs then now else old(lastCall)) && calls == old(calls) + if runs then [now] else []
    {
      runs := hasCallback && now - lastCall > interval;
      if runs {
        calls := calls + [now];
        lastCall := now;
      }
    }
  }

  // The timer alone.

  /** When a timer started at `t0` runs its callback, for these poll times. */
  function Firings(t0: int, interval: nat, polls: seq<int>): seq<int> {
    if polls == [] then []
    else
      var before, now := Firings(t0, interval, polls[..|polls| - 1]), polls[|polls| - 1];
      if Due(now, LastOf(t0, before), interval) then before + [now] else before
  }

  /** The last element, or `t0` if there is none. */
  function LastOf(t0: int, times: seq<int>): int {
    if times == [] then t0 else times[|times| - 1]
  }

  /** Each time lies at or after the one before it, and at most `d` after. */
  predicate GapsAtMost(t0: int, times: seq<int>, d: int) {
    forall i :: 0 <= i < |times| ==> 0 <= times[i] - LastOf(t0, times[..i]) <= d
  }

  /** Consecutive callbacks are more than the interval and at most interval + d apart. */
  predicate Spaced(t0: int, times: seq<int>, interval: nat, d: int) {
    forall i :: 0 <= i < |times| ==> interval < times[i] - LastOf(t0, times[..i]) <= interval + d
  }

  lemma {:induction false} FiringsSpaced(t0: int, interval: nat, polls: seq<int>, d: int)
    requires GapsAtMost(t0, polls, d)
    ensures var f := Firings(t0, interval, polls);
      Spaced(t0, f, interval, d) && 0 <= LastOf(t0, polls) - LastOf(t0, f) <= interval
  {
    if polls != [] {
      var n := |polls| - 1;
      var before := polls[..n];
      assert forall i :: 0 <= i <= n ==> before[..i] == polls[..i];
      FiringsSpaced(t0, interval, before, d);
      var f0, f := Firings(t0, interval, before), Firings(t0, interval, polls);
      assert LastOf(t0, before) <= polls[n] <= LastOf(t0, before) + d by {
        assert 0 <= polls[n] - LastOf(t0, polls[..n]) <= d;
      }
      if f != f0 {
        assert f == f0 + [polls[n]];
        assert forall i :: 0 <= i <= |f0| ==> f[..i] == f0[..i];
      }
    }
  }

  lemma OneMore(n: nat, period: int)
    ensures (n + 1) * period == n * period + period
  {
  }

  lemma {:induction false} SpacedBound(t0: int, times: seq<int>, interval: nat, d: int)
    requires Spaced(t0, times, interval, d)
    ensures LastOf(t0, times) - t0 <= |times| * (interval + d)
  {
    if times != [] {
      var n := |times| - 1;
      assert forall i :: 0 <= i <= n ==> times[..n][..i] == times[..i];
      SpacedBound(t0, times[..n], interval, d);
      assert times[n] - LastOf(t0, times[..n]) <= interval + d;
      OneMore(n, interval + d);
    }
  }

  lemma MultiplyOrdered(a: int, b: int, period: int)
    requires a <= b && period >= 0
    ensures a * period <= b * period
  {
    assert (b - a) * period >= 0;
  }

  lemma FloorAtMost(elapsed: int, period: int, n: nat)
    requires period > 0 && elapsed < (n + 1) * period
    ensures elapsed / period <= n
  {
    var q := elapsed / period;
    assert q * period + elapsed % period == elapsed;
    if n + 1 <= q {
      MultiplyOrdered(n + 1, q, period);
    }
  }

  /** By poll time T the timer has fired at least floor((T - t0) / (interval + d)) times. */
  lemma FiringRate(t0: int, interval: nat, polls: seq<int>, d: int)
    requires d > 0 && GapsAtMost(t0, polls, d)
    ensures (LastOf(t0, polls) - t0) / (interval + d) <= |Firings(t0, interval, polls)|
  {
    hide Spaced, GapsAtMost;
    FiringsSpaced(t0, interval, polls, d);
    var f := Firings(t0, interval, polls);
    SpacedBound(t0, f, interval, d);
    OneMore(|f|, interval + d);
    FloorAtMost(LastOf(t0, polls) - t0, interval + d, |f|);
  }

  // The timer and the USB client.

  /** The composed frame, whether it is waiting to be sent, the buffered overlay; the timer's last call and last
      poll; the frames sent, and the bytes the widget took. */
  datatype Link = Link(
    frame: seq<byte>, isNew: bool, overlay: Option<Message>, lastCall: int, lastPoll: int, sent: seq<seq<byte>>,
    wire: seq<byte>)

  predicate Valid(s: Link) {
    |s.frame| == FRAME_SIZE && (s.overlay.Some? ==> InBounds(s.overlay.value))
  }

  datatype Event = Update(base: seq<byte>) | Buffer(m: Message) | Poll(now: int, writes: Writes)

  type LinkEvent = e: Event | (e.Update? ==> |e.base| == DMX_SIZE) && (e.Buffer? ==> InBounds(e.m))
    witness Poll(0, Writes(0, 0, 0, false))

  /** The link right after the start: no frame yet, and the timer counting from `now`. */
  function Started(now: int): (s: Link)
    ensures Valid(s)
  {
    Link(seq(FRAME_SIZE, _ => 0), false, None, now, now, [], [])
  }

  /** Updates and overlays change the frame; a poll flushes it when the timer is due. A frame handed to the widget counts
      as sent, whether or not it was taken. */
  function Step(s: Link, interval: nat, e: LinkEvent): (r: Link)
    requires Valid(s)
    ensures Valid(r)
  {
    match e
    case Update(base) => s.(frame := Composed(base, s.overlay), isNew := true)
    case Buffer(m) => s.(frame := Patched(s.frame, m, m.numOverlays), overlay := Some(m), isNew := true)
    case Poll(now, writes) =>
      if !Due(now, s.lastCall, interval) then s.(lastPoll := now)
      else if !s.isNew then s.(lastPoll := now, lastCall := now)
      else s.(lastPoll := now, lastCall := now, isNew := false, sent := s.sent + [s.frame],
              wire := s.wire + Frame(SET_DMX_TX_MODE, s.frame)[..Taken(writes, FRAME_SIZE)])
  }

  /** What the widget has received when these frames have been sent and taken whole. */
  function OnWire(sent: seq<seq<byte>>): seq<byte> {
    if sent == [] then [] else OnWire(sent[..|sent| - 1]) + Frame(SET_DMX_TX_MODE, sent[|sent| - 1])
  }

  /** The client, its device and the timer that `EnttecUSBClient::Start` sets up, driven by the event loop. */
  class Flusher {
    const client: EnttecClient
    const timer: Timer
    ghost var lastPoll: int
    ghost var sent: seq<seq<byte>>

    ghost function View(): Link
      reads this, client, client.serialized, client.device, timer
    {
      Link(client.serialized[..], client.isNewFrame, client.lastOverlay, timer.lastCall, lastPoll, sent,
           client.device.written)
    }

    ghost predicate Ok()
      reads this, client, client.serialized, client.device, timer
    {
      client.Valid() && client.connected && timer.hasCallback
    }

    constructor (device: Device, interval: nat, now: int)
      requires device.written == []
      ensures Ok() && View() == Started(now) && timer.interval == interval
    {
      client := new EnttecClient(device, true);
      timer := new Timer(interval);
      lastPoll, sent := now, [];
      new;
      timer.Start(now);
    }

    method Update(base: seq<byte>)
      requires Ok() && |base| == DMX_SIZE
      modifies client, client.serialized
      ensures Ok() && View() == Step(old(View()), timer.interval, Event.Update(base))
    {
      client.UpdateFrame(base);
    }

    method Buffer(m: Message)
      requires Ok() && InBounds(m)
      modifies client, client.serialized
      ensures Ok() && View() == Step(old(View()), timer.interval, Event.Buffer(m))
    {
      client.ApplyOverlay(m, true);
    }

    /** One poll. Whatever the writes do, a due poll counts the frame as sent and never sends it again. */
    method Poll(now: int, writes: Writes)
      requires Ok()
      modifies this, client, client.device, timer
      ensures Ok() && View() == Step(old(View()), timer.interval, Event.Poll(now, writes))
    {
      var runs := timer.Poll(now);
      lastPoll := now;
      if runs {
        if client.isNewFrame {
          sent := sent + [client.serialized[..]];
        }
        var thrown := client.FlushFrame(writes);
      }
    }
  }

  function Run(s: Link, interval: nat, h: seq<LinkEvent>): (r: Link)
    requires Valid(s)
    ensures Valid(r)
  {
    if h == [] then s else Step(Run(s, interval, h[..|h| - 1]), interval, h[|h| - 1])
  }

  /** Polls come at most `d` apart. */
  predicate Polled(s: Link, interval: nat, h: seq<LinkEvent>, d: int)
    requires Valid(s)
  {
    h == [] ||
    (var before, e := h[..|h| - 1], h[|h| - 1];
     && Polled(s, interval, before, d)
     && (e.Poll? ==> 0 <= e.now - Run(s, interval, before).lastPoll <= d))
  }

  /** Once anything has been sent: nothing pending means the last frame sent is the current one. */
  predicate UpToDate(s: Link) {
    s.sent != [] && !s.isNew ==> s.sent[|s.sent| - 1] == s.frame
  }

  lemma {:induction false} NothingPendingMeansSent(s: Link, interval: nat, h: seq<LinkEvent>)
    requires Valid(s) && UpToDate(s)
    ensures UpToDate(Run(s, interval, h))
  {
    if h != [] {
      NothingPendingMeansSent(s, interval, h[..|h| - 1]);
    }
  }

  function Updates(h: seq<LinkEvent>): nat {
    if h == [] then 0 else Updates(h[..|h| - 1]) + if h[|h| - 1].Poll? then 0 else 1
  }

  /** Every send answers an update of its own: there are never more of them, and none at all without one. */
  lemma {:induction false} NoSendWithoutUpdate(s: Link, interval: nat, h: seq<LinkEvent>)
    requires Valid(s)
    ensures |Run(s, interval, h).sent| + (if Run(s, interval, h).isNew then 1 else 0)
         <= |s.sent| + (if s.isNew then 1 else 0) + Updates(h)
    ensures !s.isNew && Updates(h) == 0 ==>
      Run(s, interval, h).sent == s.sent && Run(s, interval, h).frame == s.frame && !Run(s, interval, h).isNew
  {
    if h != [] {
      NoSendWithoutUpdate(s, interval, h[..|h| - 1]);
    }
  }

  /** The run ends in a poll no later than `deadline` that leaves the newest frame sent. */
  predicate JustSent(s: Link, interval: nat, h: seq<LinkEvent>, deadline: int)
    requires Valid(s) && h != []
  {
    var r, e := Run(s, interval, h), h[|h| - 1];
    e.Poll? && e.now <= deadline && !r.isNew && r.sent != [] && r.sent[|r.sent| - 1] == r.frame
  }

  /** ... and so does some beginning of the run. */
  predicate SentInTime(s: Link, interval: nat, h: seq<LinkEvent>, deadline: int)
    requires Valid(s)
  {
    h != [] && (JustSent(s, interval, h, deadline) || SentInTime(s, interval, h[..|h| - 1], deadline))
  }

  /** A frame updated at time `u` reaches the widget by u + interval + d, or is replaced by a newer one that does:
      if polling goes on past u + interval, some poll by that deadline leaves the then current frame sent. */
  lemma {:induction false} FlushDeadline(s: Link, interval: nat, h: seq<LinkEvent>, d: int, u: int)
    requires Valid(s) && s.isNew && s.lastCall <= u && 0 <= s.lastPoll - s.lastCall <= interval
    requires Polled(s, interval, h, d)
    ensures var r := Run(s, interval, h);
      || SentInTime(s, interval, h, u + interval + d)
      || (r.isNew && r.lastCall == s.lastCall && 0 <= r.lastPoll - r.lastCall <= interval)
    ensures Run(s, interval, h).lastPoll > u + interval ==> SentInTime(s, interval, h, u + interval + d)
  {
    if h != [] {
      FlushDeadline(s, interval, h[..|h| - 1], d, u);
    }
  }

  /** Along any polled run the timer's last call is never more than the interval before the last poll. */
  lemma {:induction false} TimerKeepsUp(s: Link, interval: nat, h: seq<LinkEvent>, d: int)
    requires Valid(s) && 0 <= s.lastPoll - s.lastCall <= interval && Polled(s, interval, h, d)
    ensures var r := Run(s, interval, h); 0 <= r.lastPoll - r.lastCall <= interval
  {
    if h != [] {
      TimerKeepsUp(s, interval, h[..|h| - 1], d);
    }
  }

  /** From the start, over whole runs: after any polled run `h1` comes an update or an overlay `e` at time `u`, then any
      polled run `h2`. If polling goes on past u + interval, the frame of `e`, or a newer one in its place, is on its way
      to the widget by u + interval + d. */
  lemma UpdateIsSentInTime(start: int, interval: nat, h1: seq<LinkEvent>, e: LinkEvent, u: int, h2: seq<LinkEvent>, d: int)
    requires !e.Poll? && Polled(Started(start), interval, h1, d) && u >= Run(Started(start), interval, h1).lastPoll
    requires Polled(Run(Started(start), interval, h1 + [e]), interval, h2, d)
    ensures var s := Run(Started(start), interval, h1 + [e]);
      && s.isNew && s.frame == Step(Run(Started(start), interval, h1), interval, e).frame
      && (Run(s, interval, h2).lastPoll > u + interval ==> SentInTime(s, interval, h2, u + interval + d))
  {
    TimerKeepsUp(Started(start), interval, h1, d);
    assert (h1 + [e])[..|h1|] == h1;
    FlushDeadline(Run(Started(start), interval, h1 + [e]), interval, h2, d, u);
  }

  // What reaches the widget.

  /** Every poll that sends has its writes taken whole. */
  predicate AlwaysWhole(s: Link, interval: nat, h: seq<LinkEvent>)
    requires Valid(s)
  {
    h == [] ||
    (var before, e := h[..|h| - 1], h[|h| - 1];
     AlwaysWhole(s, interval, before) && (Sends(Run(s, interval, before), interval, e) ==> Whole(e.writes, FRAME_SIZE)))
  }

  predicate Sends(s: Link, interval: nat, e: LinkEvent) {
    e.Poll? && Due(e.now, s.lastCall, interval) && s.isNew
  }

  lemma StepWrites(s: Link, interval: nat, e: LinkEvent)
    requires Valid(s) && |s.wire| <= |OnWire(s.sent)|
    ensures var r := Step(s, interval, e);
      && |r.wire| <= |OnWire(r.sent)|
      && (r.wire == OnWire(r.sent) <==>
           s.wire == OnWire(s.sent) && (Sends(s, interval, e) ==> Whole(e.writes, FRAME_SIZE)))
  {
    if Sends(s, interval, e) {
      var frame := Frame(SET_DMX_TX_MODE, s.frame);
      var k := Taken(e.writes, FRAME_SIZE);
      assert (s.sent + [s.frame])[..|s.sent|] == s.sent;
      assert OnWire(s.sent + [s.frame]) == OnWire(s.sent) + frame;
      if s.wire + frame[..k] == OnWire(s.sent) + frame {
        assert k == |frame| && |s.wire| == |OnWire(s.sent)|;
        assert s.wire == (s.wire + frame[..k])[..|s.wire|] == (OnWire(s.sent) + frame)[..|s.wire|] == OnWire(s.sent);
      }
    }
  }

  /** Over any run from the start, the widget has the frames sent, one after the other, exactly if each of them was taken
      whole; once one was not, nothing sent later makes up for it. */
  lemma {:induction false} WireIsSentIff(start: int, interval: nat, h: seq<LinkEvent>)
    ensures var r := Run(Started(start), interval, h);
      && |r.wire| <= |OnWire(r.sent)|
      && (r.wire == OnWire(r.sent) <==> AlwaysWhole(Started(start), interval, h))
  {
    if h != [] {
      hide Step, Sends;
      WireIsSentIff(start, interval, h[..|h| - 1]);
      StepWrites(Run(Started(start), interval, h[..|h| - 1]), interval, h[|h| - 1]);
    }
  }

  /** One update and one poll whose writes all fail: the frame counts as sent, nothing is pending, and the widget has
      received nothing. */
  lemma FailedSendIsForgotten(start: int, interval: nat, base: seq<byte>)
    requires |base| == DMX_SIZE
    ensures var h := [Event.Update(base), Event.Poll(start + interval + 1, Writes(0, 0, 0, false))];
      var r := Run(Started(start), interval, h);
      !r.isNew && r.sent == [[START_CODE] + base] && r.frame == [START_CODE] + base && r.wire == []
  {
    var e, p := Event.Update(base), Event.Poll(start + interval + 1, Writes(0, 0, 0, false));
    var s := Started(start);
    assert [e, p][..1] == [e] && [e][..0] == [];
    assert Run(s, interval, []) == s;
    assert Run(s, interval, [e]) == Step(s, interval, e);
    assert Run(s, interval, [e, p]) == Step(Step(s, interval, e), interval, p);
  }
}
