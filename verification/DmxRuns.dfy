/** What the merge guarantees over whole runs of packets and mode changes on one output port. */
module DmxRuns {
  import opened Base
  import opened Artnet
  import opened Ports
  import opened DmxMerge

  datatype Event = Dmx(from: nat, data: seq<byte>, now: int) | SetMode(mode: MergeMode)

  type PortEvent = e: Event | e.Dmx? ==> e.from > 0 && |e.data| <= DMX_LENGTH
    witness SetMode(HTP)

  function Initial(): (r: Merge)
    ensures Shape(r) && forall c :: 0 <= c < DMX_LENGTH ==> r.data[c] == r.dataA[c] == r.dataB[c] == 0
    ensures r.mode == HTP && r.length == r.timeA == r.timeB == r.ipA == r.ipB == 0
  {
    var zeros := seq(DMX_LENGTH, _ => 0);
    Merge(0, zeros, HTP, zeros, zeros, 0, 0, 0, 0)
  }

  function Step(s: Merge, e: PortEvent): (r: Merge)
    requires Shape(s)
    ensures Shape(r)
  {
    match e
    case Dmx(from, data, now) => Receive(s, from, data, now)
    case SetMode(mode) => s.(mode := mode)
  }

  function RunFrom(s: Merge, h: seq<PortEvent>): (r: Merge)
    requires Shape(s)
    ensures Shape(r)
  {
    if h == [] then s else Step(RunFrom(s, h[..|h| - 1]), h[|h| - 1])
  }

  function Run(h: seq<PortEvent>): (r: Merge)
    ensures Shape(r)
  {
    RunFrom(Initial(), h)
  }

  // Which slot a sender is stored in: the table of the source, by rows.

  datatype Slot = A | B

  /** The slot a packet from `from` is stored in: the sender's own, else A if both are empty, else B if it is empty. */
  function SlotFor(s: Merge, from: nat): Option<Slot> {
    if s.ipA == from then Some(A)
    else if s.ipB == from then Some(B)
    else if s.ipB != 0 then None
    else if s.ipA == 0 then Some(A)
    else Some(B)
  }

  /** Whether the packet is output merged: some other sender held a slot when it arrived. */
  predicate Merges(s: Merge, from: nat) {
    (s.ipA != 0 && s.ipA != from) || (s.ipB != 0 && s.ipB != from)
  }

  predicate Distinct(s: Merge) {
    s.ipA != s.ipB || s.ipA == 0
  }

  lemma {:induction false} SlotsStayDistinct(h: seq<PortEvent>)
    ensures Distinct(Run(h))
  {
    if h != [] {
      SlotsStayDistinct(h[..|h| - 1]);
    }
  }

  /** The packet is in slot A afterwards, and slot B's data and time are as they were; likewise StoredB. */
  predicate StoredA(s: Merge, r: Merge, data: seq<byte>, now: int)
    requires Shape(s) && |data| <= DMX_LENGTH
  {
    (r.dataA, r.timeA, r.length, r.dataB, r.timeB) == (Splice(s.dataA, 0, data), now, |data|, s.dataB, s.timeB)
  }

  predicate StoredB(s: Merge, r: Merge, data: seq<byte>, now: int)
    requires Shape(s) && |data| <= DMX_LENGTH
  {
    (r.dataB, r.timeB, r.length, r.dataA, r.timeA) == (Splice(s.dataB, 0, data), now, |data|, s.dataA, s.timeA)
  }

  /** In every reachable state: a sender holding a slot has its packet stored in that slot; an unknown sender is stored,
      and gains a slot, exactly if slot B was empty on entry, and otherwise nothing of the data changes. No one else
      gains a slot, and the two never have the same holder afterwards. */
  lemma SlotDiscipline(h: seq<PortEvent>, from: nat, data: seq<byte>, now: int)
    requires from > 0 && |data| <= DMX_LENGTH
    ensures var s := Run(h);
      var r := Receive(s, from, data, now);
      && (s.ipA == from ==> StoredA(s, r, data, now) && r.ipA in {0, from} && r.ipB in {0, s.ipB})
      && (s.ipB == from ==> StoredB(s, r, data, now) && r.ipB in {0, from} && r.ipA in {0, s.ipA})
      && (from !in {s.ipA, s.ipB} ==>
           && (from in {r.ipA, r.ipB} <==> s.ipB == 0)
           && (s.ipB == 0 && s.ipA == 0 ==> StoredA(s, r, data, now) && r.ipA == from && r.ipB == 0)
           && (s.ipB == 0 && s.ipA != 0 ==> StoredB(s, r, data, now) && r.ipB == from && r.ipA in {0, s.ipA})
           && (s.ipB != 0 ==> r == s.(ipA := r.ipA, ipB := r.ipB) && r.ipA in {0, s.ipA} && r.ipB in {0, s.ipB}))
      && Distinct(r)
  {
    SlotsStayDistinct(h);
    ReceiveByTable(Run(h), from, data, now);
  }

  /** The cascade of cases does what the table says: the packet lands in its slot, a new sender takes the slot, and
      any slot, even the sender's own, that was older than the timeout on arrival is emptied. */
  lemma ReceiveByTable(s: Merge, from: nat, data: seq<byte>, now: int)
    requires Shape(s) && Distinct(s) && from > 0 && |data| <= DMX_LENGTH
    ensures var e, r := Expire(s, now), Receive(s, from, data, now);
      match SlotFor(s, from)
      case Some(A) =>
        && (r.dataA, r.timeA, r.length) == (Splice(s.dataA, 0, data), now, |data|)
        && (r.dataB, r.timeB, r.ipB, r.mode) == (s.dataB, s.timeB, e.ipB, s.mode)
        && r.ipA == if s.ipA == 0 then from else e.ipA
      case Some(B) =>
        && (r.dataB, r.timeB, r.length) == (Splice(s.dataB, 0, data), now, |data|)
        && (r.dataA, r.timeA, r.ipA, r.mode) == (s.dataA, s.timeA, e.ipA, s.mode)
        && r.ipB == if s.ipB == 0 then from else e.ipB
      case None => r == s.(ipA := e.ipA, ipB := e.ipB)
  {
  }

  lemma OutputByTable(s: Merge, from: nat, data: seq<byte>, now: int, c: nat)
    requires Shape(s) && Distinct(s) && from > 0 && |data| <= DMX_LENGTH && c < DMX_LENGTH
    ensures var r := Receive(s, from, data, now);
      r.data[c] ==
        if SlotFor(s, from).None? || c >= |data| then s.data[c]
        else if Merges(s, from) && s.mode == HTP then Max(r.dataA[c], r.dataB[c])
        else data[c]
  {
  }

  /** The output after a packet, from the holders on entry alone: nothing changes if both slots are held by others, or if
      slot B is; the packet is output as it is if no one else holds a slot; else the larger of the slots (HTP) or the
      packet (LTP). */
  lemma OutputByHolders(h: seq<PortEvent>, from: nat, data: seq<byte>, now: int, c: nat)
    requires from > 0 && |data| <= DMX_LENGTH && c < DMX_LENGTH
    ensures var s := Run(h);
      var r := Receive(s, from, data, now);
      r.data[c] ==
        if c >= |data| || (s.ipA != from && s.ipB != from && s.ipB != 0) then s.data[c]
        else if s.mode == LTP || (s.ipA in {0, from} && s.ipB in {0, from}) then data[c]
        else if r.dataA[c] > r.dataB[c] then r.dataA[c] else r.dataB[c]
  {
    SlotsStayDistinct(h);
    OutputByTable(Run(h), from, data, now, c);
  }

  /** A packet that announces `n` channels, on an enabled port on its universe that no one else holds: exactly its first
      min(n, 512) channels are output. */
  lemma ChannelsReachOutput(h: seq<PortEvent>, port: GPort, callbacks: nat, p: DmxPacket, n: nat, now: int, c: nat)
    requires WellFormed(p) && p.lengthHi as int == n / 256 && p.length as int == n % 256 && c < 512
    requires port.enabled && port.addr as int == p.universe
    requires Run(h).ipA in {0, p.from} && Run(h).ipB in {0, p.from}
    ensures Handled(Snapshot(port, Run(h), callbacks), p, now).merge.data[c] ==
      if c < n then p.data[c] else Run(h).data[c]
  {
    hide Handled, Receive;
    HandledIs(Snapshot(port, Run(h), callbacks), p, n, now);
    var m := if n < 512 then n else 512;
    OutputByHolders(h, p.from, p.data[..m], now, c);
  }

  /** Who holds the slots afterwards: ten seconds without a packet cost a holder its slot, to the second. */
  lemma HoldersAfter(h: seq<PortEvent>, from: nat, data: seq<byte>, now: int)
    requires from > 0 && |data| <= DMX_LENGTH
    ensures var s := Run(h);
      var r := Receive(s, from, data, now);
      && r.ipA == (if s.ipA == 0 then (if s.ipB == 0 then from else 0)
                   else if now - s.timeA > 10 then 0 else s.ipA)
      && r.ipB == (if s.ipB == 0 then (if s.ipA in {0, from} then 0 else from)
                   else if now - s.timeB > 10 then 0 else s.ipB)
      && r.mode == s.mode
  {
    SlotsStayDistinct(h);
    ReceiveByTable(Run(h), from, data, now);
  }

  /** The value of the latest packet stored in `slot` that covered channel `c`, 0 if there is none. */
  function Latest(h: seq<PortEvent>, slot: Slot, c: nat): byte {
    if h == [] then 0 else
    var before, e := h[..|h| - 1], h[|h| - 1];
    if e.Dmx? && SlotFor(Run(before), e.from) == Some(slot) && c < |e.data| then e.data[c]
    else Latest(before, slot, c)
  }

  /** Each slot's buffer is the channel-wise history of what was stored in it. */
  lemma {:induction false} SlotsHoldLatest(h: seq<PortEvent>, c: nat)
    requires c < DMX_LENGTH
    ensures Run(h).dataA[c] == Latest(h, A, c)
    ensures Run(h).dataB[c] == Latest(h, B, c)
  {
    if h != [] {
      var before, e := h[..|h| - 1], h[|h| - 1];
      SlotsHoldLatest(before, c);
      SlotsStayDistinct(before);
      if e.Dmx? {
        ReceiveByTable(Run(before), e.from, e.data, e.now);
      }
    }
  }

  /** The output after any packet of any run, channel by channel, in terms of the packets alone. */
  lemma OutputAfterPacket(h: seq<PortEvent>, e: PortEvent, c: nat)
    requires e.Dmx? && c < DMX_LENGTH
    ensures Run(h + [e]).data[c] ==
      if SlotFor(Run(h), e.from).None? || c >= |e.data| then Run(h).data[c]
      else if Merges(Run(h), e.from) && Run(h).mode == HTP then Max(Latest(h + [e], A, c), Latest(h + [e], B, c))
      else e.data[c]
  {
    assert (h + [e])[..|h|] == h;
    SlotsStayDistinct(h);
    SlotsHoldLatest(h + [e], c);
    OutputByTable(Run(h), e.from, e.data, e.now, c);
  }

  // Leaving the merge.

  /** Only `x` holds a slot, if anyone does. */
  predicate Solo(s: Merge, x: nat) {
    (s.ipA in {0, x} && s.ipB == 0) || (s.ipA == 0 && s.ipB == x)
  }

  /** A packet from a holder, with the other slot's last packet more than 10 s old, empties the other slot. */
  lemma StaleSlotCleared(s: Merge, x: nat, data: seq<byte>, now: int)
    requires Shape(s) && Distinct(s) && x > 0 && |data| <= DMX_LENGTH
    requires (s.ipA == x && now - s.timeB > MERGE_TIMEOUT) || (s.ipB == x && now - s.timeA > MERGE_TIMEOUT)
    ensures var r := Receive(s, x, data, now);
      Solo(r, x) && (s.ipA == x ==> r.ipB == 0) && (s.ipB == x ==> r.ipA == 0)
  {
  }

  /** No sender but `x` is stored during `h`. */
  predicate OnlyStores(s: Merge, x: nat, h: seq<PortEvent>)
    requires Shape(s)
  {
    h == [] ||
    (var before, e := h[..|h| - 1], h[|h| - 1];
     OnlyStores(s, x, before) && (e.Dmx? && e.from != x ==> SlotFor(RunFrom(s, before), e.from).None?))
  }

  /** From then on, until a different sender is stored, every packet from `x` is output verbatim, even if `x`
      itself times out in between: at most the one frame that cleared the slot was merged with stale data. */
  lemma {:induction false} MergeRecovery(s: Merge, x: nat, h: seq<PortEvent>, data: seq<byte>, now: int)
    requires Shape(s) && Solo(s, x) && x > 0 && OnlyStores(s, x, h) && |data| <= DMX_LENGTH
    ensures Solo(RunFrom(s, h), x)
    ensures var before := RunFrom(s, h);
      Receive(before, x, data, now).data == Splice(before.data, 0, data)
  {
    if h != [] {
      MergeRecovery(s, x, h[..|h| - 1], data, now);
    }
  }

  lemma {:induction false} RunConcat(h1: seq<PortEvent>, h2: seq<PortEvent>)
    ensures Run(h1 + h2) == RunFrom(Run(h1), h2)
  {
    if h2 == [] {
      assert h1 + h2 == h1;
    } else {
      RunConcat(h1, h2[..|h2| - 1]);
      assert (h1 + h2)[..|h1 + h2| - 1] == h1 + h2[..|h2| - 1];
    }
  }

  /** Put together, over whole runs: once a packet `p` from a sender holding a slot has arrived more than 10 s after
      the last packet of the other slot, every later packet `q` of that sender is output verbatim until a different
      sender is stored. Only `p` itself may have been merged with the stale slot. */
  lemma MergeRecoveryOverRuns(h1: seq<PortEvent>, p: PortEvent, h2: seq<PortEvent>, q: PortEvent)
    requires p.Dmx? && q.Dmx? && q.from == p.from
    requires var s := Run(h1);
      || (s.ipA == p.from && p.now - s.timeB > MERGE_TIMEOUT)
      || (s.ipB == p.from && p.now - s.timeA > MERGE_TIMEOUT)
    requires OnlyStores(Run(h1 + [p]), p.from, h2)
    ensures var before := Run(h1 + [p] + h2);
      Run(h1 + [p] + h2 + [q]).data == Splice(before.data, 0, q.data)
  {
    var s := Run(h1);
    SlotsStayDistinct(h1);
    StaleSlotCleared(s, p.from, p.data, p.now);
    assert (h1 + [p])[..|h1|] == h1;
    MergeRecovery(Run(h1 + [p]), p.from, h2, q.data, q.now);
    RunConcat(h1 + [p], h2);
    assert (h1 + [p] + h2 + [q])[..|h1 + [p] + h2|] == h1 + [p] + h2;
  }

  lemma RunMore(h: seq<PortEvent>, e: PortEvent)
    ensures Run([]) == Initial() && Run(h + [e]) == Step(Run(h), e)
  {
    assert (h + [e])[..|h|] == h;
  }

  /** Three packets reach the state in which the truth table of the source promises a merge: slot A empty and slot B held
      by `y`. Any other sender's packet is discarded there. */
  lemma DiscardReached(x: nat, y: nat, z: nat, d: seq<byte>, now: int)
    requires x > 0 && y > 0 && z > 0 && y !in {x, z} && |d| <= DMX_LENGTH && 11 <= now <= 21
    ensures var h: seq<PortEvent> := [Dmx(x, d, 0), Dmx(y, d, 1), Dmx(y, d, 11)];
      && Run(h).ipA == 0 && Run(h).ipB == y
      && Receive(Run(h), z, d, now) == Run(h)
  {
    var e1: PortEvent, e2: PortEvent, e3: PortEvent := Dmx(x, d, 0), Dmx(y, d, 1), Dmx(y, d, 11);
    RunMore([], e1);
    RunMore([e1], e2);
    RunMore([e1, e2], e3);
    assert [] + [e1] == [e1] && [e1] + [e2] == [e1, e2] && [e1, e2] + [e3] == [e1, e2, e3];
    hide Run;
    var s1 := Step(Initial(), e1);
    assert s1.ipA == x && s1.ipB == 0 && s1.timeA == 0;
    var s2 := Step(s1, e2);
    assert s2.ipA == x && s2.ipB == y && s2.timeA == 0 && s2.timeB == 1;
  }
}
