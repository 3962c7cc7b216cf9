/** Merging two DMX sources on an output port: `handle_dmx`, `check_merge_timeouts`, `merge`. */
module DmxMerge {
  import opened Base
  import opened Artnet
  import opened Ports

  const MERGE_TIMEOUT := 10 // seconds

  predicate Shape(s: Merge) {
    |s.data| == |s.dataA| == |s.dataB| == DMX_LENGTH
  }

  /** `check_merge_timeouts`. */
  function Expire(s: Merge, now: int): Merge {
    s.(ipA := if now - s.timeA > MERGE_TIMEOUT then 0 else s.ipA,
       ipB := if now - s.timeB > MERGE_TIMEOUT then 0 else s.ipB)
  }

  function StoreA(s: Merge, data: seq<byte>, now: int): (r: Merge)
    requires Shape(s) && |data| <= DMX_LENGTH
    ensures Shape(r)
  {
    s.(timeA := now, dataA := Splice(s.dataA, 0, data), length := |data|)
  }

  function StoreB(s: Merge, data: seq<byte>, now: int): (r: Merge)
    requires Shape(s) && |data| <= DMX_LENGTH
    ensures Shape(r)
  {
    s.(timeB := now, dataB := Splice(s.dataB, 0, data), length := |data|)
  }

  function Output(s: Merge, data: seq<byte>): (r: Merge)
    requires Shape(s) && |data| <= DMX_LENGTH
    ensures Shape(r)
  {
    s.(data := Splice(s.data, 0, data))
  }

  /** `merge`, given the newest data. */
  function Mix(s: Merge, latest: seq<byte>): (r: Merge)
    requires Shape(s) && |latest| <= DMX_LENGTH
    ensures Shape(r)
  {
    if s.mode == HTP then
      Output(s, seq(|latest|, i requires 0 <= i < |latest| => Max(s.dataA[i], s.dataB[i])))
    else
      Output(s, latest)
  }

  /** A packet for this port: the cases compare the slots as they were before the timeouts were checked. */
  function Receive(s: Merge, from: nat, data: seq<byte>, now: int): (r: Merge)
    requires Shape(s) && from > 0 && |data| <= DMX_LENGTH
    ensures Shape(r)
  {
    var e := Expire(s, now);
    if s.ipA == 0 && s.ipB == 0 then Output(StoreA(e.(ipA := from), data, now), data)
    else if s.ipA == from && s.ipB == 0 then Output(StoreA(e, data, now), data)
    else if s.ipA == 0 && s.ipB == from then Output(StoreB(e, data, now), data)
    else if s.ipA != from && s.ipB == 0 then Mix(StoreB(e.(ipB := from), data, now), data)
    else if s.ipA == from && s.ipB != from then Mix(StoreA(e, data, now), data)
    else if s.ipA != from && s.ipB == from then Mix(StoreB(e, data, now), data)
    else e
  }

  datatype DmxPacket = DmxPacket(from: nat, universe: nat, lengthHi: byte, length: byte, data: seq<byte>)

  predicate WellFormed(p: DmxPacket) {
    p.from > 0 && p.universe < 0x1_0000 && |p.data| == DMX_LENGTH
  }

  function DataLength(p: DmxPacket): nat {
    Min(p.lengthHi as int * 0x100 + p.length as int, DMX_LENGTH)
  }

  method CheckMergeTimeouts(port: OutputPort, now: int)
    modifies port`ipA, port`ipB
    ensures port.View() == Expire(old(port.View()), now)
    ensures port.ipA == (if now - port.timeA > 10 then 0 else old(port.ipA))
    ensures port.ipB == (if now - port.timeB > 10 then 0 else old(port.ipB))
  {
    var timeoutA := now - port.timeA;
    var timeoutB := now - port.timeB;
    if timeoutA > MERGE_TIMEOUT {
      port.ipA := 0;
    }
    if timeoutB > MERGE_TIMEOUT {
      port.ipB := 0;
    }
  }

  method DoMerge(port: OutputPort, length: nat, latest: array<byte>)
    requires port.Valid() && length <= DMX_LENGTH && latest in {port.dataA, port.dataB}
    modifies port.data
    ensures port.View() == Mix(old(port.View()), old(latest[..length]))
    ensures forall c :: 0 <= c < DMX_LENGTH ==>
      port.data[c] == if c >= length then old(port.data[c])
                      else if port.mergeMode == LTP then old(latest[c])
                      else if old(port.dataA[c]) > old(port.dataB[c]) then old(port.dataA[c]) else old(port.dataB[c])
  {
    ghost var s := port.View();
    if port.mergeMode == HTP {
      var i := 0;
      while i < length
        invariant i <= length
        invariant port.dataA[..] == s.dataA && port.dataB[..] == s.dataB
        invariant forall c :: 0 <= c < DMX_LENGTH ==>
          port.data[c] == if c < i then Max(s.dataA[c], s.dataB[c]) else s.data[c]
      {
        port.data[i] := Max(port.dataA[i], port.dataB[i]);
        i := i + 1;
      }
    } else {
      Memcpy(port.data, 0, latest[..length]);
    }
    assert port.data[..] == Mix(s, old(latest[..length])).data;
  }

  /** Stores a packet in slot A; likewise PutB. */
  method PutA(port: OutputPort, data: seq<byte>, now: int)
    requires port.Valid() && |data| <= DMX_LENGTH
    modifies port`timeA, port`length, port.dataA
    ensures port.View() == StoreA(old(port.View()), data, now)
    ensures port.dataA[..|data|] == data
  {
    port.timeA := now;
    Memcpy(port.dataA, 0, data);
    port.length := |data|;
    assert port.dataA[..|data|] == port.dataA[..][..|data|] == data;
  }

  method PutB(port: OutputPort, data: seq<byte>, now: int)
    requires port.Valid() && |data| <= DMX_LENGTH
    modifies port`timeB, port`length, port.dataB
    ensures port.View() == StoreB(old(port.View()), data, now)
    ensures port.dataB[..|data|] == data
  {
    port.timeB := now;
    Memcpy(port.dataB, 0, data);
    port.length := |data|;
    assert port.dataB[..|data|] == port.dataB[..][..|data|] == data;
  }

  method PutData(port: OutputPort, data: seq<byte>)
    requires port.Valid() && |data| <= DMX_LENGTH
    modifies port.data
    ensures port.View() == Output(old(port.View()), data)
  {
    Memcpy(port.data, 0, data);
  }

  /** The body of the port loop of `handle_dmx`. */
  method ReceiveOnPort(port: OutputPort, from: nat, packet: seq<byte>, length: nat, now: int)
    requires port.Valid() && from > 0 && length <= |packet| == DMX_LENGTH
    modifies port, port.data, port.dataA, port.dataB
    ensures port.View() == Receive(old(port.View()), from, packet[..length], now)
    ensures port.port == old(port.port) && port.callbacks == old(port.callbacks) + 1
  {
    hide Mix, Output;
    var ipA, ipB := port.ipA, port.ipB;
    var data := packet[..length];
    CheckMergeTimeouts(port, now);
    if ipA == 0 && ipB == 0 {
      port.ipA := from;
      PutA(port, data, now);
      PutData(port, data);
    } else if ipA == from && ipB == 0 {
      PutA(port, data, now);
      PutData(port, data);
    } else if ipA == 0 && ipB == from {
      PutB(port, data, now);
      PutData(port, data);
    } else if ipA != from && ipB == 0 {
      port.ipB := from;
      PutB(port, data, now);
      DoMerge(port, length, port.dataB);
    } else if ipA == from && ipB != from {
      PutA(port, data, now);
      DoMerge(port, length, port.dataA);
    } else if ipA != from && ipB == from {
      PutB(port, data, now);
      DoMerge(port, length, port.dataB);
    }
    port.callbacks := port.callbacks + 1;
  }

  ghost predicate Separate(outs: seq<OutputPort>) {
    && |outs| == MAX_PORTS
    && (forall i :: 0 <= i < MAX_PORTS ==> outs[i].Valid())
    && (forall i, j :: 0 <= i < j < MAX_PORTS ==> outs[i].Repr() !! outs[j].Repr())
  }

  ghost function Footprint(outs: seq<OutputPort>): set<object>
    requires |outs| == MAX_PORTS
  {
    outs[0].Repr() + outs[1].Repr() + outs[2].Repr() + outs[3].Repr()
  }

  predicate Matches(port: GPort, p: DmxPacket) {
    p.universe == port.addr && port.enabled
  }

  /** A whole output port: its shared part, its merge state, and how often its callback was called. */
  datatype Snapshot = Snapshot(port: GPort, merge: Merge, callbacks: nat)

  ghost function Look(port: OutputPort): (r: Snapshot)
    requires port.Valid()
    reads port.Repr()
    ensures Shape(r.merge)
  {
    Snapshot(port.port, port.View(), port.callbacks)
  }

  /** What `handle_dmx` does to one port: a matching port receives the packet and its callback is called; any
      other port is left alone. */
  function Handled(s: Snapshot, p: DmxPacket, now: int): Snapshot
    requires Shape(s.merge) && WellFormed(p)
  {
    if !Matches(s.port, p) then s
    else s.(merge := Receive(s.merge, p.from, p.data[..DataLength(p)], now), callbacks := s.callbacks + 1)
  }

  /** A packet that announces `n` channels hands its first min(n, 512) to a port that is enabled and on its universe, once,
      and leaves any other port as it was. */
  predicate IsReceived(s: Snapshot, r: Snapshot, p: DmxPacket, n: nat, now: int)
    requires Shape(s.merge) && WellFormed(p)
  {
    if s.port.enabled && s.port.addr as int == p.universe then
      && r.port == s.port && r.callbacks == s.callbacks + 1
      && r.merge == Receive(s.merge, p.from, p.data[..if n < 512 then n else 512], now)
    else r == s
  }

  /** The high byte of the length comes first. */
  lemma HandledIs(s: Snapshot, p: DmxPacket, n: nat, now: int)
    requires Shape(s.merge) && WellFormed(p) && p.lengthHi as int == n / 256 && p.length as int == n % 256
    ensures IsReceived(s, Handled(s, p, now), p, n, now)
  {
  }

  /** One round of the port loop. */
  method HandleOnPort(port: OutputPort, p: DmxPacket, length: nat, now: int)
    requires port.Valid() && WellFormed(p) && length == DataLength(p)
    modifies port.Repr()
    ensures Look(port) == Handled(old(Look(port)), p, now)
  {
    if p.universe == port.port.addr && port.port.enabled {
      ReceiveOnPort(port, p.from, p.data, length, now);
    }
  }

  /** The port loop. */
  method HandleOnPorts(outs: seq<OutputPort>, p: DmxPacket, length: nat, now: int)
    requires Separate(outs) && WellFormed(p) && length == DataLength(p)
    modifies Footprint(outs)
    ensures forall i :: 0 <= i < MAX_PORTS ==> Look(outs[i]) == Handled(old(Look(outs[i])), p, now)
  {
    hide Look, Handled, DataLength;
    var i := 0;
    while i < MAX_PORTS
      invariant i <= MAX_PORTS
      invariant forall j :: 0 <= j < i ==> Look(outs[j]) == Handled(old(Look(outs[j])), p, now)
      invariant forall j :: i <= j < MAX_PORTS ==> Look(outs[j]) == old(Look(outs[j]))
    {
      label Before:
      HandleOnPort(outs[i], p, length, now);
      forall j | 0 <= j < MAX_PORTS && j != i
        ensures Look(outs[j]) == old@Before(Look(outs[j]))
      {
        assert outs[j].Repr() !! outs[i].Repr();
      }
      i := i + 1;
    }
  }

  lemma HandledIsReceived(p: DmxPacket, now: int)
    requires WellFormed(p)
    ensures forall s: Snapshot :: Shape(s.merge) ==>
      IsReceived(s, Handled(s, p, now), p, p.lengthHi as int * 256 + p.length as int, now)
  {
    forall s: Snapshot | Shape(s.merge)
      ensures IsReceived(s, Handled(s, p, now), p, p.lengthHi as int * 256 + p.length as int, now)
    {
      HandledIs(s, p, p.lengthHi as int * 256 + p.length as int, now);
    }
  }

  /** `handle_dmx`: every enabled output port on the packet's universe receives it. */
  method HandleDmx(outs: seq<OutputPort>, p: DmxPacket, now: int)
    requires Separate(outs) && WellFormed(p)
    modifies Footprint(outs)
    ensures forall i :: 0 <= i < MAX_PORTS ==> Look(outs[i]) == Handled(old(Look(outs[i])), p, now)
    ensures forall i :: 0 <= i < MAX_PORTS ==>
      IsReceived(old(Look(outs[i])), Look(outs[i]), p, p.lengthHi as int * 256 + p.length as int, now)
  {
    HandledIsReceived(p, now);
    hide Look, Handled, IsReceived;
    var length := DataLength(p);
    HandleOnPorts(outs, p, length, now);
  }
}
