/** Groups of joined nodes: `artnet_join`, and the walks round the ring in `artnet_read` and `artnet_net_start`. */
module PeerRing {
  import opened Base
  import opened Artnet

  datatype Mode = OFF | STANDBY | ON

  /** What a node was asked to do while its group was reading. */
  datatype PeerEvent = TimeoutsChecked | Handled(bytes: seq<byte>)

  class Peer {
    var peer: Peer?
    var master: bool
    var mode: Mode
    var sd: int
    ghost var events: seq<PeerEvent>

    constructor ()
      ensures peer == null && master && mode == STANDBY && sd == -1 && events == []
    {
      peer, master, mode, sd, events := null, true, STANDBY, -1, [];
    }
  }

  function Next(i: nat, n: nat): nat {
    if i + 1 < n then i + 1 else 0
  }

  ghost predicate NoDuplicates(r: seq<Peer>) {
    forall i, j :: 0 <= i < j < |r| ==> r[i] != r[j]
  }

  /** The nodes of `r` form one cycle, in this order. */
  ghost predicate Ring(r: seq<Peer>)
    reads r
  {
    && r != [] && NoDuplicates(r)
    && forall i :: 0 <= i < |r| ==> r[i].peer == r[Next(i, |r|)]
  }

  /** A cycle, or a node that was never joined. */
  ghost predicate Group(r: seq<Peer>)
    reads r
  {
    Ring(r) || (|r| == 1 && r[0].peer == null)
  }

  ghost function Rotated(r: seq<Peer>, k: nat): (q: seq<Peer>)
    requires k < |r|
    ensures |q| == |r|
    ensures forall i :: 0 <= i < |r| ==> q[i] == r[if k + i < |r| then k + i else k + i - |r|]
  {
    r[k..] + r[..k]
  }

  lemma RotatedIsRing(r: seq<Peer>, k: nat)
    requires Ring(r) && k < |r|
    ensures Ring(Rotated(r, k))
  {
    var q := Rotated(r, k);
    forall i | 0 <= i < |q|
      ensures q[i].peer == q[Next(i, |q|)]
    {
      var j := if k + i < |r| then k + i else k + i - |r|;
      assert q[i] == r[j] && q[Next(i, |q|)] == r[Next(j, |r|)];
    }
  }

  lemma {:induction false} SameUpTo(a: seq<Peer>, b: seq<Peer>, i: nat)
    requires Ring(a) && Ring(b) && a[0] == b[0] && i < |a| && i < |b|
    ensures a[i] == b[i]
  {
    if i > 0 {
      SameUpTo(a, b, i - 1);
      assert Next(i - 1, |a|) == i == Next(i - 1, |b|);
    }
  }

  lemma NotLonger(a: seq<Peer>, b: seq<Peer>)
    requires Ring(a) && Ring(b) && a[0] == b[0]
    ensures |a| >= |b|
  {
    if |a| < |b| {
      assert Next(|a| - 1, |b|) == |a|;
      SameUpTo(a, b, |a| - 1);
    }
  }

  /** A node lies on at most one cycle. */
  lemma RingsEqual(a: seq<Peer>, b: seq<Peer>)
    requires Ring(a) && Ring(b) && a[0] == b[0]
    ensures a == b
  {
    NotLonger(a, b);
    NotLonger(b, a);
    forall i | 0 <= i < |a|
      ensures a[i] == b[i]
    {
      SameUpTo(a, b, i);
    }
  }

  /** Two groups are disjoint, or each is the other, started elsewhere. */
  lemma GroupsDisjointOrEqual(r1: seq<Peer>, r2: seq<Peer>)
    requires Group(r1) && Group(r2)
    ensures if r2[0] in r1 then exists k :: 0 <= k < |r1| && r2 == Rotated(r1, k)
            else forall p :: p in r1 ==> p !in r2
  {
    forall i, j | 0 <= i < |r1| && 0 <= j < |r2| && r1[i] == r2[j]
      ensures Rotated(r1, i) == Rotated(r2, j) && r2[0] in r1
    {
      if Ring(r1) && Ring(r2) {
        RotatedIsRing(r1, i);
        RotatedIsRing(r2, j);
        RingsEqual(Rotated(r1, i), Rotated(r2, j));
        assert Rotated(r2, j)[if j == 0 then 0 else |r2| - j] == r2[0];
      }
    }
    if r2[0] in r1 {
      var k :| 0 <= k < |r1| && r1[k] == r2[0];
      assert Rotated(r2, 0) == r2;
    }
  }

  /** The group after joining: the second spliced in after the first node, unless it was there already. */
  ghost function Joined(r1: seq<Peer>, r2: seq<Peer>): (r: seq<Peer>)
    requires r1 != [] && r2 != []
    ensures r != [] && r[0] == r1[0]
  {
    if r2[0] in r1 then r1 else [r1[0]] + r2 + r1[1..]
  }

  lemma JoinedMembers(r1: seq<Peer>, r2: seq<Peer>, p: Peer)
    requires Group(r1) && Group(r2)
    ensures p in Joined(r1, r2) <==> p in r1 || p in r2
  {
    GroupsDisjointOrEqual(r1, r2);
    if r2[0] !in r1 {
      assert r1 == [r1[0]] + r1[1..];
    }
  }

  /** The nodes the first loop of `artnet_join` visits, once n1 points at n2. */
  ghost predicate Walk(w: seq<Peer>, n2: Peer)
    reads w
  {
    && w != [] && w[0] == n2
    && (forall i :: 1 <= i < |w| ==> w[i] != n2 && w[i - 1].peer == w[i])
    && w[|w| - 1].peer in {null, n2}
  }

  lemma SplicedIsRing(r1: seq<Peer>, r2: seq<Peer>)
    requires r1 != [] && r2 != [] && NoDuplicates(r1) && NoDuplicates(r2) && forall p :: p in r1 ==> p !in r2
    requires r1[0].peer == r2[0] && r2[|r2| - 1].peer == r1[Next(0, |r1|)]
    requires forall i :: 1 <= i < |r2| ==> r2[i - 1].peer == r2[i]
    requires forall i :: 1 <= i < |r1| ==> r1[i].peer == r1[Next(i, |r1|)]
    ensures Ring([r1[0]] + r2 + r1[1..])
  {
    var r := [r1[0]] + r2 + r1[1..];
    forall i, j | 0 <= i < j < |r|
      ensures r[i] != r[j]
    {
      assert forall k :: 0 <= k < |r| ==> r[k] == if k == 0 then r1[0] else if k <= |r2| then r2[k - 1] else r1[k - |r2|];
      assert forall k :: 0 <= k < |r1| ==> r1[k] in r1;
      assert forall k :: 0 <= k < |r2| ==> r2[k] in r2;
    }
    forall i | 0 <= i < |r|
      ensures r[i].peer == r[Next(i, |r|)]
    {
      if 1 <= i <= |r2| {
        assert r[i] == r2[i - 1];
      } else if i > |r2| {
        assert r[i] == r1[i - |r2|];
      }
    }
  }

  /** The first loop of `artnet_join`: the last node before the walk from n2 ends or returns to n2. */
  method FindLast(n2: Peer, ghost w: seq<Peer>) returns (n: Peer)
    requires Walk(w, n2)
    ensures n == w[|w| - 1]
  {
    n := n2;
    ghost var i := 0;
    while n.peer != null && n.peer != n2
      invariant 0 <= i < |w| && n == w[i]
      invariant i + 1 < |w| ==> w[i + 1] != n2 && n.peer == w[i + 1]
      decreases |w| - i
    {
      n := n.peer;
      i := i + 1;
    }
  }

  /** The walk in a state where n1 already points at n2. */
  lemma WalkOther(r2: seq<Peer>)
    requires Group(r2)
    ensures Walk(r2, r2[0])
  {
  }

  lemma WalkSame(r1: seq<Peer>, k: nat)
    requires r1 != [] && NoDuplicates(r1) && 0 < k < |r1| && r1[0].peer == r1[k]
    requires forall i :: 1 <= i < |r1| ==> r1[i].peer == r1[Next(i, |r1|)]
    ensures Walk(r1[k..] + [r1[0]], r1[k])
  {
    var w := r1[k..] + [r1[0]];
    forall i | 1 <= i < |w|
      ensures w[i] != r1[k] && w[i - 1].peer == w[i]
    {
      assert w[i - 1] == r1[k + i - 1];
    }
  }

  /** The first half of `artnet_join`: exchange the successors of n1 and of the node before n2. */
  method Link(n1: Peer, n2: Peer, ghost r1: seq<Peer>, ghost r2: seq<Peer>)
    requires Group(r1) && Group(r2) && r1[0] == n1 && r2[0] == n2
    modifies (set p | p in r1 || p in r2)`peer
    ensures Ring(Joined(r1, r2))
  {
    assert n2 !in r1 ==> n1 !in r2 && forall p :: p in r1 ==> p !in r2 by {
      GroupsDisjointOrEqual(r1, r2);
    }
    var tmp := if n1.peer == null then n1 else n1.peer;
    assert tmp == r1[Next(0, |r1|)];
    WalkOther(r2);
    n1.peer := n2;
    ghost var w := r2;
    if n1 == n2 {
      w := [n1];
    } else if n2 in r1 {
      ghost var k :| 1 <= k < |r1| && r1[k] == n2;
      w := r1[k..] + [n1];
      WalkSame(r1, k);
    }
    assert Walk(w, n2);
    var n := FindLast(n2, w);
    n.peer := tmp;
    if n2 !in r1 {
      assert n == r2[|r2| - 1] && n in r2 && n1 !in r2;
      forall i | 1 <= i < |r2|
        ensures r2[i - 1].peer == r2[i]
      {
        assert r2[i - 1] in r2 && old(r2[i - 1].peer == r2[Next(i - 1, |r2|)]);
      }
      forall i | 1 <= i < |r1|
        ensures r1[i].peer == r1[Next(i, |r1|)]
      {
        assert r1[i] in r1 && old(r1[i].peer == r1[Next(i, |r1|)]);
      }
      SplicedIsRing(r1, r2);
    } else {
      assert n == n1;
      forall i | 0 <= i < |r1|
        ensures r1[i].peer == r1[Next(i, |r1|)]
      {
        assert i > 0 ==> old(r1[i].peer == r1[Next(i, |r1|)]);
      }
    }
  }

  /** The second half: everyone on the ring but n1 loses the mastership. */
  method OneMaster(n1: Peer, ghost ring: seq<Peer>)
    requires Ring(ring) && ring[0] == n1
    modifies (set p | p in ring)`master
    ensures forall i :: 0 <= i < |ring| ==> (ring[i].master <==> i == 0)
  {
    var n := n1.peer;
    ghost var i := 1;
    while n != n1
      invariant 1 <= i <= |ring| && n == ring[if i < |ring| then i else 0]
      invariant forall j :: 1 <= j < i ==> !ring[j].master
      decreases |ring| - i
    {
      n.master := false;
      n := n.peer;
      i := i + 1;
    }
    n1.master := true;
  }

  /** `artnet_join`. It returns ARTNET_ESTATE when it has joined the groups. */
  method Join(n1: Peer, n2: Peer, ghost r1: seq<Peer>, ghost r2: seq<Peer>) returns (ret: int)
    requires Group(r1) && Group(r2) && r1[0] == n1 && r2[0] == n2
    modifies (set p | p in r1 || p in r2)`peer, (set p | p in r1 || p in r2)`master
    ensures ret == if n1.mode == ON || n2.mode == ON then EACTION else ESTATE
    ensures ret == EACTION ==> forall p :: p in r1 || p in r2 ==> p.peer == old(p.peer) && p.master == old(p.master)
    ensures ret == ESTATE ==> Ring(Joined(r1, r2))
    ensures ret == ESTATE ==> forall i :: 0 <= i < |Joined(r1, r2)| ==> (Joined(r1, r2)[i].master <==> i == 0)
  {
    if n1.mode == ON || n2.mode == ON {
      return EACTION;
    }
    forall p
      ensures p in Joined(r1, r2) <==> p in r1 || p in r2
    {
      JoinedMembers(r1, r2, p);
    }
    Link(n1, n2, r1, r2);
    OneMaster(n1, Joined(r1, r2));
    return ESTATE;
  }

  // All groups together.

  ghost function Nodes(r: seq<Peer>): set<Peer> {
    set p | p in r
  }

  ghost function Members(world: set<seq<Peer>>): set<Peer> {
    set g, p | g in world && p in g :: p
  }

  ghost predicate Disjoint(world: set<seq<Peer>>) {
    forall g, h, p :: g in world && h in world && p in g && p in h ==> g == h
  }

  /** Every node of the world has no peer yet or lies on a cycle, and no two groups share a node. */
  ghost predicate World(world: set<seq<Peer>>)
    reads Members(world)
  {
    Disjoint(world) && forall g <- world :: GroupWithin(g, Members(world))
  }

  ghost predicate GroupWithin(g: seq<Peer>, nodes: set<Peer>)
    reads nodes
  {
    (forall p :: p in g ==> p in nodes) && Group(g)
  }

  lemma MergedGroups(world: set<seq<Peer>>, g1: seq<Peer>, g2: seq<Peer>, joined: seq<Peer>)
    requires Disjoint(world) && g1 in world && g2 in world
    requires Nodes(joined) == Nodes(g1) + Nodes(g2)
    ensures Disjoint(world - {g1, g2} + {joined})
    ensures Members(world - {g1, g2} + {joined}) == Members(world)
  {
    var after := world - {g1, g2} + {joined};
    assert forall p :: p in joined <==> p in Nodes(joined);
    assert forall p, g: seq<Peer> {:trigger p in g} :: p in g <==> p in Nodes(g);
    assert joined in after;
    assert forall g :: g in after <==> g == joined || (g in world && g != g1 && g != g2);
    forall p | p in Members(world)
      ensures p in Members(after)
    {
      var g :| g in world && p in g;
      if g != g1 && g != g2 {
        assert g in after;
      }
    }
  }

  /** Joining any two stopped nodes of a world leaves a world: their groups become one, the others are untouched. */
  method JoinInWorld(n1: Peer, n2: Peer, ghost world: set<seq<Peer>>, ghost g1: seq<Peer>, ghost g2: seq<Peer>)
    returns (ghost after: set<seq<Peer>>, ghost joined: seq<Peer>)
    requires World(world) && g1 in world && g2 in world && n1 in g1 && n2 in g2
    requires n1.mode != ON && n2.mode != ON
    modifies (Nodes(g1) + Nodes(g2))`peer, (Nodes(g1) + Nodes(g2))`master
    ensures World(after) && Members(after) == Members(world)
    ensures after == world - {g1, g2} + {joined} && Ring(joined) && joined[0] == n1
    ensures Nodes(joined) == Nodes(g1) + Nodes(g2)
    ensures forall i :: 0 <= i < |joined| ==> (joined[i].master <==> i == 0)
  {
    hide Ring, Joined, Members;
    WorldMeans(world);
    ghost var r1 := StartAt(g1, n1);
    ghost var r2 := StartAt(g2, n2);
    joined := Joined(r1, r2);
    after := world - {g1, g2} + {joined};
    JoinedGroups(r1, r2);
    MergedGroups(world, g1, g2, joined);
    assert (set p | p in r1 || p in r2) == Nodes(g1) + Nodes(g2) by {
      assert forall p :: p in r1 || p in r2 <==> p in Nodes(r1) || p in Nodes(r2);
    }
    var ret := Join(n1, n2, r1, r2);
    forall g | g in world && g != g1 && g != g2
      ensures Group(g)
    {
      assert old(Group(g));
      forall i | 0 <= i < |g|
        ensures unchanged(g[i])
      {
        assert g[i] in g && g[i] !in g1 && g[i] !in g2 && g[i] !in Nodes(g1) + Nodes(g2);
      }
    }
    WorldFrom(after);
  }

  lemma WorldMeans(world: set<seq<Peer>>)
    requires World(world)
    ensures Disjoint(world) && forall g <- world :: Group(g)
  {
    assert forall g <- world :: GroupWithin(g, Members(world));
  }

  lemma WorldFrom(world: set<seq<Peer>>)
    requires Disjoint(world) && forall g :: g in world ==> Group(g)
    ensures World(world)
  {
  }

  lemma StartAt(g: seq<Peer>, n: Peer) returns (r: seq<Peer>)
    requires Group(g) && n in g
    ensures r != [] && Group(r) && r[0] == n && Nodes(r) == Nodes(g)
  {
    var k :| 0 <= k < |g| && g[k] == n;
    r := Rotated(g, k);
    RotatedGroup(g, k);
  }

  lemma JoinedGroups(r1: seq<Peer>, r2: seq<Peer>)
    requires Group(r1) && Group(r2)
    ensures Nodes(Joined(r1, r2)) == Nodes(r1) + Nodes(r2)
  {
    forall p
      ensures p in Joined(r1, r2) <==> p in r1 || p in r2
    {
      JoinedMembers(r1, r2, p);
    }
  }

  lemma RotatedGroup(r: seq<Peer>, k: nat)
    requires Group(r) && k < |r|
    ensures Group(Rotated(r, k)) && forall p :: p in Rotated(r, k) <==> p in r
  {
    if Ring(r) {
      RotatedIsRing(r, k);
    }
    forall p | p in r
      ensures p in Rotated(r, k)
    {
      var i :| 0 <= i < |r| && r[i] == p;
      assert Rotated(r, k)[if i >= k then i - k else i - k + |r|] == p;
    }
  }

  // Walking the ring.

  /** How the calls that `artnet_net_start` makes turn out, in order. */
  datatype SocketCalls = SocketCalls(socket: int, broadcastOk: bool, reuseOk: bool, bindOk: bool)

  const INVALID_SOCKET := -1

  predicate Succeeds(calls: SocketCalls) {
    calls.socket != INVALID_SOCKET && calls.broadcastOk && calls.reuseOk && calls.bindOk
  }

  /** `artnet_net_start`: only the master of a group opens a socket, and it gives it to every member. */
  method NetStart(n: Peer, calls: SocketCalls, ghost r: seq<Peer>) returns (ret: int)
    requires Group(r) && r[0] == n
    modifies (set p | p in r)`sd
    ensures ret == if n.master && !Succeeds(calls) then ENET else EOK
    ensures Succeeds(calls) <==> calls.socket != -1 && calls.broadcastOk && calls.reuseOk && calls.bindOk
    ensures n.master && Succeeds(calls) ==> forall p :: p in r ==> p.sd == calls.socket
    ensures !(n.master && Succeeds(calls)) ==> forall p :: p in r ==> p.sd == old(p.sd)
  {
    if n.master {
      var sock := calls.socket;
      if sock == INVALID_SOCKET {
        return ENET;
      }
      if !calls.broadcastOk {
        return ENET;
      }
      if !calls.reuseOk {
        return ENET;
      }
      if !calls.bindOk {
        return ENET;
      }
      n.sd := sock;
      var tmp := n.peer;
      ghost var i := 1;
      while tmp != null && tmp != n
        invariant 1 <= i <= |r| && (tmp == null || tmp == r[if i < |r| then i else 0])
        invariant tmp == null ==> |r| == 1
        invariant forall j :: 0 <= j < i ==> r[j].sd == sock
        decreases |r| - i
      {
        tmp.sd := sock;
        tmp := tmp.peer;
        i := i + 1;
      }
    }
    return EOK;
  }

  /** What `artnet_net_recv` does next; a filtered datagram and an interrupted wait both leave length 0. */
  datatype Recv = NoData | Failed(code: int) | Filtered | Datagram(bytes: seq<byte>)

  const ID: seq<byte> := [65, 114, 116, 45, 78, 101, 116, 0] // "Art-Net" and a NUL
  const MIN_PACKET_SIZE := 10

  /** Long enough, the right id, and a non-zero opcode (`get_type`). */
  predicate IsArtNet(bytes: seq<byte>) {
    |bytes| > MIN_PACKET_SIZE && bytes[..8] == ID && bytes[9] as int * 0x100 + bytes[8] as int != 0
  }

  /** What one round of `artnet_read` has a node do: the one it is called on (`own`), or one of its peers. */
  function Round(input: Recv, own: bool): seq<PeerEvent> {
    if input.Datagram? && input.bytes != [] then
      [TimeoutsChecked] + if IsArtNet(input.bytes) then [Handled(input.bytes)] else []
    else if own then [TimeoutsChecked]
    else []
  }

  /** ... and one whole call. When the socket has nothing more to give, that is one last round. */
  function Trace(inputs: seq<Recv>, own: bool): seq<PeerEvent> {
    if inputs == [] then Round(NoData, own)
    else if inputs[0].NoData? || inputs[0].Failed? then Round(inputs[0], own)
    else Round(inputs[0], own) + Trace(inputs[1..], own)
  }

  function Result(inputs: seq<Recv>): int {
    if inputs == [] then EOK
    else match inputs[0]
      case NoData => EOK
      case Failed(code) => code
      case Filtered => Result(inputs[1..])
      case Datagram(_) => Result(inputs[1..])
  }

  method CheckPeers(n: Peer, ghost r: seq<Peer>)
    requires Group(r) && r[0] == n
    modifies (set p | p in r)`events
    ensures n.events == old(n.events)
    ensures forall i :: 1 <= i < |r| ==> r[i].events == old(r[i].events) + [TimeoutsChecked]
  {
    var tmp := n.peer;
    ghost var i := 1;
    while tmp != null && tmp != n
      invariant 1 <= i <= |r| && (tmp == null || tmp == r[if i < |r| then i else 0])
      invariant tmp == null ==> |r| == 1
      invariant n.events == old(n.events)
      invariant forall j :: 1 <= j < i ==> r[j].events == old(r[j].events) + [TimeoutsChecked]
      invariant forall j :: i <= j < |r| ==> r[j].events == old(r[j].events)
      decreases |r| - i
    {
      tmp.events := tmp.events + [TimeoutsChecked];
      tmp := tmp.peer;
      i := i + 1;
    }
  }

  method HandleAll(n: Peer, bytes: seq<byte>, ghost r: seq<Peer>)
    requires Group(r) && r[0] == n
    modifies (set p | p in r)`events
    ensures forall i :: 0 <= i < |r| ==> r[i].events == old(r[i].events) + [Handled(bytes)]
  {
    n.events := n.events + [Handled(bytes)];
    var tmp := n.peer;
    ghost var i := 1;
    while tmp != null && tmp != n
      invariant 1 <= i <= |r| && (tmp == null || tmp == r[if i < |r| then i else 0])
      invariant tmp == null ==> |r| == 1
      invariant forall j :: 0 <= j < i ==> r[j].events == old(r[j].events) + [Handled(bytes)]
      invariant forall j :: i <= j < |r| ==> r[j].events == old(r[j].events)
      decreases |r| - i
    {
      tmp.events := tmp.events + [Handled(bytes)];
      tmp := tmp.peer;
      i := i + 1;
    }
  }

  lemma Associates(a: seq<PeerEvent>, b: seq<PeerEvent>, c: seq<PeerEvent>)
    ensures (a + b) + c == a + (b + c)
  {
  }

  lemma TraceStep(inputs: seq<Recv>, acc: seq<PeerEvent>, own: bool)
    ensures var input := if inputs == [] then NoData else inputs[0];
      if input.NoData? || input.Failed? then acc + Trace(inputs, own) == acc + Round(input, own)
      else acc + Trace(inputs, own) == (acc + Round(input, own)) + Trace(inputs[1..], own)
  {
    hide Round;
  }

  /** One round: check the timeouts, receive `input`, and pass it on if it is a packet. */
  method ReadOne(n: Peer, input: Recv, ghost r: seq<Peer>)
    requires Group(r) && r[0] == n
    modifies (set p | p in r)`events
    ensures Group(r)
    ensures input.Datagram? && input.bytes != [] ==> forall i :: 0 <= i < |r| ==>
      r[i].events == old(r[i].events) + [TimeoutsChecked] + if IsArtNet(input.bytes) then [Handled(input.bytes)] else []
    ensures !input.Datagram? || input.bytes == [] ==>
      n.events == old(n.events) + [TimeoutsChecked] && forall i :: 1 <= i < |r| ==> r[i].events == old(r[i].events)
    ensures n.events == old(n.events) + Round(input, true)
    ensures forall i :: 1 <= i < |r| ==> r[i].events == old(r[i].events) + Round(input, false)
  {
    n.events := n.events + [TimeoutsChecked];
    if input.Datagram? && input.bytes != [] {
      CheckPeers(n, r);
      if IsArtNet(input.bytes) {
        HandleAll(n, input.bytes, r);
      }
    }
  }

  /** `artnet_read` on a group, with `inputs` what the socket yields from now on, then nothing. */
  method Read(n: Peer, inputs: seq<Recv>, ghost r: seq<Peer>) returns (ret: int)
    requires Group(r) && r[0] == n
    modifies (set p | p in r)`events
    ensures n.mode != ON ==> ret == EACTION && forall p :: p in r ==> p.events == old(p.events)
    ensures n.mode == ON ==> ret == Result(inputs)
    ensures n.mode == ON ==> n.events == old(n.events) + Trace(inputs, true)
    ensures n.mode == ON ==> forall i :: 1 <= i < |r| ==> r[i].events == old(r[i].events) + Trace(inputs, false)
  {
    if n.mode != ON {
      return EACTION;
    }
    hide Round, Group, Trace;
    var rest := inputs;
    ghost var own, others: seq<PeerEvent> := [], [];
    while true
      invariant Group(r) && Result(rest) == Result(inputs)
      invariant own + Trace(rest, true) == Trace(inputs, true)
      invariant others + Trace(rest, false) == Trace(inputs, false)
      invariant n.events == old(n.events) + own
      invariant forall i :: 1 <= i < |r| ==> r[i].events == old(r[i].events) + others
      decreases |rest|
    {
      var input := if rest == [] then NoData else rest[0];
      ReadOne(n, input, r);
      TraceStep(rest, own, true);
      TraceStep(rest, others, false);
      Associates(old(n.events), own, Round(input, true));
      forall i | 1 <= i < |r|
        ensures r[i].events == old(r[i].events) + (others + Round(input, false))
      {
        Associates(old(r[i].events), others, Round(input, false));
      }
      own, others := own + Round(input, true), others + Round(input, false);
      if input.NoData? {
        return EOK;
      }
      if input.Failed? {
        return input.code;
      }
      rest := rest[1..];
    }
  }

  /** The datagrams that count, up to where reading stops. */
  function Accepted(inputs: seq<Recv>): seq<seq<byte>> {
    if inputs == [] || inputs[0].NoData? || inputs[0].Failed? then []
    else (if inputs[0].Datagram? && IsArtNet(inputs[0].bytes) then [inputs[0].bytes] else []) + Accepted(inputs[1..])
  }

  function PacketOf(e: PeerEvent): seq<seq<byte>> {
    if e.Handled? then [e.bytes] else []
  }

  function Packets(events: seq<PeerEvent>): seq<seq<byte>> {
    if events == [] then [] else PacketOf(events[0]) + Packets(events[1..])
  }

  lemma {:induction false} PacketsOfConcat(a: seq<PeerEvent>, b: seq<PeerEvent>)
    ensures Packets(a + b) == Packets(a) + Packets(b)
  {
    hide PacketOf;
    if a == [] {
      assert a + b == b;
    } else {
      PacketsOfConcat(a[1..], b);
      assert (a + b)[0] == a[0] && (a + b)[1..] == a[1..] + b;
      assert Packets(a + b) == PacketOf(a[0]) + (Packets(a[1..]) + Packets(b));
    }
  }

  /** The node read on and each of its peers handle every accepted packet once, in order. */
  lemma {:induction false} EveryMemberHandlesOnce(inputs: seq<Recv>, own: bool)
    ensures Packets(Trace(inputs, own)) == Accepted(inputs)
  {
    if inputs != [] && !inputs[0].NoData? && !inputs[0].Failed? {
      EveryMemberHandlesOnce(inputs[1..], own);
      var first := Trace(inputs, own)[..|Trace(inputs, own)| - |Trace(inputs[1..], own)|];
      assert Trace(inputs, own) == first + Trace(inputs[1..], own);
      PacketsOfConcat(first, Trace(inputs[1..], own));
    }
  }

  /** Which datagrams are Art-Net: more than ten bytes, "Art-Net" and a NUL first, and an opcode other than 0 behind. */
  lemma IsArtNetIff(bytes: seq<byte>)
    ensures IsArtNet(bytes) <==>
      && |bytes| > 10
      && bytes[0] == 65 && bytes[1] == 114 && bytes[2] == 116 && bytes[3] == 45
      && bytes[4] == 78 && bytes[5] == 101 && bytes[6] == 116 && bytes[7] == 0
      && (bytes[8] != 0 || bytes[9] != 0)
  {
    if |bytes| > 10 {
      var head := bytes[..8];
      assert head == [bytes[0], bytes[1], bytes[2], bytes[3], bytes[4], bytes[5], bytes[6], bytes[7]];
    }
  }

  /** The inputs up to where reading stops: at the first that is no data or a failure. */
  function Live(inputs: seq<Recv>): (r: seq<Recv>)
    ensures r <= inputs
    ensures forall i <- r :: i.Filtered? || i.Datagram?
    ensures |r| < |inputs| ==> inputs[|r|].NoData? || inputs[|r|].Failed?
  {
    if inputs == [] || inputs[0].NoData? || inputs[0].Failed? then [] else [inputs[0]] + Live(inputs[1..])
  }

  /** A call returns the code of the failure that ends it, else 0. */
  lemma {:induction false} ResultIs(inputs: seq<Recv>)
    ensures Result(inputs) ==
      if |Live(inputs)| < |inputs| && inputs[|Live(inputs)|].Failed? then inputs[|Live(inputs)|].code else 0
  {
    if inputs != [] && !inputs[0].NoData? && !inputs[0].Failed? {
      ResultIs(inputs[1..]);
    }
  }

  function Checks(events: seq<PeerEvent>): nat {
    if events == [] then 0 else Checks(events[..|events| - 1]) + if events[|events| - 1].TimeoutsChecked? then 1 else 0
  }

  lemma {:induction false} ChecksOfConcat(a: seq<PeerEvent>, b: seq<PeerEvent>)
    ensures Checks(a + b) == Checks(a) + Checks(b)
  {
    if b == [] {
      assert a + b == a;
    } else {
      ChecksOfConcat(a, b[..|b| - 1]);
      assert (a + b)[..|a + b| - 1] == a + b[..|b| - 1];
    }
  }

  /** How many of the inputs are datagrams with something in them. */
  function Datagrams(inputs: seq<Recv>): nat {
    if inputs == [] then 0 else (if inputs[0].Datagram? && inputs[0].bytes != [] then 1 else 0) + Datagrams(inputs[1..])
  }

  lemma ChecksOfRound(input: Recv, own: bool)
    ensures Checks(Round(input, own)) == if own || (input.Datagram? && input.bytes != []) then 1 else 0
  {
    var r := Round(input, own);
    if |r| == 2 {
      assert r[..1] == [TimeoutsChecked] && [TimeoutsChecked][..0] == [];
    } else if |r| == 1 {
      assert r[..0] == [];
    }
  }

  /** The timeouts of a peer are checked once for every datagram with something in it, Art-Net or not; those of the node
      read on once in every round, the last one, which finds nothing more, included. */
  lemma {:induction false} TimeoutsCheckedEveryRound(inputs: seq<Recv>, own: bool)
    ensures Checks(Trace(inputs, own)) == if own then |Live(inputs)| + 1 else Datagrams(Live(inputs))
  {
    hide Round, Checks;
    if inputs == [] || inputs[0].NoData? || inputs[0].Failed? {
      ChecksOfRound(if inputs == [] then NoData else inputs[0], own);
    } else {
      TimeoutsCheckedEveryRound(inputs[1..], own);
      ChecksOfRound(inputs[0], own);
      ChecksOfConcat(Round(inputs[0], own), Trace(inputs[1..], own));
      assert Live(inputs)[1..] == Live(inputs[1..]);
    }
  }

  /** Every packet is handled right after a check, so before it can move any clock. */
  predicate CheckedFirst(events: seq<PeerEvent>) {
    forall i :: 0 <= i < |events| && events[i].Handled? ==> i > 0 && events[i - 1].TimeoutsChecked?
  }

  lemma {:induction false} CheckedBeforeHandled(inputs: seq<Recv>, own: bool)
    ensures CheckedFirst(Trace(inputs, own))
  {
    if inputs != [] && !inputs[0].NoData? && !inputs[0].Failed? {
      CheckedBeforeHandled(inputs[1..], own);
      var a: seq<PeerEvent>, b: seq<PeerEvent> := Round(inputs[0], own), Trace(inputs[1..], own);
      forall i | 0 <= i < |a + b| && (a + b)[i].Handled?
        ensures i > 0 && (a + b)[i - 1].TimeoutsChecked?
      {
        if i >= |a| {
          assert b[i - |a|].Handled?;
        }
      }
    }
  }
}
