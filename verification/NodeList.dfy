/** The list of nodes seen on the network: `artnet_nl_update`, `find_entry_from_ip`, `find_nodes_from_uni`. */
module NodeList {
  import opened Base
  import opened Artnet

  /** What a node said of itself in an ArtPollReply; `text` stands for the fields that are only copied. */
  datatype ReplyFields = ReplyFields(numPorts: int, swout: seq<byte>, text: seq<byte>)

  type PollReply = p: ReplyFields | |p.swout| == MAX_PORTS
    witness ReplyFields(0, [0, 0, 0, 0], [])

  /** The reply has no more ports than a node can have; nothing checks this on arrival. */
  predicate WellFormed(p: PollReply) {
    p.numPorts <= MAX_PORTS
  }

  /** One entry as a value; `transfer` identifies the firmware-transfer record kept in it. */
  datatype Seen = Seen(ip: nat, pub: PollReply, transfer: int)

  class Entry {
    var pub: PollReply
    var next: Entry?
    var transfer: int
    var ip: nat

    constructor (ip: nat, pub: PollReply)
      ensures this.ip == ip && this.pub == pub && next == null && transfer == 0
    {
      this.ip, this.pub, next, transfer := ip, pub, null, 0;
    }
  }

  /** `nl` with the reply of `ip` recorded: in place if the address is known, else at the end. */
  function Updated(nl: seq<Seen>, ip: nat, pub: PollReply): (r: seq<Seen>) {
    if nl == [] then [Seen(ip, pub, 0)]
    else if nl[0].ip == ip then [nl[0].(pub := pub)] + nl[1..]
    else [nl[0]] + Updated(nl[1..], ip, pub)
  }

  /** `nl` with a transfer record stored in the first entry of `ip`, if there is one. */
  function Stored(nl: seq<Seen>, ip: nat, transfer: int): (r: seq<Seen>)
    ensures |r| == |nl|
  {
    if nl == [] then []
    else if nl[0].ip == ip then [nl[0].(transfer := transfer)] + nl[1..]
    else [nl[0]] + Stored(nl[1..], ip, transfer)
  }

  predicate Lists(nl: seq<Seen>, ip: nat) {
    exists s <- nl :: s.ip == ip
  }

  predicate DistinctIps(nl: seq<Seen>) {
    forall i, j :: 0 <= i < j < |nl| ==> nl[i].ip != nl[j].ip
  }

  class List {
    var first: Entry?
    var last: Entry?
    var length: nat
    ghost var spine: seq<Entry> // the entries in list order

    ghost function At(i: nat): Entry?
      reads this`spine
    {
      if i < |spine| then spine[i] else null
    }

    ghost predicate Valid()
      reads this, spine
    {
      && length == |spine|
      && (forall i, j :: 0 <= i < j < |spine| ==> spine[i] != spine[j])
      && (forall i :: 0 <= i < |spine| ==> spine[i].next == At(i + 1))
      && first == At(0)
      && (spine != [] ==> last == spine[|spine| - 1])
    }

    ghost function Look(e: Entry): Seen
      reads e
    {
      Seen(e.ip, e.pub, e.transfer)
    }

    ghost function View(): (r: seq<Seen>)
      reads this, spine
      ensures |r| == |spine|
      ensures forall i :: 0 <= i < |spine| ==> r[i] == Look(spine[i])
    {
      seq(|spine|, i requires 0 <= i < |spine| reads this, spine => Look(spine[i]))
    }

    constructor ()
      ensures Valid() && View() == []
    {
      first, last, length, spine := null, null, 0, [];
    }

    /** `find_entry_from_ip`: the first entry with this address, or null; `at` is its position. */
    method Find(ip: nat) returns (e: Entry?, ghost at: nat)
      requires Valid()
      ensures e != null ==> at < |spine| && e == spine[at] && View()[at].ip == ip
      ensures e == null ==> at == |spine| && forall s <- View() :: s.ip != ip
      ensures at <= |View()| && forall j :: 0 <= j < at ==> View()[j].ip != ip
    {
      e, at := first, 0;
      while e != null
        invariant 0 <= at <= |spine| && e == At(at)
        invariant forall j :: 0 <= j < at ==> spine[j].ip != ip
        invariant e == null ==> at == |spine|
        decreases |spine| - at
      {
        if ip == e.ip {
          break;
        }
        e := e.next;
        at := at + 1;
      }
    }

    /** Hangs `entry` behind the last one. */
    method Link(entry: Entry)
      requires Valid() && entry !in spine && entry.next == null
      modifies this, spine
      ensures Valid() && spine == old(spine) + [entry]
      ensures forall i :: 0 <= i < |old(spine)| ==> Look(old(spine)[i]) == old(Look(spine[i]))
    {
      ghost var entries := spine;
      assert first == null <==> entries == [];
      if first == null {
        first := entry;
        last := entry;
      } else {
        last.next := entry;
        last := entry;
      }
      length := length + 1;
      spine := spine + [entry];
      forall i | 0 <= i < |spine|
        ensures spine[i].next == At(i + 1)
      {
        if i < |entries| {
          assert spine[i] == entries[i];
          assert i + 1 < |entries| ==> old(entries[i].next == At(i + 1));
        }
      }
    }

    method Append(ip: nat, reply: PollReply)
      requires Valid()
      modifies this, spine
      ensures Valid() && View() == old(View()) + [Seen(ip, reply, 0)]
    {
      hide Valid, View;
      ghost var entries, view := spine, View();
      var entry := new Entry(ip, reply);
      Link(entry);
      forall i | 0 <= i < |view|
        ensures View()[i] == view[i]
      {
        assert view[i] == old(Look(spine[i]));
      }
      assert View() == view + [Seen(ip, reply, 0)];
    }

    method Replace(entry: Entry, reply: PollReply, ghost at: nat)
      requires Valid() && at < |spine| && entry == spine[at]
      modifies entry
      ensures Valid() && View() == old(View())[at := old(View())[at].(pub := reply)]
    {
      entry.pub := reply;
    }

    /** `artnet_nl_update`; `ok` says whether there is memory for a new entry. */
    method Update(ip: nat, reply: PollReply, ok: bool) returns (ret: int)
      requires Valid()
      modifies this, spine
      ensures ret == if !ok && !Lists(old(View()), ip) then EMEM else EOK
      ensures Valid() && View() == if ret == EOK then Updated(old(View()), ip, reply) else old(View())
    {
      hide Valid, View, Updated;
      ghost var view := View();
      var entry, at := Find(ip);
      if entry == null {
        if !ok {
          return EMEM;
        }
        UpdateAppends(view, ip, reply);
        Append(ip, reply);
      } else {
        UpdateReplaces(view, ip, reply, at);
        Replace(entry, reply, at);
        assert view[at] in view;
      }
      return EOK;
    }

    /** The firmware code stores the record of a transfer in the entry it finds for an address. */
    method StoreTransfer(ip: nat, transfer: int) returns (found: bool)
      requires Valid()
      modifies spine
      ensures found <==> Lists(old(View()), ip)
      ensures Valid() && View() == Stored(old(View()), ip, transfer)
    {
      hide View, Stored;
      ghost var view := View();
      var entry, at := Find(ip);
      StoredFirst(view, ip, transfer, at);
      if entry == null {
        return false;
      }
      assert view[at] in view;
      SetTransfer(entry, transfer, at);
      return true;
    }

    method SetTransfer(entry: Entry, transfer: int, ghost at: nat)
      requires Valid() && at < |spine| && entry == spine[at]
      modifies entry
      ensures Valid() && View() == old(View())[at := old(View())[at].(transfer := transfer)]
    {
      entry.transfer := transfer;
    }

    /** The inner loop of `find_nodes_from_uni`: one entry's ports. */
    method ScanEntry(entry: Entry, uni: byte, ips: array?<nat>, size: int, filled: nat, counted: nat)
      returns (j: nat, count: nat)
      requires WellFormed(entry.pub) && (ips != null ==> size <= ips.Length && filled <= ips.Length)
      modifies if ips == null then {} else {ips}
      ensures var matching := MatchingPorts(entry.pub, uni, entry.pub.numPorts);
        if ips == null then j == filled && count == counted
        else
          && count == counted + matching
          && j == (if matching > 0 && filled < size then filled + 1 else filled)
          && (j > filled ==> ips[filled] == entry.ip)
          && forall i :: 0 <= i < ips.Length && !(filled <= i < j) ==> ips[i] == old(ips[i])
    {
      j, count := filled, counted;
      var added := false;
      var i := 0;
      while i < entry.pub.numPorts
        invariant 0 <= i && (i <= entry.pub.numPorts || i == 0)
        invariant ips == null ==> j == filled && count == counted
        invariant ips != null ==> count == counted + MatchingPorts(entry.pub, uni, i)
        invariant ips != null ==> j == if MatchingPorts(entry.pub, uni, i) > 0 && filled < size then filled + 1 else filled
        invariant added <==> j > filled
        invariant ips != null && j > filled ==> ips[filled] == entry.ip
        invariant ips != null ==> forall i :: 0 <= i < ips.Length && !(filled <= i < j) ==> ips[i] == old(ips[i])
      {
        if entry.pub.swout[i] == uni && ips != null {
          if j < size && !added {
            ips[j] := entry.ip;
            j := j + 1;
            added := true;
          }
          count := count + 1;
        }
        i := i + 1;
      }
    }

    /** `ips` holds the first of `all`, as many as `size` lets in. */
    static ghost predicate Filled(ips: array<nat>, j: nat, size: int, all: seq<nat>)
      reads ips
    {
      size <= ips.Length && j == Min(Max(size, 0), |all|) && ips[..j] == all[..j]
    }

    /** One round of `find_nodes_from_uni`, in terms of the addresses `all` that matched so far. */
    method FillFrom(entry: Entry, uni: byte, ips: array<nat>, size: int, filled: nat, counted: nat, ghost all: seq<nat>)
      returns (j: nat, count: nat)
      requires WellFormed(entry.pub) && Filled(ips, filled, size, all)
      modifies ips
      ensures count == counted + MatchingPorts(entry.pub, uni, entry.pub.numPorts)
      ensures Filled(ips, j, size, all + if MatchingPorts(entry.pub, uni, entry.pub.numPorts) > 0 then [entry.ip] else [])
      ensures j >= filled && forall i :: j <= i < ips.Length ==> ips[i] == old(ips[i])
    {
      ghost var before := ips[..filled];
      j, count := ScanEntry(entry, uni, ips, size, filled, counted);
      assert ips[..filled] == before;
      if j > filled {
        assert ips[..j] == before + [entry.ip];
      }
    }

    /** `find_nodes_from_uni`. With no array to fill it counts nothing. */
    method FindNodesFromUni(uni: byte, ips: array?<nat>, size: int) returns (count: nat)
      requires Valid() && AllWellFormed(View()) && (ips != null ==> size <= ips.Length)
      modifies if ips == null then {} else {ips}
      ensures View() == old(View()) && count == if ips == null then 0 else Matches(View(), uni)
      ensures ips != null ==> var n := Min(Max(size, 0), |MatchingIps(View(), uni)|);
        ips[..n] == MatchingIps(View(), uni)[..n] && forall i :: n <= i < ips.Length ==> ips[i] == old(ips[i])
    {
      hide Matches, MatchingIps, Filled, Valid, View;
      Starts();
      count := 0;
      MatchesNone(View(), uni);
      var tmp := first;
      var j: nat := 0;
      ghost var k := 0;
      ghost var view := View();
      if ips != null {
        FilledNone(ips, size);
      }
      while tmp != null
        invariant 0 <= k <= |spine| && tmp == At(k)
        invariant View() == view && Valid()
        invariant count == if ips == null then 0 else Matches(view[..k], uni)
        invariant ips != null ==>
          Filled(ips, j, size, MatchingIps(view[..k], uni)) && forall i :: j <= i < ips.Length ==> ips[i] == old(ips[i])
        decreases |spine| - k
      {
        MatchesStep(view, uni, k);
        Walks(k);
        if ips != null {
          j, count := FillFrom(tmp, uni, ips, size, j, count, MatchingIps(view[..k], uni));
        } else {
          j, count := ScanEntry(tmp, uni, ips, size, j, count);
        }
        tmp := tmp.next;
        k := k + 1;
      }
      assert view[..|spine|] == view;
      if ips != null {
        FilledMeans(ips, j, size, MatchingIps(view, uni));
      }
    }

    lemma Starts()
      requires Valid()
      ensures first == At(0)
    {
    }

    lemma Walks(k: nat)
      requires Valid() && AllWellFormed(View()) && k < |spine|
      ensures spine[k].next == At(k + 1) && WellFormed(spine[k].pub) && View()[k] == Look(spine[k])
    {
      assert View()[k] in View();
    }

    static lemma FilledNone(ips: array<nat>, size: int)
      requires size <= ips.Length
      ensures Filled(ips, 0, size, [])
    {
    }

    static lemma FilledMeans(ips: array<nat>, j: nat, size: int, all: seq<nat>)
      requires Filled(ips, j, size, all)
      ensures size <= ips.Length && j == Min(Max(size, 0), |all|) && ips[..j] == all[..j]
    {
    }
  }

  /** How many of the first `n` ports output the universe. */
  function MatchingPorts(p: PollReply, uni: byte, n: int): nat
    requires WellFormed(p) && n <= MAX_PORTS
  {
    if n <= 0 then 0 else MatchingPorts(p, uni, n - 1) + if p.swout[n - 1] == uni then 1 else 0
  }

  predicate AllWellFormed(nl: seq<Seen>) {
    forall s <- nl :: WellFormed(s.pub)
  }

  /** How many ports on the network output the universe. */
  function Matches(nl: seq<Seen>, uni: byte): nat
    requires AllWellFormed(nl)
  {
    if nl == [] then 0
    else Matches(nl[..|nl| - 1], uni) + MatchingPorts(nl[|nl| - 1].pub, uni, nl[|nl| - 1].pub.numPorts)
  }

  /** The addresses of the nodes that have such a port, once each, in list order. */
  function MatchingIps(nl: seq<Seen>, uni: byte): seq<nat>
    requires AllWellFormed(nl)
  {
    if nl == [] then []
    else
      var s := nl[|nl| - 1];
      MatchingIps(nl[..|nl| - 1], uni) + if MatchingPorts(s.pub, uni, s.pub.numPorts) > 0 then [s.ip] else []
  }

  lemma MatchesNone(nl: seq<Seen>, uni: byte)
    requires AllWellFormed(nl)
    ensures Matches(nl[..0], uni) == 0 && MatchingIps(nl[..0], uni) == []
  {
  }

  lemma MatchesStep(nl: seq<Seen>, uni: byte, k: nat)
    requires AllWellFormed(nl) && k < |nl|
    ensures var n := MatchingPorts(nl[k].pub, uni, nl[k].pub.numPorts);
      && Matches(nl[..k + 1], uni) == Matches(nl[..k], uni) + n
      && MatchingIps(nl[..k + 1], uni) == MatchingIps(nl[..k], uni) + if n > 0 then [nl[k].ip] else []
  {
    assert nl[..k + 1][..k] == nl[..k];
  }

  lemma {:induction false} UpdateAppends(nl: seq<Seen>, ip: nat, pub: PollReply)
    requires forall s <- nl :: s.ip != ip
    ensures Updated(nl, ip, pub) == nl + [Seen(ip, pub, 0)]
  {
    if nl != [] {
      UpdateAppends(nl[1..], ip, pub);
    }
  }

  lemma {:induction false} UpdateReplaces(nl: seq<Seen>, ip: nat, pub: PollReply, i: nat)
    requires i < |nl| && nl[i].ip == ip && forall j :: 0 <= j < i ==> nl[j].ip != ip
    ensures Updated(nl, ip, pub) == nl[i := nl[i].(pub := pub)]
  {
    if i > 0 {
      UpdateReplaces(nl[1..], ip, pub, i - 1);
    }
  }

  lemma {:induction false} StoredFirst(nl: seq<Seen>, ip: nat, transfer: int, i: nat)
    requires i <= |nl| && (forall j :: 0 <= j < i ==> nl[j].ip != ip) && (i < |nl| ==> nl[i].ip == ip)
    ensures Stored(nl, ip, transfer) == if i < |nl| then nl[i := nl[i].(transfer := transfer)] else nl
  {
    if i > 0 {
      StoredFirst(nl[1..], ip, transfer, i - 1);
    }
  }

  // Whole runs.

  /** A poll reply arrives, or the firmware code stores a transfer record in the entry of an address. */
  datatype Event = Replied(ip: nat, pub: PollReply) | TransferSet(ip: nat, transfer: int)

  function Step(nl: seq<Seen>, e: Event): seq<Seen> {
    match e
    case Replied(ip, pub) => Updated(nl, ip, pub)
    case TransferSet(ip, transfer) => Stored(nl, ip, transfer)
  }

  function Run(h: seq<Event>): seq<Seen> {
    if h == [] then [] else Step(Run(h[..|h| - 1]), h[|h| - 1])
  }

  /** The addresses that replied, in order of first arrival. */
  function Arrivals(h: seq<Event>): seq<nat> {
    if h == [] then [] else
    var before, e := Arrivals(h[..|h| - 1]), h[|h| - 1];
    if e.Replied? && e.ip !in before then before + [e.ip] else before
  }

  /** What is known of an address: its latest reply, and the transfer record last stored since it first replied. */
  function Known(h: seq<Event>, ip: nat): Option<Seen> {
    if h == [] then None else
    var before, e := Known(h[..|h| - 1], ip), h[|h| - 1];
    if e.ip != ip then before
    else match e
      case Replied(_, pub) => if before.None? then Some(Seen(ip, pub, 0)) else Some(before.value.(pub := pub))
      case TransferSet(_, transfer) => if before.None? then None else Some(before.value.(transfer := transfer))
  }

  ghost predicate IsMapOf(nl: seq<Seen>, h: seq<Event>) {
    && DistinctIps(nl)
    && |nl| == |Arrivals(h)|
    && (forall i :: 0 <= i < |nl| ==> nl[i].ip == Arrivals(h)[i] && Known(h, nl[i].ip) == Some(nl[i]))
    && (forall ip :: ip !in Arrivals(h) ==> Known(h, ip) == None)
  }

  lemma NewAddress(nl: seq<Seen>, h: seq<Event>, ip: nat, pub: PollReply)
    requires IsMapOf(nl, h) && ip !in Arrivals(h)
    ensures IsMapOf(Updated(nl, ip, pub), h + [Replied(ip, pub)])
  {
    var h' := h + [Replied(ip, pub)];
    assert h'[..|h|] == h;
    forall s | s in nl
      ensures s.ip != ip && s.ip in Arrivals(h)
    {
      var i :| 0 <= i < |nl| && nl[i] == s;
      assert Arrivals(h)[i] == s.ip;
    }
    UpdateAppends(nl, ip, pub);
  }

  lemma KnownAddress(nl: seq<Seen>, h: seq<Event>, e: Event, k: nat, r: seq<Seen>)
    requires IsMapOf(nl, h) && k < |nl| && nl[k].ip == e.ip
    requires r == nl[k := match e case Replied(_, pub) => nl[k].(pub := pub)
                              case TransferSet(_, transfer) => nl[k].(transfer := transfer)]
    ensures IsMapOf(r, h + [e])
  {
    assert (h + [e])[..|h|] == h;
    assert Arrivals(h)[k] == e.ip;
  }

  lemma KnownStep(nl: seq<Seen>, h: seq<Event>, e: Event)
    requires IsMapOf(nl, h) && e.ip in Arrivals(h)
    ensures IsMapOf(Step(nl, e), h + [e])
  {
    var k :| 0 <= k < |nl| && Arrivals(h)[k] == e.ip;
    assert nl[k].ip == e.ip;
    assert forall j :: 0 <= j < k ==> nl[j].ip != e.ip;
    hide Arrivals, Known;
    match e
    case Replied(ip, pub) =>
      UpdateReplaces(nl, ip, pub, k);
      KnownAddress(nl, h, e, k, Step(nl, e));
    case TransferSet(ip, transfer) =>
      StoredFirst(nl, ip, transfer, k);
      KnownAddress(nl, h, e, k, Step(nl, e));
  }

  lemma UnknownTransfer(nl: seq<Seen>, h: seq<Event>, ip: nat, transfer: int)
    requires IsMapOf(nl, h) && ip !in Arrivals(h)
    ensures IsMapOf(Stored(nl, ip, transfer), h + [TransferSet(ip, transfer)])
  {
    assert (h + [TransferSet(ip, transfer)])[..|h|] == h;
    assert forall i :: 0 <= i < |nl| ==> nl[i].ip == Arrivals(h)[i];
    StoredFirst(nl, ip, transfer, |nl|);
  }

  lemma StepKeepsMap(nl: seq<Seen>, h: seq<Event>, e: Event)
    requires IsMapOf(nl, h)
    ensures IsMapOf(Step(nl, e), h + [e])
  {
    hide IsMapOf, Arrivals;
    if e.ip in Arrivals(h) {
      KnownStep(nl, h, e);
    } else {
      match e
      case Replied(ip, pub) => NewAddress(nl, h, ip, pub);
      case TransferSet(ip, transfer) => UnknownTransfer(nl, h, ip, transfer);
    }
  }

  /** The list is a map from address to latest reply, in order of first arrival, and replies leave the stored
      transfer records alone. */
  lemma {:induction false} ListIsMap(h: seq<Event>)
    ensures IsMapOf(Run(h), h)
  {
    if h != [] {
      hide IsMapOf, Step;
      var before := h[..|h| - 1];
      ListIsMap(before);
      StepKeepsMap(Run(before), before, h[|h| - 1]);
      assert before + [h[|h| - 1]] == h;
    }
  }

  /** An address found for a universe is the address of an entry with a matching port. */
  lemma {:induction false} MatchIsListed(nl: seq<Seen>, uni: byte, ip: nat)
    requires AllWellFormed(nl) && ip in MatchingIps(nl, uni)
    ensures exists k :: 0 <= k < |nl| && nl[k].ip == ip && MatchingPorts(nl[k].pub, uni, nl[k].pub.numPorts) > 0
  {
    var n := |nl| - 1;
    if ip in MatchingIps(nl[..n], uni) {
      MatchIsListed(nl[..n], uni, ip);
      var k :| 0 <= k < n && nl[..n][k].ip == ip && MatchingPorts(nl[..n][k].pub, uni, nl[..n][k].pub.numPorts) > 0;
      assert nl[k] == nl[..n][k];
    } else {
      assert nl[n].ip == ip;
    }
  }

  /** The addresses found for a universe are all different. */
  lemma {:induction false} MatchingIpsDistinct(nl: seq<Seen>, uni: byte)
    requires AllWellFormed(nl) && DistinctIps(nl)
    ensures forall i, j :: 0 <= i < j < |MatchingIps(nl, uni)| ==> MatchingIps(nl, uni)[i] != MatchingIps(nl, uni)[j]
  {
    if nl != [] {
      var n := |nl| - 1;
      MatchingIpsDistinct(nl[..n], uni);
      if nl[n].ip in MatchingIps(nl[..n], uni) {
        MatchIsListed(nl[..n], uni, nl[n].ip);
      }
    }
  }

  // The number of ports is not the number of nodes.

  /** No entry has two ports on the universe. */
  predicate OnePortEach(nl: seq<Seen>, uni: byte)
    requires AllWellFormed(nl)
  {
    forall s <- nl :: MatchingPorts(s.pub, uni, s.pub.numPorts) <= 1
  }

  /** What `find_nodes_from_uni` returns is the number of nodes exactly if no node has two matching ports. */
  lemma {:induction false} PortsAreNodesIff(nl: seq<Seen>, uni: byte)
    requires AllWellFormed(nl)
    ensures Matches(nl, uni) >= |MatchingIps(nl, uni)|
    ensures Matches(nl, uni) == |MatchingIps(nl, uni)| <==> OnePortEach(nl, uni)
  {
    if nl != [] {
      var n := |nl| - 1;
      PortsAreNodesIff(nl[..n], uni);
      assert nl == nl[..n] + [nl[n]];
      assert OnePortEach(nl, uni) <==>
        OnePortEach(nl[..n], uni) && MatchingPorts(nl[n].pub, uni, nl[n].pub.numPorts) <= 1;
    }
  }

  /** So when the count fits the array, all the entries it speaks of are filled exactly under the same condition. */
  lemma CountedAreFilledIff(nl: seq<Seen>, uni: byte, size: nat)
    requires AllWellFormed(nl) && Matches(nl, uni) <= size
    ensures Matches(nl, uni) <= Min(size, |MatchingIps(nl, uni)|) <==> OnePortEach(nl, uni)
  {
    PortsAreNodesIff(nl, uni);
  }

  /** One node with two ports on universe 5: two ports are counted and one address is stored. */
  lemma TwoPortsOneNode(ip: nat)
    ensures var nl := Run([Replied(ip, ReplyFields(2, [5, 5, 0, 0], []))]);
      AllWellFormed(nl) && Matches(nl, 5) == 2 && MatchingIps(nl, 5) == [ip]
  {
    var pub: PollReply := ReplyFields(2, [5, 5, 0, 0], []);
    var h := [Replied(ip, pub)];
    assert h[..0] == [] && Run(h) == [Seen(ip, pub, 0)];
    assert MatchingPorts(pub, 5, 2) == MatchingPorts(pub, 5, 1) + 1 == MatchingPorts(pub, 5, 0) + 2;
    assert Run(h)[..0] == [];
  }

  /** Where a packet goes: the addresses stored for the universe, and behind them, for every port counted beyond that,
      an entry of the array that was never written. */
  function Unicast(nl: seq<Seen>, uni: byte, memory: nat -> nat): (r: seq<nat>)
    requires AllWellFormed(nl)
    ensures |r| == Matches(nl, uni)
    ensures forall i :: 0 <= i < |r| ==>
      r[i] == if i < |MatchingIps(nl, uni)| then MatchingIps(nl, uni)[i] else memory(i)
  {
    PortsAreNodesIff(nl, uni);
    var ips := MatchingIps(nl, uni);
    ips + seq(Matches(nl, uni) - |ips|, i requires 0 <= i => memory(|ips| + i))
  }

  /** A packet goes once to every node that outputs the universe, and nowhere else, exactly if none has two ports on it. */
  lemma UnicastIsNodesIff(nl: seq<Seen>, uni: byte, memory: nat -> nat)
    requires AllWellFormed(nl)
    ensures Unicast(nl, uni, memory) == MatchingIps(nl, uni) <==> OnePortEach(nl, uni)
  {
    PortsAreNodesIff(nl, uni);
  }

  /** Fills a new array with the nodes to send to; what `malloc` found in it stays behind them. */
  method Recipients(list: List, uni: byte, limit: nat, memory: nat -> nat) returns (ips: array<nat>, nodes: nat)
    requires list.Valid() && AllWellFormed(list.View())
    ensures nodes == Matches(list.View(), uni) && ips.Length == limit
    ensures nodes <= limit ==> ips[..nodes] == Unicast(list.View(), uni, memory)
  {
    hide Matches, MatchingIps, Unicast, AllWellFormed;
    ips := new nat[limit](i requires 0 <= i => memory(i));
    nodes := list.FindNodesFromUni(uni, ips, limit);
    if nodes <= limit {
      FilledIsUnicast(ips[..], list.View(), uni, memory);
      assert ips[..nodes] == ips[..][..nodes];
    }
  }

  lemma FilledIsUnicast(ips: seq<nat>, nl: seq<Seen>, uni: byte, memory: nat -> nat)
    requires AllWellFormed(nl) && Matches(nl, uni) <= |ips|
    requires var n := Min(|ips|, |MatchingIps(nl, uni)|);
      ips[..n] == MatchingIps(nl, uni)[..n] && forall i :: n <= i < |ips| ==> ips[i] == memory(i)
    ensures ips[..Matches(nl, uni)] == Unicast(nl, uni, memory)
  {
    hide Matches, MatchingIps;
    PortsAreNodesIff(nl, uni);
    var all := MatchingIps(nl, uni);
    forall i | 0 <= i < Matches(nl, uni)
      ensures ips[i] == Unicast(nl, uni, memory)[i]
    {
      if i < |all| {
        assert ips[i] == ips[..|all|][i] == all[..|all|][i];
      }
    }
  }

  /** The loop of `artnet_send_dmx`; what each send returns is ignored. */
  method SendEach(ips: array<nat>, nodes: nat) returns (sent: seq<nat>)
    requires nodes <= ips.Length
    ensures sent == ips[..nodes]
  {
    sent := [];
    for i := 0 to nodes
      invariant sent == ips[..i]
    {
      sent := sent + [ips[i]];
    }
  }

  /** The sending part of `artnet_send_dmx`, with `limit` the broadcast limit, `net` what a broadcast returns, and `sent`
      the addresses sent to. The array for the addresses comes uninitialised from `malloc`. */
  method SendDmx(list: List, uni: byte, limit: nat, bcast: nat, m: Malloc<nat>, net: int)
    returns (ret: int, sent: seq<nat>)
    requires list.Valid() && AllWellFormed(list.View())
    ensures var broadcasts := limit == 0 || !m.ok || Matches(list.View(), uni) > limit;
      && ret == (if broadcasts then net else EOK)
      && sent == if broadcasts then [bcast] else Unicast(list.View(), uni, m.memory)
  {
    hide Unicast, Matches, AllWellFormed;
    if limit == 0 {
      return net, [bcast];
    }
    if !m.ok {
      if net != EOK {
        return net, [bcast];
      }
      var none := list.FindNodesFromUni(uni, null, limit);
      return EOK, [bcast];
    }
    var ips, nodes := Recipients(list, uni, limit, m.memory);
    if nodes > limit {
      return net, [bcast];
    }
    sent := SendEach(ips, nodes);
    return EOK, sent;
  }

  /** Every one of the ports a node has counts, and no other. */
  lemma MatchingPortsAre(p: PollReply, uni: byte)
    requires WellFormed(p)
    ensures MatchingPorts(p, uni, p.numPorts) ==
      (if p.numPorts > 0 && p.swout[0] == uni then 1 else 0) + (if p.numPorts > 1 && p.swout[1] == uni then 1 else 0) +
      (if p.numPorts > 2 && p.swout[2] == uni then 1 else 0) + (if p.numPorts > 3 && p.swout[3] == uni then 1 else 0)
  {
    forall n: nat | n < 4
      ensures MatchingPorts(p, uni, n + 1) == MatchingPorts(p, uni, n) + if p.swout[n] == uni then 1 else 0
    {
    }
    assert MatchingPorts(p, uni, 0) == 0;
  }

  /** No node with a matching port is left out. */
  lemma {:induction false} ListedMatches(nl: seq<Seen>, uni: byte, k: nat)
    requires AllWellFormed(nl) && k < |nl| && MatchingPorts(nl[k].pub, uni, nl[k].pub.numPorts) > 0
    ensures nl[k].ip in MatchingIps(nl, uni)
  {
    if k < |nl| - 1 {
      ListedMatches(nl[..|nl| - 1], uni, k);
    }
  }
}
