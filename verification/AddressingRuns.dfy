/** Universe addresses under any interleaving of local setters and ArtAddress packets. */
module AddressingRuns {
  import opened Base
  import opened Artnet
  import opened Ports
  import opened Addressing

  datatype Event =
    | LocalSubnet(subnet: byte)
    | LocalPort(id: int, dir: Direction, addr: byte)
    | Remote(p: AddressPacket)

  type AddressEvent = e: Event | e.Remote? ==> WellFormed(e.p)
    witness LocalSubnet(0)

  function Step(s: Addresses, t: NodeType, e: AddressEvent): (r: Addresses)
    requires Shape(s)
    ensures Shape(r)
  {
    match e
    case LocalSubnet(subnet) => SetSubnet(s, subnet)
    case LocalPort(id, dir, addr) => SetPort(s, id, dir, addr)
    case Remote(p) => OnAddress(s, t, p)
  }

  function Run(t: NodeType, h: seq<AddressEvent>): (r: Addresses)
    ensures Shape(r)
  {
    if h == [] then Initial() else Step(Run(t, h[..|h| - 1]), t, h[|h| - 1])
  }

  // What an event does to one port.

  lemma SubnetAt(s: Addresses, field: byte, i: nat)
    requires Shape(s) && i < MAX_PORTS
    ensures var r := ProgramSubnet(s, field);
      && r.ins[i] == s.ins[i].(addr := r.ins[i].addr) && r.outs[i] == s.outs[i].(addr := r.outs[i].addr)
      && r.defaultSubnet == s.defaultSubnet
      && (field == DEFAULTS ==> r.subnet == s.defaultSubnet && !r.subnetNetCtl)
  {
  }

  lemma RemoteAt(s: Addresses, t: NodeType, p: AddressPacket, i: nat)
    requires Shape(s) && WellFormed(p) && t !in {SRV, RAW} && i < MAX_PORTS
    ensures var s1, r := ProgramSubnet(s, p.subnet), OnAddress(s, t, p);
      && r.subnet == s1.subnet && r.subnetNetCtl == s1.subnetNetCtl && r.defaultSubnet == s1.defaultSubnet
      && r.outs[i] == ProgrammedOut(s1.outs[i], s1.subnet, p.swout[i])
      && r.ins[i] == ProgrammedIn(s1.ins[i], s1.subnet, p.swin[i]).(netCtl := r.ins[i].netCtl)
      && (r.ins[i].netCtl <==>
           p.swout[i] >= CHANGE_BIT || ProgrammedIn(s1.ins[i], s1.subnet, p.swin[i]).netCtl)
  {
    hide ProgramSubnet, ProgrammedIn, ProgrammedOut;
  }

  /** The parts of a port that only local calls change; `netCtl` of an output port is never set. */
  lemma StepAt(s: Addresses, t: NodeType, e: AddressEvent, i: nat)
    requires Shape(s) && i < MAX_PORTS
    ensures var r := Step(s, t, e);
      && r.ins[i].defaultAddr == (if LocallySets(e, INPUT, i) then e.addr else s.ins[i].defaultAddr)
      && r.outs[i].defaultAddr == (if LocallySets(e, OUTPUT, i) then e.addr else s.outs[i].defaultAddr)
      && r.defaultSubnet == (if e.LocalSubnet? then e.subnet else s.defaultSubnet)
      && (r.outs[i].netCtl ==> s.outs[i].netCtl)
  {
    if e.Remote? && t !in {SRV, RAW} {
      hide ProgramSubnet, OnAddress;
      SubnetAt(s, e.p.subnet, i);
      RemoteAt(s, t, e.p, i);
    }
  }

  /** Every port's universe lies in the node's subnet. */
  predicate Consistent(s: Addresses)
    requires Shape(s)
  {
    forall i :: 0 <= i < MAX_PORTS ==>
      s.ins[i].addr / 0x10 == s.subnet % 0x10 && s.outs[i].addr / 0x10 == s.subnet % 0x10
  }

  /** The packet resets the subnet to a default of 0 while the live subnet is another: the comparison of
      the packet's field with the new subnet then sees no change. */
  predicate StaleReset(s: Addresses, t: NodeType, p: AddressPacket) {
    t !in {SRV, RAW} && p.subnet == DEFAULTS && s.defaultSubnet == 0 && s.subnet % 0x10 != 0
  }

  /** ... but it also gives every single port a new address. */
  predicate ProgramsAllPorts(p: AddressPacket)
    requires WellFormed(p)
  {
    forall i :: 0 <= i < MAX_PORTS ==>
      (p.swin[i] == DEFAULTS || p.swin[i] >= CHANGE_BIT) && (p.swout[i] == DEFAULTS || p.swout[i] >= CHANGE_BIT)
  }

  lemma SubnetProgrammed(s: Addresses, t: NodeType, p: AddressPacket)
    requires Shape(s) && WellFormed(p) && Consistent(s) && t !in {SRV, RAW}
    ensures var r := ProgramSubnet(s, p.subnet);
      if StaleReset(s, t, p) then r.ins == s.ins && r.outs == s.outs && r.subnet == 0 else Consistent(r)
  {
  }

  /** An ArtAddress packet keeps the addresses consistent unless it is a stale reset that leaves some port out. */
  lemma RemoteConsistentIff(s: Addresses, t: NodeType, p: AddressPacket)
    requires Shape(s) && WellFormed(p) && Consistent(s)
    ensures Consistent(OnAddress(s, t, p)) <==> !StaleReset(s, t, p) || ProgramsAllPorts(p)
  {
    if t !in {SRV, RAW} {
      hide OnAddress, ProgramSubnet, MakeAddr;
      SubnetProgrammed(s, t, p);
      var s1, r := ProgramSubnet(s, p.subnet), OnAddress(s, t, p);
      forall i | 0 <= i < MAX_PORTS
        ensures r.subnet == s1.subnet
        ensures r.ins[i].addr == ProgrammedIn(s1.ins[i], s1.subnet, p.swin[i]).addr
        ensures r.outs[i].addr == ProgrammedOut(s1.outs[i], s1.subnet, p.swout[i]).addr
      {
        RemoteAt(s, t, p, i);
      }
      RemoteAt(s, t, p, 0);
      if StaleReset(s, t, p) && !ProgramsAllPorts(p) {
        var i :| 0 <= i < MAX_PORTS && !((p.swin[i] == DEFAULTS || p.swin[i] >= CHANGE_BIT)
                                         && (p.swout[i] == DEFAULTS || p.swout[i] >= CHANGE_BIT));
        assert r.ins[i].addr == s.ins[i].addr || r.outs[i].addr == s.outs[i].addr;
      }
    }
  }

  lemma LocalKeepsConsistent(s: Addresses, t: NodeType, e: AddressEvent)
    requires Shape(s) && Consistent(s) && !e.Remote?
    ensures Consistent(Step(s, t, e))
  {
  }

  /** No event of the run is a stale reset that leaves a port out. */
  predicate Clean(t: NodeType, h: seq<AddressEvent>) {
    h == [] ||
    (var before, e := h[..|h| - 1], h[|h| - 1];
     Clean(t, before) && (e.Remote? && StaleReset(Run(t, before), t, e.p) ==> ProgramsAllPorts(e.p)))
  }

  predicate AlwaysConsistent(t: NodeType, h: seq<AddressEvent>) {
    Consistent(Run(t, h)) && (h == [] || AlwaysConsistent(t, h[..|h| - 1]))
  }

  /** The ports stay in the node's subnet throughout a run exactly if the run is clean. */
  lemma {:induction false} ConsistentIffClean(t: NodeType, h: seq<AddressEvent>)
    ensures AlwaysConsistent(t, h) <==> Clean(t, h)
  {
    if h != [] {
      var before, e := h[..|h| - 1], h[|h| - 1];
      ConsistentIffClean(t, before);
      if Clean(t, before) {
        assert Consistent(Run(t, before));
        match e
        case Remote(p) => RemoteConsistentIff(Run(t, before), t, p);
        case LocalSubnet(_) => LocalKeepsConsistent(Run(t, before), t, e);
        case LocalPort(_, _, _) => LocalKeepsConsistent(Run(t, before), t, e);
      }
    }
  }

  predicate LocallySets(e: Event, dir: Direction, id: nat) {
    e.LocalPort? && e.id == id && e.dir == dir && !BadPort(e.id, e.dir, e.addr)
  }

  /** The address most recently given to a port by `artnet_set_port_addr`, 0 if none was. */
  function LastLocal(h: seq<AddressEvent>, dir: Direction, id: nat): byte {
    if h == [] then 0 else
    if LocallySets(h[|h| - 1], dir, id) then h[|h| - 1].addr else LastLocal(h[..|h| - 1], dir, id)
  }

  function LastSubnet(h: seq<AddressEvent>): byte {
    if h == [] then 0 else
    if h[|h| - 1].LocalSubnet? then h[|h| - 1].subnet else LastSubnet(h[..|h| - 1])
  }

  /** Remote programming never forgets what was set locally, even while the port is under network control. */
  lemma {:induction false} DefaultsAreLastLocal(t: NodeType, h: seq<AddressEvent>, id: nat)
    requires id < MAX_PORTS
    ensures Run(t, h).ins[id].defaultAddr == LastLocal(h, INPUT, id)
    ensures Run(t, h).outs[id].defaultAddr == LastLocal(h, OUTPUT, id)
    ensures Run(t, h).defaultSubnet == LastSubnet(h)
  {
    hide Step;
    if h != [] {
      DefaultsAreLastLocal(t, h[..|h| - 1], id);
      StepAt(Run(t, h[..|h| - 1]), t, h[|h| - 1], id);
    }
  }

  /** A reset to defaults gives a port back the low nibble last set locally, in the subnet the node then has. */
  lemma ResetRestoresLocal(t: NodeType, h: seq<AddressEvent>, p: AddressPacket, id: nat)
    requires t !in {SRV, RAW} && WellFormed(p) && id < MAX_PORTS
    ensures var r := OnAddress(Run(t, h), t, p);
      && (p.swin[id] == DEFAULTS ==>
           && r.ins[id].addr == MakeAddr(r.subnet, LastLocal(h, INPUT, id))
           && (r.ins[id].netCtl <==> p.swout[id] >= CHANGE_BIT))
      && (p.swout[id] == DEFAULTS ==>
           r.outs[id].addr == MakeAddr(r.subnet, LastLocal(h, OUTPUT, id)) && r.outs[id].enabled)
      && (p.subnet == DEFAULTS ==> r.subnet == LastSubnet(h) && !r.subnetNetCtl)
  {
    hide OnAddress, ProgramSubnet, MakeAddr, Run;
    DefaultsAreLastLocal(t, h, id);
    SubnetAt(Run(t, h), p.subnet, id);
    RemoteAt(Run(t, h), t, p, id);
  }

  /** Programming an output port marks the input port instead, so no output port is ever under network control
      and a local setter always wins there. */
  lemma {:induction false} OutputsNeverUnderNetworkControl(t: NodeType, h: seq<AddressEvent>, id: nat)
    requires id < MAX_PORTS
    ensures !Run(t, h).outs[id].netCtl
  {
    hide Step;
    if h != [] {
      OutputsNeverUnderNetworkControl(t, h[..|h| - 1], id);
      StepAt(Run(t, h[..|h| - 1]), t, h[|h| - 1], id);
    }
  }

  /** An ArtAddress packet that programs the subnet and nothing else. */
  function SubnetOnly(subnet: byte): (p: AddressPacket)
    ensures WellFormed(p)
  {
    var kept := [NO_CHANGE, NO_CHANGE, NO_CHANGE, NO_CHANGE];
    AddressPacket(subnet, kept, kept, 0)
  }

  lemma SubnetMoved(t: NodeType, subnet: byte)
    requires t !in {SRV, RAW} && subnet % 0x10 != 0 && subnet >= CHANGE_BIT
    ensures var s := OnAddress(Initial(), t, SubnetOnly(subnet));
      && Consistent(s) && s.subnet == subnet - CHANGE_BIT && s.defaultSubnet == 0
  {
    hide OnAddress;
    var p := SubnetOnly(subnet);
    RemoteAt(Initial(), t, p, 0);
    SubnetAt(Initial(), subnet, 0);
    RemoteConsistentIff(Initial(), t, p);
  }

  lemma SubnetReset(s: Addresses, t: NodeType)
    requires Shape(s) && Consistent(s) && t !in {SRV, RAW} && s.defaultSubnet == 0 && s.subnet % 0x10 != 0
    ensures var q := SubnetOnly(DEFAULTS);
      var r := OnAddress(s, t, q);
      StaleReset(s, t, q) && !ProgramsAllPorts(q) && !Consistent(r) && r.subnet == 0 && r.outs[0].addr == s.outs[0].addr
  {
    hide OnAddress, ProgramSubnet;
    var q := SubnetOnly(DEFAULTS);
    assert q.swin[0] == NO_CHANGE;
    SubnetProgrammed(s, t, q);
    RemoteAt(s, t, q, 0);
    RemoteConsistentIff(s, t, q);
  }

  /** Two packets are enough: one moves a new node to another subnet, the next resets it, and the ports stay behind. */
  lemma StaleResetReached(t: NodeType, subnet: byte)
    requires t !in {SRV, RAW} && subnet % 0x10 != 0 && subnet >= CHANGE_BIT
    ensures var h := [Remote(SubnetOnly(subnet)), Remote(SubnetOnly(DEFAULTS))];
      && !Clean(t, h) && !Consistent(Run(t, h))
      && Run(t, h).subnet == 0 && Run(t, h).outs[0].addr / 0x10 == subnet % 0x10
  {
    hide OnAddress, StaleReset, ProgramsAllPorts, SubnetOnly;
    var p, q := SubnetOnly(subnet), SubnetOnly(DEFAULTS);
    var h := [Remote(p), Remote(q)];
    assert h[..1] == [Remote(p)] && h[..1][..0] == [] && h[..0] == [];
    var s := OnAddress(Initial(), t, p);
    assert Run(t, h[..1]) == s;
    SubnetMoved(t, subnet);
    SubnetReset(s, t);
  }
}
