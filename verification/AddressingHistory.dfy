/** The addressing state as a function of what was called and received: call by call with the numbers written out, and
    over whole runs. */
module AddressingHistory {
  import opened Base
  import opened Artnet
  import opened Ports
  import opened Addressing
  import opened AddressingRuns

  /** The universe address in this subnet with this low nibble. */
  function Universe(subnet: byte, low: byte): byte {
    16 * (subnet % 16) + low % 16
  }

  // One call, one packet.

  /** A local setter on an input port: the default and the port's being enabled always; the address, and with it the
      sequence number, unless the port is under network control or has it already. */
  lemma InputSet(s: Addresses, id: nat, addr: byte)
    requires Shape(s) && id < 4 && addr <= 16
    ensures var r, port := SetPort(s, id, INPUT, addr), s.ins[id];
      var moves := !port.netCtl && (!port.enabled || addr % 16 != port.addr % 16);
      && r.ins == s.ins[id := GPort(if moves then Universe(s.subnet, addr) else port.addr, addr, port.netCtl, true)]
      && r.sequences == (if moves then s.sequences[id := 0] else s.sequences)
      && r == s.(ins := r.ins, sequences := r.sequences)
  {
  }

  lemma OutputSet(s: Addresses, id: nat, addr: byte)
    requires Shape(s) && id < 4 && addr <= 16
    ensures var r, port := SetPort(s, id, OUTPUT, addr), s.outs[id];
      var moves := !port.netCtl && (!port.enabled || addr % 16 != port.addr % 16);
      && r.outs == s.outs[id := GPort(if moves then Universe(s.subnet, addr) else port.addr, addr, port.netCtl, true)]
      && r == s.(outs := r.outs)
  {
  }

  /** So a port in the node's subnet and not under network control is left enabled at the address asked for. */
  lemma SetPortTakesEffect(s: Addresses, id: nat, dir: Direction, addr: byte)
    requires Shape(s) && id < 4 && addr <= 16 && dir in {INPUT, OUTPUT}
    requires var port := PortAt(s, id, dir); !port.netCtl && port.addr / 16 == s.subnet % 16
    ensures PortAt(SetPort(s, id, dir, addr), id, dir) == GPort(16 * (s.subnet % 16) + addr % 16, addr, false, true)
  {
  }

  lemma RefusedSet(s: Addresses, id: int, dir: Direction, addr: byte)
    requires Shape(s) && (id < 0 || id >= 4 || addr > 16 || dir == INVALID)
    ensures SetPort(s, id, dir, addr) == s
  {
  }

  /** The local subnet setter: the default always; the live subnet, every port and every sequence number unless the subnet
      is under network control or is this one already. */
  lemma SubnetSet(s: Addresses, subnet: byte, i: nat)
    requires Shape(s) && i < 4
    ensures var r := SetSubnet(s, subnet);
      var moves := !s.subnetNetCtl && subnet != s.subnet;
      && r.subnet == (if moves then subnet else s.subnet)
      && r.defaultSubnet == subnet && r.subnetNetCtl == s.subnetNetCtl && r.modes == s.modes
      && r.ins[i] == (if moves then s.ins[i].(addr := Universe(subnet, s.ins[i].addr)) else s.ins[i])
      && r.outs[i] == (if moves then s.outs[i].(addr := Universe(subnet, s.outs[i].addr)) else s.outs[i])
      && r.sequences[i] == if moves then 0 else s.sequences[i]
  {
  }

  /** The subnet after an ArtAddress packet: 0 resets it, a value with the high bit sets it, any other keeps it. */
  function SubnetAfter(s: Addresses, field: byte): byte {
    if field == 0 then s.defaultSubnet else if field >= 128 then field - 128 else s.subnet
  }

  function CtlAfter(before: bool, field: byte): bool {
    field != 0 && (field >= 128 || before)
  }

  /** The address of a port after its field of the packet; the others move only if the packet's subnet field differs from
      the subnet the node then has. */
  function AddrAfter(port: GPort, subnet: byte, field: byte, sw: byte): byte {
    if sw == 0 then Universe(subnet, port.defaultAddr)
    else if sw >= 128 then Universe(subnet, sw)
    else if field != subnet then Universe(subnet, port.addr)
    else port.addr
  }

  /** An ArtAddress packet, port by port. */
  lemma PacketProgrammed(s: Addresses, t: NodeType, p: AddressPacket, i: nat)
    requires Shape(s) && WellFormed(p) && t != SRV && t != RAW && i < 4
    ensures var r := OnAddress(s, t, p);
      && r.subnet == SubnetAfter(s, p.subnet)
      && r.defaultSubnet == s.defaultSubnet && r.subnetNetCtl == CtlAfter(s.subnetNetCtl, p.subnet)
      && r.ins[i] == GPort(AddrAfter(s.ins[i], r.subnet, p.subnet, p.swin[i]), s.ins[i].defaultAddr,
                           p.swout[i] >= 128 || CtlAfter(s.ins[i].netCtl, p.swin[i]), s.ins[i].enabled)
      && r.outs[i] == GPort(AddrAfter(s.outs[i], r.subnet, p.subnet, p.swout[i]), s.outs[i].defaultAddr,
                            p.swout[i] != 0 && s.outs[i].netCtl, p.swout[i] == 0 || p.swout[i] >= 128 || s.outs[i].enabled)
      && r.sequences[i] == (if r.ins[i].addr != s.ins[i].addr then 0 else s.sequences[i])
      && r.modes[i] == if p.command as int == 0x10 + i then LTP else if p.command as int == 0x50 + i then HTP else s.modes[i]
  {
    hide OnAddress, ProgramSubnet;
    SubnetProgrammedAt(s, p.subnet, i);
    RemoteAt(s, t, p, i);
    PacketRest(s, t, p, i);
  }

  lemma SubnetProgrammedAt(s: Addresses, field: byte, i: nat)
    requires Shape(s) && i < 4
    ensures var r := ProgramSubnet(s, field);
      && r.subnet == SubnetAfter(s, field) && r.subnetNetCtl == CtlAfter(s.subnetNetCtl, field)
      && r.defaultSubnet == s.defaultSubnet
      && r.ins[i] == s.ins[i].(addr := if field != r.subnet then Universe(r.subnet, s.ins[i].addr) else s.ins[i].addr)
      && r.outs[i] == s.outs[i].(addr := if field != r.subnet then Universe(r.subnet, s.outs[i].addr) else s.outs[i].addr)
      && r.sequences == s.sequences && r.modes == s.modes
  {
  }

  lemma PacketRest(s: Addresses, t: NodeType, p: AddressPacket, i: nat)
    requires Shape(s) && WellFormed(p) && t != SRV && t != RAW && i < 4
    ensures var r := OnAddress(s, t, p);
      && r.sequences[i] == (if r.ins[i].addr != s.ins[i].addr then 0 else s.sequences[i])
      && r.modes[i] == if p.command as int == 0x10 + i then LTP else if p.command as int == 0x50 + i then HTP else s.modes[i]
  {
    SubnetProgrammedAt(s, p.subnet, i);
    hide ProgramSubnet, ProgrammedIn, ProgrammedOut;
  }

  /** Servers and raw nodes ignore the packet. */
  lemma PacketIgnored(s: Addresses, p: AddressPacket)
    requires Shape(s) && WellFormed(p)
    ensures OnAddress(s, SRV, p) == s && OnAddress(s, RAW, p) == s
  {
  }

  // Whole runs: the state from the events alone.

  predicate Obeyed(t: NodeType, e: Event) {
    e.Remote? && t != SRV && t != RAW
  }

  predicate Sets(e: Event, dir: Direction, id: nat) {
    e.LocalPort? && e.id == id && e.dir == dir && e.addr <= 16
  }

  /** The subnet is under network control if the last packet that named it set it. */
  function SubnetCtl(t: NodeType, h: seq<AddressEvent>): bool {
    if h == [] then false else
    var before, e := SubnetCtl(t, h[..|h| - 1]), h[|h| - 1];
    if Obeyed(t, e) then CtlAfter(before, e.p.subnet) else before
  }

  /** The last subnet set locally while not under network control, or remotely, or restored. */
  function LiveSubnet(t: NodeType, h: seq<AddressEvent>): byte {
    if h == [] then 0 else
    var before, e := h[..|h| - 1], h[|h| - 1];
    match e
    case LocalSubnet(subnet) => if SubnetCtl(t, before) then LiveSubnet(t, before) else subnet
    case LocalPort(_, _, _) => LiveSubnet(t, before)
    case Remote(p) =>
      if !Obeyed(t, e) then LiveSubnet(t, before)
      else if p.subnet == 0 then LastSubnet(before)
      else if p.subnet >= 128 then p.subnet - 128
      else LiveSubnet(t, before)
  }

  /** An input port is under network control if the last packet that named it, or the output port of its number, set
      one of them. */
  function InputCtl(t: NodeType, h: seq<AddressEvent>, id: nat): bool
    requires id < 4
  {
    if h == [] then false else
    var before, e := InputCtl(t, h[..|h| - 1], id), h[|h| - 1];
    if Obeyed(t, e) then e.p.swout[id] >= 128 || CtlAfter(before, e.p.swin[id]) else before
  }

  /** The low nibble last given to the port by an event that took effect on it. */
  function LowInput(t: NodeType, h: seq<AddressEvent>, id: nat): byte
    requires id < 4
  {
    if h == [] then 0 else
    var before, e := h[..|h| - 1], h[|h| - 1];
    if Sets(e, INPUT, id) && !InputCtl(t, before, id) then e.addr % 16
    else if Obeyed(t, e) && e.p.swin[id] == 0 then LastLocal(before, INPUT, id) % 16
    else if Obeyed(t, e) && e.p.swin[id] >= 128 then e.p.swin[id] % 16
    else LowInput(t, before, id)
  }

  function LowOutput(t: NodeType, h: seq<AddressEvent>, id: nat): byte
    requires id < 4
  {
    if h == [] then 0 else
    var before, e := h[..|h| - 1], h[|h| - 1];
    if Sets(e, OUTPUT, id) then e.addr % 16
    else if Obeyed(t, e) && e.p.swout[id] == 0 then LastLocal(before, OUTPUT, id) % 16
    else if Obeyed(t, e) && e.p.swout[id] >= 128 then e.p.swout[id] % 16
    else LowOutput(t, before, id)
  }

  /** An input port is enabled by the first local call for it, an output port also by the first packet that names it. */
  function Enabled(t: NodeType, h: seq<AddressEvent>, dir: Direction, id: nat): bool
    requires id < 4
  {
    if h == [] then false else
    var before, e := h[..|h| - 1], h[|h| - 1];
    Sets(e, dir, id) || Enabled(t, before, dir, id)
    || (dir == OUTPUT && Obeyed(t, e) && (e.p.swout[id] == 0 || e.p.swout[id] >= 128))
  }

  /** The last merge command for the port. */
  function Mode(t: NodeType, h: seq<AddressEvent>, id: nat): MergeMode
    requires id < 4
  {
    if h == [] then HTP else
    var before, e := Mode(t, h[..|h| - 1], id), h[|h| - 1];
    if Obeyed(t, e) && e.p.command as int == 0x10 + id then LTP
    else if Obeyed(t, e) && e.p.command as int == 0x50 + id then HTP
    else before
  }

  /** What the events say of the subnet and of port `id`. */
  predicate Told(s: Addresses, t: NodeType, h: seq<AddressEvent>, id: nat)
    requires Shape(s) && id < 4
  {
    && s.subnet == LiveSubnet(t, h) && s.subnetNetCtl == SubnetCtl(t, h) && s.defaultSubnet == LastSubnet(h)
    && ToldPort(s.ins[id], LowInput(t, h, id), LastLocal(h, INPUT, id), InputCtl(t, h, id), Enabled(t, h, INPUT, id))
    && ToldPort(s.outs[id], LowOutput(t, h, id), LastLocal(h, OUTPUT, id), false, Enabled(t, h, OUTPUT, id))
    && s.modes[id] == Mode(t, h, id)
  }

  predicate ToldPort(port: GPort, low: byte, defaultAddr: byte, netCtl: bool, enabled: bool) {
    port == GPort(port.addr, defaultAddr, netCtl, enabled) && port.addr % 16 == low
  }

  // What one more event adds to the history.

  lemma MoreSubnet(t: NodeType, h: seq<AddressEvent>, e: AddressEvent)
    ensures SubnetCtl(t, h + [e]) ==
      if Obeyed(t, e) then CtlAfter(SubnetCtl(t, h), e.p.subnet) else SubnetCtl(t, h)
    ensures LastSubnet(h + [e]) == if e.LocalSubnet? then e.subnet else LastSubnet(h)
    ensures LiveSubnet(t, h + [e]) ==
      if e.LocalSubnet? then (if SubnetCtl(t, h) then LiveSubnet(t, h) else e.subnet)
      else if Obeyed(t, e) && e.p.subnet == 0 then LastSubnet(h)
      else if Obeyed(t, e) && e.p.subnet >= 128 then e.p.subnet - 128
      else LiveSubnet(t, h)
  {
    assert (h + [e])[..|h|] == h;
  }

  lemma MoreInput(t: NodeType, h: seq<AddressEvent>, e: AddressEvent, id: nat)
    requires id < 4
    ensures InputCtl(t, h + [e], id) ==
      if Obeyed(t, e) then e.p.swout[id] >= 128 || CtlAfter(InputCtl(t, h, id), e.p.swin[id]) else InputCtl(t, h, id)
    ensures LowInput(t, h + [e], id) ==
      if Sets(e, INPUT, id) && !InputCtl(t, h, id) then e.addr % 16
      else if Obeyed(t, e) && e.p.swin[id] == 0 then LastLocal(h, INPUT, id) % 16
      else if Obeyed(t, e) && e.p.swin[id] >= 128 then e.p.swin[id] % 16
      else LowInput(t, h, id)
  {
    hide LastLocal;
    assert (h + [e])[..|h|] == h;
  }

  lemma MoreOutput(t: NodeType, h: seq<AddressEvent>, e: AddressEvent, id: nat)
    requires id < 4
    ensures LowOutput(t, h + [e], id) ==
      if Sets(e, OUTPUT, id) then e.addr % 16
      else if Obeyed(t, e) && e.p.swout[id] == 0 then LastLocal(h, OUTPUT, id) % 16
      else if Obeyed(t, e) && e.p.swout[id] >= 128 then e.p.swout[id] % 16
      else LowOutput(t, h, id)
    ensures Mode(t, h + [e], id) ==
      if Obeyed(t, e) && e.p.command as int == 0x10 + id then LTP
      else if Obeyed(t, e) && e.p.command as int == 0x50 + id then HTP
      else Mode(t, h, id)
  {
    hide LastLocal;
    assert (h + [e])[..|h|] == h;
  }

  lemma MoreCalls(t: NodeType, h: seq<AddressEvent>, e: AddressEvent, dir: Direction, id: nat)
    requires id < 4 && dir != INVALID
    ensures LastLocal(h + [e], dir, id) == if Sets(e, dir, id) then e.addr else LastLocal(h, dir, id)
    ensures Enabled(t, h + [e], dir, id) <==>
      || Sets(e, dir, id) || Enabled(t, h, dir, id)
      || (dir == OUTPUT && Obeyed(t, e) && (e.p.swout[id] == 0 || e.p.swout[id] >= 128))
  {
    assert (h + [e])[..|h|] == h;
  }

  lemma More(t: NodeType, h: seq<AddressEvent>, e: AddressEvent, id: nat)
    requires id < 4
    ensures SubnetCtl(t, h + [e]) ==
      if Obeyed(t, e) then CtlAfter(SubnetCtl(t, h), e.p.subnet) else SubnetCtl(t, h)
    ensures LastSubnet(h + [e]) == if e.LocalSubnet? then e.subnet else LastSubnet(h)
    ensures LiveSubnet(t, h + [e]) ==
      if e.LocalSubnet? then (if SubnetCtl(t, h) then LiveSubnet(t, h) else e.subnet)
      else if Obeyed(t, e) && e.p.subnet == 0 then LastSubnet(h)
      else if Obeyed(t, e) && e.p.subnet >= 128 then e.p.subnet - 128
      else LiveSubnet(t, h)
    ensures InputCtl(t, h + [e], id) ==
      if Obeyed(t, e) then e.p.swout[id] >= 128 || CtlAfter(InputCtl(t, h, id), e.p.swin[id]) else InputCtl(t, h, id)
    ensures LowInput(t, h + [e], id) ==
      if Sets(e, INPUT, id) && !InputCtl(t, h, id) then e.addr % 16
      else if Obeyed(t, e) && e.p.swin[id] == 0 then LastLocal(h, INPUT, id) % 16
      else if Obeyed(t, e) && e.p.swin[id] >= 128 then e.p.swin[id] % 16
      else LowInput(t, h, id)
    ensures LowOutput(t, h + [e], id) ==
      if Sets(e, OUTPUT, id) then e.addr % 16
      else if Obeyed(t, e) && e.p.swout[id] == 0 then LastLocal(h, OUTPUT, id) % 16
      else if Obeyed(t, e) && e.p.swout[id] >= 128 then e.p.swout[id] % 16
      else LowOutput(t, h, id)
    ensures Mode(t, h + [e], id) ==
      if Obeyed(t, e) && e.p.command as int == 0x10 + id then LTP
      else if Obeyed(t, e) && e.p.command as int == 0x50 + id then HTP
      else Mode(t, h, id)
    ensures forall dir <- {INPUT, OUTPUT} ::
      && LastLocal(h + [e], dir, id) == (if Sets(e, dir, id) then e.addr else LastLocal(h, dir, id))
      && (Enabled(t, h + [e], dir, id) <==>
           || Sets(e, dir, id) || Enabled(t, h, dir, id)
           || (dir == OUTPUT && Obeyed(t, e) && (e.p.swout[id] == 0 || e.p.swout[id] >= 128)))
  {
    hide SubnetCtl, LiveSubnet, LastSubnet, InputCtl, LowInput, LowOutput, LastLocal, Enabled, Mode;
    MoreSubnet(t, h, e);
    MoreInput(t, h, e, id);
    MoreOutput(t, h, e, id);
    MoreCalls(t, h, e, INPUT, id);
    MoreCalls(t, h, e, OUTPUT, id);
  }

  lemma UniverseLow(subnet: byte, low: byte)
    ensures Universe(subnet, low) % 16 == low % 16
  {
  }

  lemma AddrAfterLow(port: GPort, subnet: byte, field: byte, sw: byte)
    ensures AddrAfter(port, subnet, field, sw) % 16 ==
      if sw == 0 then port.defaultAddr % 16 else if sw >= 128 then sw % 16 else port.addr % 16
  {
    UniverseLow(subnet, port.defaultAddr);
    UniverseLow(subnet, sw);
    UniverseLow(subnet, port.addr);
  }

  lemma SubnetTold(s: Addresses, t: NodeType, h: seq<AddressEvent>, subnet: byte, id: nat)
    requires Shape(s) && id < 4 && Told(s, t, h, id)
    ensures Told(SetSubnet(s, subnet), t, h + [LocalSubnet(subnet)], id)
  {
    hide SubnetCtl, LiveSubnet, LastSubnet, InputCtl, LowInput, LowOutput, LastLocal, Enabled, Mode, SetSubnet, Universe;
    var e := LocalSubnet(subnet);
    More(t, h, e, id);
    SubnetSet(s, subnet, id);
    UniverseLow(subnet, s.ins[id].addr);
    UniverseLow(subnet, s.outs[id].addr);
  }

  lemma PortTold(s: Addresses, t: NodeType, h: seq<AddressEvent>, i: int, dir: Direction, addr: byte, id: nat)
    requires Shape(s) && id < 4 && Told(s, t, h, id)
    ensures Told(SetPort(s, i, dir, addr), t, h + [LocalPort(i, dir, addr)], id)
  {
    hide SubnetCtl, LiveSubnet, LastSubnet, InputCtl, LowInput, LowOutput, LastLocal, Enabled, Mode, SetPort, Universe;
    More(t, h, LocalPort(i, dir, addr), id);
    UniverseLow(s.subnet, addr);
    if i < 0 || i >= 4 || addr > 16 || dir == INVALID {
      RefusedSet(s, i, dir, addr);
    } else if dir == INPUT {
      InputSet(s, i, addr);
    } else {
      OutputSet(s, i, addr);
    }
  }

  lemma RemoteTold(s: Addresses, t: NodeType, h: seq<AddressEvent>, p: AddressPacket, id: nat)
    requires Shape(s) && id < 4 && Told(s, t, h, id) && WellFormed(p)
    ensures Told(OnAddress(s, t, p), t, h + [Remote(p)], id)
  {
    hide SubnetCtl, LiveSubnet, LastSubnet, InputCtl, LowInput, LowOutput, LastLocal, Enabled, Mode, OnAddress;
    hide AddrAfter, CtlAfter;
    More(t, h, Remote(p), id);
    if t == SRV || t == RAW {
      PacketIgnored(s, p);
    } else {
      PacketProgrammed(s, t, p, id);
      var subnet := OnAddress(s, t, p).subnet;
      AddrAfterLow(s.ins[id], subnet, p.subnet, p.swin[id]);
      AddrAfterLow(s.outs[id], subnet, p.subnet, p.swout[id]);
    }
  }

  /** Under any interleaving of local setters and ArtAddress packets, the subnet, its control, and each port's low nibble,
      default, control, being enabled and merge mode are exactly what the events say, the latest that took effect. */
  lemma {:induction false} StateIsTold(t: NodeType, h: seq<AddressEvent>, id: nat)
    requires id < 4
    ensures Told(Run(t, h), t, h, id)
  {
    hide SetSubnet, SetPort, OnAddress;
    if h != [] {
      var before, e := h[..|h| - 1], h[|h| - 1];
      StateIsTold(t, before, id);
      assert before + [e] == h;
      match e
      case LocalSubnet(subnet) => SubnetTold(Run(t, before), t, before, subnet, id);
      case LocalPort(i, dir, addr) => PortTold(Run(t, before), t, before, i, dir, addr, id);
      case Remote(p) => RemoteTold(Run(t, before), t, before, p, id);
    }
  }
}
