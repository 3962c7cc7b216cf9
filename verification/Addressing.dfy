/** Universe addressing: the local setters of artnet.c against remote programming by ArtAddress (`handle_address`). */
module Addressing {
  import opened Base
  import opened Artnet
  import opened Ports

  const NO_CHANGE: byte := 0x7f
  const DEFAULTS: byte := 0x00
  const CHANGE_BIT: byte := 0x80

  datatype Direction = INPUT | OUTPUT | INVALID

  /** The addressing state of a node. */
  datatype Addresses = Addresses(
    subnet: byte, defaultSubnet: byte, subnetNetCtl: bool,
    ins: seq<GPort>, sequences: seq<byte>, outs: seq<GPort>, modes: seq<MergeMode>)

  predicate Shape(s: Addresses) {
    |s.ins| == |s.sequences| == |s.outs| == |s.modes| == MAX_PORTS
  }

  function Initial(): (r: Addresses)
    ensures Shape(r)
  {
    var unset := [UNSET, UNSET, UNSET, UNSET];
    Addresses(0, 0, false, unset, [0, 0, 0, 0], unset, [HTP, HTP, HTP, HTP])
  }

  /** The fields of an ArtAddress packet that matter here. */
  datatype AddressPacket = AddressPacket(subnet: byte, swin: seq<byte>, swout: seq<byte>, command: byte)

  predicate WellFormed(p: AddressPacket) {
    |p.swin| == |p.swout| == MAX_PORTS
  }

  /** `_make_addr`: the low nibbles of subnet and address. */
  function MakeAddr(subnet: byte, addr: byte): (r: byte)
    ensures r / 0x10 == subnet % 0x10 && r % 0x10 == addr % 0x10
  {
    (subnet % 0x10) * 0x10 + addr % 0x10
  }

  function Readdressed(port: GPort, subnet: byte): GPort {
    port.(addr := MakeAddr(subnet, port.addr))
  }

  /** The first `n` input and output ports moved to the node's subnet; likewise `n` bounds the other loops below. */
  function Readdress(s: Addresses, n: nat := MAX_PORTS): (r: Addresses)
    requires Shape(s)
    ensures Shape(r)
  {
    s.(ins := seq(MAX_PORTS, i requires 0 <= i < MAX_PORTS => if i < n then Readdressed(s.ins[i], s.subnet) else s.ins[i]),
       outs := seq(MAX_PORTS, i requires 0 <= i < MAX_PORTS => if i < n then Readdressed(s.outs[i], s.subnet) else s.outs[i]))
  }

  /** `artnet_set_subnet_addr`. */
  function SetSubnet(s: Addresses, subnet: byte): (r: Addresses)
    requires Shape(s)
    ensures Shape(r)
  {
    var s1 := s.(defaultSubnet := subnet);
    if !s.subnetNetCtl && subnet != s.subnet then
      Readdress(s1.(subnet := subnet)).(sequences := [0, 0, 0, 0])
    else s1
  }

  predicate BadPort(id: int, dir: Direction, addr: byte) {
    id < 0 || id >= MAX_PORTS || addr > 16 || dir == INVALID
  }

  function PortAt(s: Addresses, id: int, dir: Direction): GPort
    requires Shape(s) && 0 <= id < MAX_PORTS
  {
    if dir == INPUT then s.ins[id] else s.outs[id]
  }

  predicate Moves(port: GPort, addr: byte) {
    !port.netCtl && (!port.enabled || addr % 0x10 != port.addr % 0x10)
  }

  function LocallySet(port: GPort, subnet: byte, addr: byte): GPort {
    var enabled := port.(enabled := true, defaultAddr := addr);
    if Moves(port, addr) then enabled.(addr := MakeAddr(subnet, addr)) else enabled
  }

  /** `artnet_set_port_addr`. */
  function SetPort(s: Addresses, id: int, dir: Direction, addr: byte): (r: Addresses)
    requires Shape(s)
    ensures Shape(r)
  {
    if BadPort(id, dir, addr) then s
    else if dir == INPUT then
      s.(ins := s.ins[id := LocallySet(s.ins[id], s.subnet, addr)],
         sequences := s.sequences[id := if Moves(s.ins[id], addr) then 0 else s.sequences[id]])
    else
      s.(outs := s.outs[id := LocallySet(s.outs[id], s.subnet, addr)])
  }

  /** Programming the subnet. The comparison that decides on readdressing is with the packet's field. */
  function ProgramSubnet(s: Addresses, subnet: byte): (r: Addresses)
    requires Shape(s)
    ensures Shape(r)
  {
    var s1 :=
      if subnet == DEFAULTS then s.(subnet := s.defaultSubnet, subnetNetCtl := false)
      else if subnet >= CHANGE_BIT then s.(subnet := subnet - CHANGE_BIT, subnetNetCtl := true)
      else s;
    if subnet != s1.subnet then Readdress(s1) else s1
  }

  function ProgrammedIn(port: GPort, subnet: byte, sw: byte): GPort {
    if sw == DEFAULTS then port.(addr := MakeAddr(subnet, port.defaultAddr), netCtl := false)
    else if sw >= CHANGE_BIT then port.(addr := MakeAddr(subnet, sw), netCtl := true)
    else port
  }

  function ProgrammedOut(port: GPort, subnet: byte, sw: byte): GPort {
    if sw == DEFAULTS then port.(addr := MakeAddr(subnet, port.defaultAddr), netCtl := false, enabled := true)
    else if sw >= CHANGE_BIT then port.(addr := MakeAddr(subnet, sw), enabled := true)
    else port
  }

  function ProgramInputs(s: Addresses, swin: seq<byte>, n: nat := MAX_PORTS): (r: Addresses)
    requires Shape(s) && |swin| == MAX_PORTS
    ensures Shape(r)
  {
    s.(ins := seq(MAX_PORTS, i requires 0 <= i < MAX_PORTS =>
                 if i < n then ProgrammedIn(s.ins[i], s.subnet, swin[i]) else s.ins[i]))
  }

  /** Programming an output port puts the input port of the same number under network control. */
  function ProgramOutputs(s: Addresses, swout: seq<byte>, n: nat := MAX_PORTS): (r: Addresses)
    requires Shape(s) && |swout| == MAX_PORTS
    ensures Shape(r)
  {
    s.(outs := seq(MAX_PORTS, i requires 0 <= i < MAX_PORTS =>
                  if i < n then ProgrammedOut(s.outs[i], s.subnet, swout[i]) else s.outs[i]),
       ins := seq(MAX_PORTS, i requires 0 <= i < MAX_PORTS =>
                 if i < n && swout[i] >= CHANGE_BIT then s.ins[i].(netCtl := true) else s.ins[i]))
  }

  function ResetSequences(s: Addresses, before: seq<GPort>, n: nat := MAX_PORTS): (r: Addresses)
    requires Shape(s) && |before| == MAX_PORTS
    ensures Shape(r)
  {
    s.(sequences := seq(MAX_PORTS, i requires 0 <= i < MAX_PORTS =>
                       if i < n && before[i].addr != s.ins[i].addr then 0 else s.sequences[i]))
  }

  function Command(s: Addresses, command: byte): (r: Addresses)
    requires Shape(s)
    ensures Shape(r)
  {
    if 0x10 <= command <= 0x13 then s.(modes := s.modes[command - 0x10 := LTP])
    else if 0x50 <= command <= 0x53 then s.(modes := s.modes[command - 0x50 := HTP])
    else s
  }

  /** `handle_address`. */
  function OnAddress(s: Addresses, nodeType: NodeType, p: AddressPacket): (r: Addresses)
    requires Shape(s) && WellFormed(p)
    ensures Shape(r)
  {
    if nodeType == SRV || nodeType == RAW then s else
    var s1 := ProgramSubnet(s, p.subnet);
    var s2 := ProgramOutputs(ProgramInputs(s1, p.swin), p.swout);
    Command(ResetSequences(s2, s.ins), p.command)
  }

  lemma BadPortIgnored(s: Addresses, id: int, dir: Direction, addr: byte)
    requires Shape(s)
    ensures BadPort(id, dir, addr) ==> SetPort(s, id, dir, addr) == s
  {
  }

  lemma ServersIgnore(s: Addresses, nodeType: NodeType, p: AddressPacket)
    requires Shape(s) && WellFormed(p) && nodeType in {SRV, RAW}
    ensures OnAddress(s, nodeType, p) == s
  {
  }

  // One round of each loop.

  lemma ReaddressRound(s: Addresses, i: nat)
    requires Shape(s) && i < MAX_PORTS
    ensures Readdress(s, 0) == s
    ensures var r := Readdress(s, i);
      r.(ins := r.ins[i := Readdressed(s.ins[i], s.subnet)], outs := r.outs[i := Readdressed(s.outs[i], s.subnet)])
      == Readdress(s, i + 1)
  {
    var r, q := Readdress(s, i), Readdress(s, i + 1);
    assert r.ins[i := Readdressed(s.ins[i], s.subnet)] == q.ins;
    assert r.outs[i := Readdressed(s.outs[i], s.subnet)] == q.outs;
    assert Readdress(s, 0).ins == s.ins && Readdress(s, 0).outs == s.outs;
  }

  lemma ProgramInputsRound(s: Addresses, swin: seq<byte>, i: nat)
    requires Shape(s) && |swin| == MAX_PORTS && i < MAX_PORTS
    ensures ProgramInputs(s, swin, 0) == s
    ensures var r := ProgramInputs(s, swin, i);
      r.(ins := r.ins[i := ProgrammedIn(s.ins[i], s.subnet, swin[i])]) == ProgramInputs(s, swin, i + 1)
  {
    var r, q := ProgramInputs(s, swin, i), ProgramInputs(s, swin, i + 1);
    assert r.ins[i := ProgrammedIn(s.ins[i], s.subnet, swin[i])] == q.ins;
    assert ProgramInputs(s, swin, 0).ins == s.ins;
  }

  lemma ProgramOutputsRound(s: Addresses, swout: seq<byte>, i: nat)
    requires Shape(s) && |swout| == MAX_PORTS && i < MAX_PORTS
    ensures ProgramOutputs(s, swout, 0) == s
    ensures var r := ProgramOutputs(s, swout, i);
      && r.outs[i] == s.outs[i] && r.ins[i] == s.ins[i]
      && r.(outs := r.outs[i := ProgrammedOut(s.outs[i], s.subnet, swout[i])],
            ins := if swout[i] >= CHANGE_BIT then r.ins[i := s.ins[i].(netCtl := true)] else r.ins)
         == ProgramOutputs(s, swout, i + 1)
  {
    var r, q := ProgramOutputs(s, swout, i), ProgramOutputs(s, swout, i + 1);
    assert r.outs[i := ProgrammedOut(s.outs[i], s.subnet, swout[i])] == q.outs;
    assert (if swout[i] >= CHANGE_BIT then r.ins[i := s.ins[i].(netCtl := true)] else r.ins) == q.ins;
    assert ProgramOutputs(s, swout, 0).ins == s.ins && ProgramOutputs(s, swout, 0).outs == s.outs;
  }

  lemma ResetSequencesRound(s: Addresses, before: seq<GPort>, i: nat)
    requires Shape(s) && |before| == MAX_PORTS && i < MAX_PORTS
    ensures ResetSequences(s, before, 0) == s
    ensures var r := ResetSequences(s, before, i);
      (if before[i].addr != s.ins[i].addr then r.(sequences := r.sequences[i := 0]) else r)
      == ResetSequences(s, before, i + 1)
  {
    var r, q := ResetSequences(s, before, i), ResetSequences(s, before, i + 1);
    assert (if before[i].addr != s.ins[i].addr then r.sequences[i := 0] else r.sequences) == q.sequences;
    assert ResetSequences(s, before, 0).sequences == s.sequences;
  }

  /** An ArtPollReply: the addresses it announces, and whether it answers a packet. */
  datatype Announcement = Announcement(state: Addresses, response: bool)

  /** A port as a new node has it. */
  ghost predicate IsNew(port: OutputPort)
    reads port
  {
    port.Valid() && port.port == UNSET && port.mergeMode == HTP
  }

  method NewOutputPort() returns (port: OutputPort)
    ensures fresh(port.Repr()) && IsNew(port)
  {
    port := new OutputPort();
  }

  method NewPorts() returns (ins: seq<InputPort>, outs: seq<OutputPort>)
    ensures |ins| == |outs| == MAX_PORTS
    ensures forall i :: 0 <= i < MAX_PORTS ==> fresh(ins[i]) && ins[i].port == UNSET && ins[i].sequence == 0
    ensures forall i :: 0 <= i < MAX_PORTS ==> fresh(outs[i].Repr()) && IsNew(outs[i])
    ensures forall i, j :: 0 <= i < j < MAX_PORTS ==> ins[i] != ins[j] && outs[i].Repr() !! outs[j].Repr()
  {
    ins, outs := [], [];
    while |ins| < MAX_PORTS
      invariant |ins| == |outs| <= MAX_PORTS
      invariant forall i :: 0 <= i < |ins| ==> fresh(ins[i]) && ins[i].port == UNSET && ins[i].sequence == 0
      invariant forall i :: 0 <= i < |outs| ==> fresh(outs[i].Repr()) && IsNew(outs[i])
      invariant forall i, j :: 0 <= i < j < |ins| ==> ins[i] != ins[j] && outs[i].Repr() !! outs[j].Repr()
    {
      var input := new InputPort();
      var output := NewOutputPort();
      ins, outs := ins + [input], outs + [output];
    }
  }

  class Node {
    var nodeType: NodeType
    var on: bool
    var subnet: byte
    var defaultSubnet: byte
    var subnetNetCtl: bool
    const ins: seq<InputPort>
    const outs: seq<OutputPort>
    ghost var announced: seq<Announcement> // what the network took
    ghost var programmed: nat              // calls of the user's program callback

    ghost predicate Valid() {
      && |ins| == |outs| == MAX_PORTS
      && (forall i, j :: 0 <= i < j < MAX_PORTS ==> ins[i] != ins[j] && outs[i] != outs[j])
    }

    ghost function View(): (r: Addresses)
      requires Valid()
      reads this`subnet, this`defaultSubnet, this`subnetNetCtl, ins, outs
      ensures Shape(r)
      ensures forall i :: 0 <= i < MAX_PORTS ==> r.ins[i] == ins[i].port && r.sequences[i] == ins[i].sequence
      ensures forall i :: 0 <= i < MAX_PORTS ==> r.outs[i] == outs[i].port && r.modes[i] == outs[i].mergeMode
    {
      Addresses(subnet, defaultSubnet, subnetNetCtl,
                [ins[0].port, ins[1].port, ins[2].port, ins[3].port],
                [ins[0].sequence, ins[1].sequence, ins[2].sequence, ins[3].sequence],
                [outs[0].port, outs[1].port, outs[2].port, outs[3].port],
                [outs[0].mergeMode, outs[1].mergeMode, outs[2].mergeMode, outs[3].mergeMode])
    }

    /** The addressing part of `artnet_new`. */
    constructor ()
      ensures Valid() && View() == Initial() && nodeType == SRV && !on && announced == [] && programmed == 0
      ensures forall i :: 0 <= i < MAX_PORTS ==> fresh(ins[i]) && outs[i].Valid() && fresh(outs[i].Repr())
      ensures forall i, j :: 0 <= i < j < MAX_PORTS ==> outs[i].Repr() !! outs[j].Repr()
    {
      nodeType, on, subnet, defaultSubnet, subnetNetCtl := SRV, false, 0, 0, false;
      announced, programmed := [], 0;
      var newIns, newOuts := NewPorts();
      ins, outs := newIns, newOuts;
    }

    /** Builds and sends an ArtPollReply; `net` is what sending it returns. */
    method Announce(response: bool, net: int) returns (ret: int)
      requires Valid()
      modifies this`announced
      ensures ret == net && announced == old(announced) + if net == EOK then [Announcement(View(), response)] else []
    {
      if net == EOK {
        announced := announced + [Announcement(View(), response)];
      }
      return net;
    }

    // Assignments to one field of one port.

    method PutIn(i: nat, port: GPort)
      requires Valid() && i < MAX_PORTS
      modifies ins[i]
      ensures View() == old(View()).(ins := old(View()).ins[i := port])
    {
      ins[i].port := port;
      assert View().ins == old(View()).ins[i := port];
    }

    method PutOut(i: nat, port: GPort)
      requires Valid() && i < MAX_PORTS
      modifies outs[i]
      ensures View() == old(View()).(outs := old(View()).outs[i := port])
    {
      outs[i].port := port;
      assert View().outs == old(View()).outs[i := port];
    }

    method ZeroSequence(i: nat)
      requires Valid() && i < MAX_PORTS
      modifies ins[i]
      ensures View() == old(View()).(sequences := old(View()).sequences[i := 0])
    {
      ins[i].sequence := 0;
      assert View().sequences == old(View()).sequences[i := 0];
    }

    method PutMode(i: nat, mode: MergeMode)
      requires Valid() && i < MAX_PORTS
      modifies outs[i]
      ensures View() == old(View()).(modes := old(View()).modes[i := mode])
    {
      outs[i].mergeMode := mode;
      assert View().modes == old(View()).modes[i := mode];
    }

    /** Rewrites the high nibble of every port address. */
    method ReaddressPorts()
      requires Valid()
      modifies ins, outs
      ensures View() == Readdress(old(View()))
    {
      ghost var s := View();
      ReaddressRound(s, 0);
      var i := 0;
      while i < MAX_PORTS
        invariant 0 <= i <= MAX_PORTS
        invariant View() == Readdress(s, i)
      {
        ReaddressRound(s, i);
        PutIn(i, ins[i].port.(addr := MakeAddr(subnet, ins[i].port.addr)));
        PutOut(i, outs[i].port.(addr := MakeAddr(subnet, outs[i].port.addr)));
        i := i + 1;
      }
    }

    method ZeroSequences()
      requires Valid()
      modifies ins
      ensures View() == old(View()).(sequences := [0, 0, 0, 0])
    {
      ghost var s := View();
      var i := 0;
      while i < MAX_PORTS
        invariant 0 <= i <= MAX_PORTS
        invariant View() == s.(sequences := View().sequences)
        invariant forall j :: 0 <= j < i ==> View().sequences[j] == 0
      {
        ZeroSequence(i);
        i := i + 1;
      }
      assert View().sequences == [0, 0, 0, 0];
    }

    method SetSubnetAddr(newSubnet: byte, net: int) returns (ret: int)
      requires Valid()
      modifies this`subnet, this`defaultSubnet, this`announced, ins, outs
      ensures View() == SetSubnet(old(View()), newSubnet)
      ensures var tells := on && !subnetNetCtl && newSubnet != old(subnet);
        && ret == (if tells then net else EOK)
        && announced == old(announced) + if tells && net == EOK then [Announcement(View(), false)] else []
    {
      hide Readdress;
      defaultSubnet := newSubnet;
      if !subnetNetCtl && newSubnet != subnet {
        subnet := newSubnet;
        ReaddressPorts();
        ZeroSequences();
        if on {
          ret := Announce(false, net);
          return;
        }
      }
      return EOK;
    }

    method SetPortAddr(id: int, dir: Direction, addr: byte, net: int) returns (ret: int)
      requires Valid()
      modifies this`announced, ins, outs
      ensures View() == SetPort(old(View()), id, dir, addr)
      ensures var tells := on && !BadPort(id, dir, addr) &&
          Moves(PortAt(old(View()), id, dir), addr);
        && ret == (if BadPort(id, dir, addr) then EARG else if tells then net else EOK)
        && announced == old(announced) + if tells && net == EOK then [Announcement(View(), false)] else []
    {
      hide View, SetPort, Moves, PortAt;
      BadPortIgnored(View(), id, dir, addr);
      if id < 0 || id >= MAX_PORTS {
        return EARG;
      }
      if addr > 16 {
        return EARG;
      }
      if dir == INVALID {
        return EARG;
      }
      var moved := SetPortFields(id, dir, addr);
      if moved && on {
        ret := Announce(false, net);
        return;
      }
      return EOK;
    }

    /** The assignments of `artnet_set_port_addr`, once its arguments are accepted. */
    method SetPortFields(id: int, dir: Direction, addr: byte) returns (moved: bool)
      requires Valid() && !BadPort(id, dir, addr)
      modifies ins, outs
      ensures View() == SetPort(old(View()), id, dir, addr)
      ensures moved == Moves(PortAt(old(View()), id, dir), addr)
    {
      var port := if dir == INPUT then ins[id].port else outs[id].port;
      assert port == PortAt(View(), id, dir);
      var changed := !port.enabled;
      moved := !port.netCtl && (changed || addr % 0x10 != port.addr % 0x10);
      port := port.(enabled := true, defaultAddr := addr);
      if moved {
        port := port.(addr := MakeAddr(subnet, addr));
        if dir == INPUT {
          ZeroSequence(id);
        }
      }
      if dir == INPUT {
        PutIn(id, port);
      } else {
        PutOut(id, port);
      }
    }

    method RemoteSubnet(field: byte)
      requires Valid()
      modifies this`subnet, this`subnetNetCtl, ins, outs
      ensures View() == ProgramSubnet(old(View()), field)
    {
      hide Readdress;
      if field == DEFAULTS {
        subnet := defaultSubnet;
        subnetNetCtl := false;
      } else if field >= CHANGE_BIT {
        subnet := field - CHANGE_BIT;
        subnetNetCtl := true;
      }
      if field != subnet {
        ReaddressPorts();
      }
    }

    method RemoteInputs(swin: seq<byte>)
      requires Valid() && |swin| == MAX_PORTS
      modifies ins
      ensures View() == ProgramInputs(old(View()), swin)
    {
      ghost var s := View();
      ProgramInputsRound(s, swin, 0);
      var i := 0;
      while i < MAX_PORTS
        invariant 0 <= i <= MAX_PORTS
        invariant View() == ProgramInputs(s, swin, i)
      {
        ProgramInputsRound(s, swin, i);
        var port := ins[i].port;
        if swin[i] == NO_CHANGE {
        } else if swin[i] == DEFAULTS {
          PutIn(i, port.(addr := MakeAddr(subnet, port.defaultAddr), netCtl := false));
        } else if swin[i] >= CHANGE_BIT {
          PutIn(i, port.(addr := MakeAddr(subnet, swin[i]), netCtl := true));
        }
        i := i + 1;
      }
    }

    method RemoteOutput(i: nat, sw: byte)
      requires Valid() && i < MAX_PORTS
      modifies ins[i], outs[i]
      ensures View() == old(var s := View(); s.(
        outs := s.outs[i := ProgrammedOut(s.outs[i], s.subnet, sw)],
        ins := if sw >= CHANGE_BIT then s.ins[i := s.ins[i].(netCtl := true)] else s.ins))
    {
      ghost var s := View();
      var port := outs[i].port;
      if sw == NO_CHANGE {
        assert s.outs[i := port] == s.outs;
      } else if sw == DEFAULTS {
        PutOut(i, port.(addr := MakeAddr(subnet, port.defaultAddr), netCtl := false, enabled := true));
      } else if sw >= CHANGE_BIT {
        PutOut(i, port.(addr := MakeAddr(subnet, sw), enabled := true));
        PutIn(i, ins[i].port.(netCtl := true));
      } else {
        assert s.outs[i := port] == s.outs;
      }
    }

    method RemoteOutputs(swout: seq<byte>)
      requires Valid() && |swout| == MAX_PORTS
      modifies ins, outs
      ensures View() == ProgramOutputs(old(View()), swout)
    {
      hide ProgrammedOut;
      ghost var s := View();
      ProgramOutputsRound(s, swout, 0);
      var i := 0;
      while i < MAX_PORTS
        invariant 0 <= i <= MAX_PORTS
        invariant View() == ProgramOutputs(s, swout, i)
      {
        ProgramOutputsRound(s, swout, i);
        RemoteOutput(i, swout[i]);
        i := i + 1;
      }
    }

    method RemoteSequences(before: seq<GPort>)
      requires Valid() && |before| == MAX_PORTS
      modifies ins
      ensures View() == ResetSequences(old(View()), before)
    {
      ghost var s := View();
      ResetSequencesRound(s, before, 0);
      var i := 0;
      while i < MAX_PORTS
        invariant 0 <= i <= MAX_PORTS
        invariant View() == ResetSequences(s, before, i)
      {
        ResetSequencesRound(s, before, i);
        if before[i].addr != ins[i].port.addr {
          ZeroSequence(i);
        }
        i := i + 1;
      }
    }

    method RemoteCommand(command: byte)
      requires Valid()
      modifies outs
      ensures View() == Command(old(View()), command)
    {
      if 0x10 <= command <= 0x13 {
        PutMode(command - 0x10, LTP);
      } else if 0x50 <= command <= 0x53 {
        PutMode(command - 0x50, HTP);
      }
    }

    method StoredInputs() returns (ports: seq<GPort>)
      requires Valid()
      ensures ports == View().ins
    {
      ports := [ins[0].port, ins[1].port, ins[2].port, ins[3].port];
    }

    method ProgramAddresses(p: AddressPacket)
      requires Valid() && WellFormed(p)
      modifies this`subnet, this`subnetNetCtl, ins, outs
      ensures View() == ProgramOutputs(ProgramInputs(ProgramSubnet(old(View()), p.subnet), p.swin), p.swout)
    {
      hide View, ProgramSubnet, ProgramInputs, ProgramOutputs;
      RemoteSubnet(p.subnet);
      RemoteInputs(p.swin);
      RemoteOutputs(p.swout);
    }

    /** The programming part of `handle_address`. */
    method Program(p: AddressPacket)
      requires Valid() && WellFormed(p) && nodeType !in {SRV, RAW}
      modifies this`subnet, this`subnetNetCtl, ins, outs
      ensures View() == OnAddress(old(View()), nodeType, p)
    {
      hide View, ProgramSubnet, ProgramInputs, ProgramOutputs, ResetSequences, Command;
      var before := StoredInputs();
      ProgramAddresses(p);
      RemoteSequences(before);
      RemoteCommand(p.command);
    }

    /** `handle_address`: afterwards the callback is made and the new addresses are announced. */
    method HandleAddress(p: AddressPacket, net: int) returns (ret: int)
      requires Valid() && WellFormed(p)
      modifies this`subnet, this`subnetNetCtl, this`announced, this`programmed, ins, outs
      ensures View() == OnAddress(old(View()), nodeType, p)
      ensures var obeys := nodeType !in {SRV, RAW};
        && ret == (if obeys then net else EOK)
        && programmed == old(programmed) + (if obeys then 1 else 0)
        && announced == old(announced) + if obeys && net == EOK then [Announcement(View(), true)] else []
    {
      hide View, OnAddress;
      if nodeType == SRV || nodeType == RAW {
        ServersIgnore(View(), nodeType, p);
        return EOK;
      }
      Program(p);
      programmed := programmed + 1;
      ret := Announce(true, net);
    }
  }
}
