/** The ports of a node: libs/artnet/libartnet/private.h. */
module Ports {
  import opened Base

  const DMX_LENGTH := 512

  datatype MergeMode = HTP | LTP

  /** The part input and output ports share: universe address, locally set address, whether it is under network
      control, whether it has ever been given an address. */
  datatype GPort = GPort(addr: byte, defaultAddr: byte, netCtl: bool, enabled: bool)

  const UNSET := GPort(0, 0, false, false)

  class InputPort {
    var port: GPort
    var sequence: byte

    constructor ()
      ensures port == UNSET && sequence == 0
    {
      port, sequence := UNSET, 0;
    }
  }

  /** What an output port remembers of its two sources and what it outputs. Address 0 means an empty slot. */
  datatype Merge = Merge(
    length: nat, data: seq<byte>, mode: MergeMode, dataA: seq<byte>, dataB: seq<byte>,
    timeA: int, timeB: int, ipA: nat, ipB: nat)

  class OutputPort {
    var port: GPort
    var length: nat
    const data: array<byte>
    var mergeMode: MergeMode
    const dataA: array<byte>
    const dataB: array<byte>
    var timeA: int
    var timeB: int
    var ipA: nat
    var ipB: nat
    ghost var callbacks: nat // calls of the user's dmx callback

    ghost function Repr(): set<object> {
      {this, data, dataA, dataB}
    }

    ghost predicate Valid() {
      data.Length == dataA.Length == dataB.Length == DMX_LENGTH && |{data, dataA, dataB}| == 3
    }

    ghost function View(): Merge
      reads Repr()
    {
      Merge(length, data[..], mergeMode, dataA[..], dataB[..], timeA, timeB, ipA, ipB)
    }

    constructor ()
      ensures Valid() && fresh(Repr()) && port == UNSET && callbacks == 0
      ensures View() == Merge(0, seq(DMX_LENGTH, _ => 0), HTP, seq(DMX_LENGTH, _ => 0), seq(DMX_LENGTH, _ => 0), 0, 0, 0, 0)
    {
      port, length, mergeMode := UNSET, 0, HTP;
      data := new byte[DMX_LENGTH](_ => 0);
      dataA := new byte[DMX_LENGTH](_ => 0);
      dataB := new byte[DMX_LENGTH](_ => 0);
      timeA, timeB, ipA, ipB, callbacks := 0, 0, 0, 0, 0;
    }
  }
}
