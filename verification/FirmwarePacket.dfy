/** ArtFirmwareMaster and ArtFirmwareReply as they travel: libs/artnet/libartnet/packets.h. */
module FirmwarePacket {
  import opened Base
  import opened Misc

  const WORDS := 512  // 16-bit words in one packet
  const BLOCK := 1024 // and in bytes

  const FIRMFIRST: byte := 0
  const FIRMCONT: byte := 1
  const FIRMLAST: byte := 2
  const UBEAFIRST: byte := 3
  const UBEACONT: byte := 4
  const UBEALAST: byte := 5

  const BLOCKGOOD: byte := 0x00
  const ALLGOOD: byte := 0x01
  const FAIL: byte := 0xff

  /** `from` is the address the datagram came from; `length` counts words, big-endian. */
  datatype MasterPacket = MasterPacket(from: nat, kind: byte, blockId: byte, length: seq<byte>, data: seq<word>)

  type Master = p: MasterPacket | p.from > 0 && |p.length| == 4 && |p.data| == WORDS
    witness MasterPacket(1, 0, 0, [0, 0, 0, 0], seq(WORDS, _ => 0))

  datatype Reply = Reply(to: nat, code: byte)

  predicate IsFirst(kind: byte) { kind == FIRMFIRST || kind == UBEAFIRST }
  predicate IsCont(kind: byte) { kind == FIRMCONT || kind == UBEACONT }
  predicate IsLast(kind: byte) { kind == FIRMLAST || kind == UBEALAST }

  /** The announced size in bytes: the product is computed wide and then stored in an `int`. */
  function Length(p: Master): (r: int)
    ensures -0x8000_0000 <= r < 0x8000_0000 && r % 2 == 0
  {
    ToInt32(2 * NBytesTo32(p.length))
  }

  /** The words block `k` of `image` puts on the wire: up to 512 of them, padded with zeros. */
  function Payload(image: seq<word>, k: nat): (r: seq<word>)
    requires WORDS * k <= |image|
    ensures |r| == WORDS
    ensures forall i :: 0 <= i < WORDS && WORDS * k + i < |image| ==> r[i] == image[WORDS * k + i]
  {
    var n := Min(WORDS, |image| - WORDS * k);
    image[WORDS * k..WORDS * k + n] + seq(WORDS - n, _ => 0)
  }

  function Kind(image: seq<word>, ubea: bool, k: nat): byte {
    if k == 0 then (if ubea then UBEAFIRST else FIRMFIRST)
    else if WORDS * (k + 1) <= |image| then (if ubea then UBEACONT else FIRMCONT)
    else (if ubea then UBEALAST else FIRMLAST)
  }

  /** Packet number `k` of the transfer of `image`, carrying block id `id`. */
  function NthPacket(image: seq<word>, ubea: bool, from: nat, k: nat, id: byte): (p: Master)
    requires from > 0 && WORDS * k <= |image| < 0x4000_0000
    ensures Length(p) == 2 * |image|
  {
    DecodeEncode(|image|);
    MasterPacket(from, Kind(image, ubea, k), id, BigEndian(|image|), Payload(image, k))
  }

  /** Number of packets a transfer of `words` words takes; an empty image still sends a FIRST. */
  function NumBlocks(words: nat): nat {
    if words == 0 then 1 else (words + WORDS - 1) / WORDS
  }
}
