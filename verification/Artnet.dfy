/** What all of libartnet shares: libs/artnet/libartnet/common.h, artnet.h and packets.h. */
module Artnet {
  const EOK := 0
  const ENET := -1
  const EMEM := -2
  const EARG := -3
  const ESTATE := -4
  const EACTION := -5

  const MAX_PORTS := 4

  datatype NodeType = SRV | NODE | MSRV | ROUTE | BACKUP | RAW

  /** What `malloc` does next: whether it succeeds, and what the new memory happens to hold. */
  datatype Malloc<+T> = Malloc(ok: bool, memory: nat -> T)
}
