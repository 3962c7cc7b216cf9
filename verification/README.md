# Verified model of the Art-Net node and its USB back end

The program receives Art-Net lighting data, patches it with overlays sent by a small Python client, and replays the
result into an Enttec USB widget. This project models the parts whose behaviour depends on state built up over many
packets, and proves what they guarantee over whole runs. `dafny verify dfyconfig.toml` checks all of it.

| files | subject |
|---|---|
| `Base`, `Artnet`, `Misc` | machine integers, `memcpy`, libartnet's shared constants, the big-endian length codec |
| `FirmwarePacket`, `FirmwareReceiver`, `FirmwareHistory`, `FirmwareRejections` | the receiver of a firmware transfer, against any packets |
| `FirmwareSender`, `FirmwareReplies` | the sender, against any replies |
| `FirmwareBlocks`, `FirmwareTransfer`, `FirmwareTimeout` | block numbers, both parties joined by a link, and what a time-out does |
| `Ports`, `DmxMerge`, `DmxRuns` | merging two DMX sources on an output port |
| `Addressing`, `AddressingRuns`, `AddressingHistory` | local setters against remote address programming |
| `PeerRing` | groups of nodes as circular linked lists on the heap |
| `EnttecFrame` | the serial frame printer and its two parsers |
| `Tod`, `TodRuns`, `TodData` | the table of RDM devices, its runs and its broadcast |
| `NodeList` | the linked list of nodes seen on the network |
| `Overlay`, `UsbClient` | the overlay protocol from the client's calls to the composed frame |
| `FlushTiming` | the polling timer and how soon an update reaches the widget |

Each object of the source is a class whose methods change its fields in place. A method's contract says that the
state afterwards, buffers and ghost event logs included, is a step function of the state before; the lemmas then say
what those step functions guarantee over every sequence of steps, and state each step once more from the protocol alone,
with its numbers written out. User callbacks are taken to be installed and to
return 0, and are recorded in ghost logs (`uploads`, `results`, `callbacks`, `programmed`, `delivered`,
`events`), as are the packets put on the wire (`sent`, `replies`, `announced`, `written`). What the environment decides is a parameter: whether `malloc`
succeeds and what the new memory holds, whether the network takes a datagram, how many bytes a write takes, the
clock, whether plain `char` is signed, and the datagrams or bytes that can still be read.

Where a promised property fails, the code is kept as it is, the exact condition under which it holds is proved, and
the failing case is stated:

- Block ids are counted modulo 255 by the sender (`transmit.c:349`) and unwrapped modulo 256 by the receiver
  (`receive.c:611`). Beyond 255 blocks, block 255 is never written even when both sides report success
  (`IntactIff`, `Modulo255Resolves`).
- A multi-block image that is a whole number of blocks sends no LAST, so neither side ever completes (`AllGoodIff`).
- A one-packet upload reports its length in bytes, a longer one in words, and leaves the receiver claimed
  (`FirstCompletes`).
- Only FIRST sets the receiver's clock, so the 20 s cover the whole transfer (`TimeoutCoversTransfer`), and missing
  blocks go unnoticed (`LostBlocksGoUnnoticed`).
- The truth table in the comments of `handle_dmx` (`receive.c:111-138`) has a merge start when slot A is empty and
  slot B is held by another sender. The code discards that packet, its branch at 180-191 being unreachable
  (`SlotDiscipline`, `DiscardReached`).
- `handle_address` decides on readdressing by comparing the packet's field, not the old subnet, with the new one
  (`receive.c:271-284`), so a reset to a default of 0 leaves ports behind (`RemoteConsistentIff`,
  `StaleResetReached`). Programming an
  output port puts the input port under network control (`receive.c:318`).
- `artnet_join` is documented to return 0 on success and returns ARTNET_ESTATE (`Join`).
- `remove_tod_uid` never compares slot 0 and looks one slot past the live ones (`RemovalIff`, `TalliesIffHarmless`), so
  removing the last UID twice drops another one (`DoubleRemovalReached`).
- `artnet_tx_tod_data` clears 200 bytes, not 200 UIDs, of the datagram before each block, so what follows the announced
  UIDs of a last block may be left over from the block before (`CleanTailIff`, `LeftoverFromBlockBefore`).
- `find_nodes_from_uni` is documented to return the number of nodes and returns the number of ports, which is the same
  exactly if no node has two ports on the universe (`PortsAreNodesIff`, `TwoPortsOneNode`). `artnet_send_dmx` takes it
  for the number of addresses and otherwise also sends to some that were never written (`UnicastIsNodesIff`).
- `FTDI_ReceiveData` rejects the 513-byte frames the node itself sends, and with label 0 looks for no start code
  (`ReceiveRoundTrip`, `ReceiveData`).
- `FTDI_RxDMX` compares a plain `char` with the end code 0xE7 (`usb_pro.cc:147,167`). Where `char` is signed, as on Windows,
  it therefore never accepts anything (`SignedNeverReads`); where it is unsigned it reads frames of up to 513 bytes
  (`RxRoundTrip`). It does not look for a second 0x7E, so one in the junk can cost the frame (`ReadAfterJunkIff`,
  `StrayStartLosesFrame`).
- Both readers go on when a read of the length times out (`usb_pro.cc:118-120,154`), and can then deliver bytes that are not
  the data of any frame (`LateLengthShifts`, `ShortHeaderShifts`).
- `FTDI_SendData` reports failure as 0 while `FlushFrame` tests for a negative result, so a failed send counts as sent
  (`FailedSendIsForgotten`) and the widget has all that was sent only if no write ever failed (`WireIsSentIff`).
- A 101st `add_overlay` raises an index error but is counted (`OneCallTooMany`), and the message then printed is
  accepted although it announces a range more than fits (`OneCallTooManyIsDelivered`). The server checks no range either
  (`RangeBehindTheEndIsDelivered`, `InBoundsIff`).

## Model

| member | source | states |
|---|---|---|
| `Misc.IntToBytes` | libs/artnet/libartnet/misc.c:51-56 | writes the big-endian bytes of a 32-bit value into the first four bytes of the array and leaves the rest alone; with DecodeEncode, the bytes read back as that value |
| `Misc.DecodeEncode` | libs/artnet/libartnet/misc.c:44-56 | decoding undoes encoding on every 32-bit integer, negative ones included |
| `Misc.EncodeDecode` | libs/artnet/libartnet/misc.c:44-56 | encoding undoes decoding on every four bytes, so the two are inverse bijections |
| `Misc.Wraps` | libs/artnet/libartnet/receive.c:545-546 | a length whose byte count does not fit an int wraps around modulo 2^32 |
| `Misc.BytesWeigh` | libs/artnet/libartnet/misc.c:44-56 | the four bytes weigh 2^24, 2^16, 2^8 and 1, the first one first |
| `FirmwareReceiver.AcceptedBlockFits` | libs/artnet/libartnet/receive.c:600-658 | in every state, an accepted CONT block ends inside the buffer and an accepted LAST ends exactly at its end, whatever the packet says |
| `FirmwareReceiver.Receiver.HandleFirmware` | libs/artnet/libartnet/receive.c:527-690 | for any packet the whole record, buffer, callbacks and reply after the call are OnPacket of those before; the call returns ARTNET_EMEM exactly when an idle receiver cannot allocate for a FIRST, else what sending the reply returned |
| `FirmwareReceiver.Receiver.HandleFirst` | libs/artnet/libartnet/receive.c:539-598 | an idle receiver with memory begins the transfer, without memory it only claims the peer, and a busy one answers FAIL and changes nothing |
| `FirmwareReceiver.Receiver.Begin` | libs/artnet/libartnet/receive.c:553-592 | the buffer is the fresh memory with the first block copied in; a one-packet upload makes the callback at once, with its length in bytes |
| `FirmwareReceiver.Receiver.HandleCont` | libs/artnet/libartnet/receive.c:600-632 | a CONT is stored at the block its id resolves to if peer, length and block fit, else the answer is FAIL and the record is unchanged |
| `FirmwareReceiver.Receiver.HandleLast` | libs/artnet/libartnet/receive.c:634-687 | an accepted LAST completes the buffer, makes one callback and forgets the transfer; otherwise the answer is FAIL and the record is unchanged |
| `FirmwareReceiver.Receiver.CheckTimeouts` | libs/artnet/libartnet/artnet.c:1631-1643 | a transfer is dropped exactly when a peer is set and 20 s have passed since last_time |
| `FirmwareReceiver.Receiver.ResetFirmwareUpload` | libs/artnet/libartnet/receive.c:889-896 | forgets the transfer and its buffer but keeps the expected block number, the callbacks and the replies |
| `FirmwareHistory.BufferHoldsLastAccepted` | libs/artnet/libartnet/receive.c:539-690 | after any sequence of packets and timeout checks, each word of the buffer is the one carried by the last accepted packet that resolved to its block since the transfer began, or the memory as allocated if none did |
| `FirmwareHistory.DeliveredBuffer` | libs/artnet/libartnet/receive.c:655-680 | after any such sequence, an accepted LAST hands over a buffer with its own words in its block and the last accepted words everywhere else |
| `FirmwareHistory.DeliveredIsImageIff` | libs/artnet/libartnet/receive.c:539-680 | over any run LAST delivers exactly the image if and only if its words are the image's tail and every block before it was last accepted with the image's words, or was never written over memory that held them |
| `FirmwareHistory.OneCallbackPerAllGood` | libs/artnet/libartnet/receive.c:539-690 | over any run the callback is made exactly as often as ALLGOOD is answered |
| `FirmwareHistory.ForeignPacketsIgnored` | libs/artnet/libartnet/receive.c:548-690 | any number of packets from other peers leaves a transfer in progress unchanged but for one FAIL reply to each |
| `FirmwareHistory.ClockRunsFromFirst` | libs/artnet/libartnet/receive.c:558-558 | over any run last_time is the time of the FIRST that was accepted: no later packet moves it |
| `FirmwareHistory.TimeoutCoversTransfer` | libs/artnet/libartnet/artnet.c:1631-1643 | a timeout check keeps the transfer if and only if one is in progress and under 20 s have passed since its FIRST |
| `FirmwareRejections.BusyRefusesFirst` | libs/artnet/libartnet/receive.c:593-597 | a receiver with a peer answers FAIL to every FIRST, its own peer's included, and changes nothing else |
| `FirmwareRejections.IdleTakesFirst` | libs/artnet/libartnet/receive.c:539-592 | what an idle receiver does with a FIRST: without memory only the peer is set, silently; with memory size, clock, kind, buffer, callback and answer, field by field |
| `FirmwareRejections.ContIsStoredIff` | libs/artnet/libartnet/receive.c:600-632 | a CONT is stored if and only if it is from the peer, of the transfer's length and for a block that ends inside it, whichever block was expected; else only FAIL is answered |
| `FirmwareRejections.LastEndsIff` | libs/artnet/libartnet/receive.c:634-687 | a LAST ends the transfer if and only if it is from the peer, of its length and for the block it ends in; the callback's buffer word by word; else only FAIL is answered |
| `FirmwareRejections.UnknownKindRefused` | libs/artnet/libartnet/receive.c:527-690 | any other kind of packet is answered FAIL and changes nothing |
| `FirmwareRejections.BlockIs` | libs/artnet/libartnet/receive.c:606-616 | an id stands for the block expected if it is its low byte, else for itself |
| `FirmwareRejections.TickIs` | libs/artnet/libartnet/artnet.c:1631-1643 | a check drops the whole transfer from the twentieth second on and does nothing before |
| `FirmwareRejections.LateFirstsChangeNothing` | libs/artnet/libartnet/receive.c:539-690 | over any run, taking out every FIRST that found the receiver busy leaves the same record and callbacks: between the FIRST taken and the reset no other one has any effect but its FAIL |
| `FirmwareRejections.SecondUploadRefused` | libs/artnet/libartnet/receive.c:543-597 | of two one-packet uploads within 20 s, from the same host too, the second is answered FAIL and there is one callback |
| `FirmwareSender.Sender.BuildPacket` | libs/artnet/libartnet/transmit.c:272-333 | the packet carries the next at most 512 words padded with zeros, the type for its place in the image, the block id and the total length |
| `FirmwareSender.Sender.TxFirmwarePacket` | libs/artnet/libartnet/transmit.c:272-352 | the record and the wire move on by one packet if the network takes it and are unchanged if not |
| `FirmwareSender.Sender.SendFirmware` | libs/artnet/libartnet/artnet.c:849-897 | which of ARTNET_EARG, ARTNET_EACTION, ARTNET_ESTATE and ARTNET_EMEM refuses the call and what it leaves; otherwise the record starts afresh on a copy of the image with one packet attempted, whose outcome is returned |
| `FirmwareSender.Sender.HandleFirmwareReply` | libs/artnet/libartnet/receive.c:695-741 | for any reply the record, the wire and the callbacks after the call are OnReply of those before, and a failed send is returned |
| `FirmwareSender.TransmitKeepsProgress` | libs/artnet/libartnet/transmit.c:272-352 | sending keeps the wire equal to the first packets of the image and strictly advances bytes_current |
| `FirmwareSender.ReplyKeepsProgress` | libs/artnet/libartnet/receive.c:695-741 | any reply keeps the run on track, and any packet it triggers strictly shortens what is left |
| `FirmwareSender.SenderUnderAnyReplies` | libs/artnet/libartnet/receive.c:695-741 | after artnet_send_firmware and any replies in any order and number, the packets sent are the first packets of the image in order, at most ceil(B / 1024) of them, with at most one callback, which is ALLGOOD only once all are sent |
| `FirmwareSender.SentIsPrefix` | libs/artnet/libartnet/transmit.c:282-333 | the payloads sent concatenate to a prefix of the image, its length given by the number of packets |
| `FirmwareSender.SentKinds` | libs/artnet/libartnet/transmit.c:285-317 | a packet has a FIRST type if and only if it is the first, and a LAST type if and only if it is the final one of a multi-block image that is not whole blocks |
| `FirmwareReplies.ForeignReply` | libs/artnet/libartnet/receive.c:702-706 | a reply from any other host than the one the transfer goes to leaves record, wire and callbacks unchanged |
| `FirmwareReplies.ForeignRepliesChangeNothing` | libs/artnet/libartnet/receive.c:695-741 | over any run, taking out the replies from other hosts changes nothing |
| `FirmwareReplies.EndingReplies` | libs/artnet/libartnet/receive.c:709-732 | ALLGOOD ends the transfer if everything has been sent and is ignored before; FAIL ends it at any time; other codes are ignored |
| `FirmwareReplies.BlockGoodSendsNext` | libs/artnet/libartnet/receive.c:734-739 | BLOCKGOOD sends exactly one packet if one is left and the network takes it, and changes nothing otherwise |
| `FirmwareReplies.SentPackets` | libs/artnet/libartnet/transmit.c:282-349 | every field of every packet any run sends: kind by place and by what is uploaded, id modulo 255, length, and the block's words followed by zeros |
| `FirmwareBlocks.Reconstruction` | libs/artnet/libartnet/receive.c:539-632 | for any number of blocks delivered in order under ids that resolve to their block (ids modulo 256 always do), after k blocks the receiver expects block k, has counted 1024 k bytes and holds the first 512 k words of the image |
| `FirmwareBlocks.ReconstructionCompletes` | libs/artnet/libartnet/receive.c:634-680 | and LAST then completes an image that is not whole blocks: one callback, with exactly the image |
| `FirmwareBlocks.Modulo256Resolves` | libs/artnet/libartnet/receive.c:606-614 | ids counted modulo 256 resolve to their own block, without bound |
| `FirmwareBlocks.Modulo255Resolves` | libs/artnet/libartnet/transmit.c:345-349 | ids counted modulo 255, as the sender counts them, resolve to their own block exactly in the first 255 of every 65280 blocks, and otherwise to one of the first 255 blocks |
| `FirmwareBlocks.FirstCompletes` | libs/artnet/libartnet/receive.c:568-592 | an image of at most 1024 bytes is delivered by FIRST alone, its length given in bytes, and leaves the receiver claimed |
| `FirmwareBlocks.ContAdvances` | libs/artnet/libartnet/receive.c:600-632 | a full block is stored where its id resolves to and the count of expected blocks goes up by one, even when that is an older block |
| `FirmwareBlocks.LastResolves` | libs/artnet/libartnet/receive.c:634-680 | LAST completes the transfer if and only if its id resolves to the block expected; else it is answered FAIL and nothing changes |
| `FirmwareBlocks.LostBlocksGoUnnoticed` | libs/artnet/libartnet/receive.c:653-680 | a LAST straight after FIRST is answered ALLGOOD although every block between is missing from the delivered buffer |
| `FirmwareTransfer.ForeignPacket` | libs/artnet/libartnet/receive.c:527-690 | while a transfer runs, or while idle and the packet is no FIRST, a packet from another host changes nothing but the replies |
| `FirmwareTransfer.RunKeepsPhase` | libs/artnet/libartnet/receive.c:527-741 | every reachable state of the two nodes and the link, under deliveries, foreign packets and timeout checks in any order, is the one the number of deliveries determines |
| `FirmwareTransfer.QuietAfterAllDeliveries` | libs/artnet/libartnet/receive.c:527-741 | every run goes quiet after exactly two deliveries per block, never earlier and never later |
| `FirmwareTransfer.CanAlwaysFinish` | libs/artnet/libartnet/receive.c:527-741 | from every reachable state, while under 20 s have passed since FIRST, some run finishes the transfer: nothing deadlocks |
| `FirmwareTransfer.FirmwareDelivered` | libs/artnet/libartnet/transmit.c:272-352 | for every image of at most 1024 bytes, or not whole blocks and at most 255 of them, sent to an idle receiver and finished within 20 s: one receiver callback with the image, one ALLGOOD callback at the sender, its record cleared |
| `FirmwareTransfer.AllGoodIff` | libs/artnet/libartnet/receive.c:634-741 | exactly which images end in ALLGOOD, in FAIL and in silence, by size alone, and whether the receiver is left free |
| `FirmwareTransfer.IntactIff` | libs/artnet/libartnet/transmit.c:345-349 | the image arrives intact if and only if it fits the bounds above, provided stale memory does not happen to hold the right word in block 255 |
| `FirmwareTimeout.RunKeepsAnywhere` | libs/artnet/libartnet/receive.c:527-741 | without any bound on time, every reachable state of a multi-block transfer is one of a timely run or one in which the receiver has given up, is idle and has made no callback |
| `FirmwareTimeout.EveryRunEnds` | libs/artnet/libartnet/artnet.c:1631-1643 | however long a multi-block transfer takes, it ends as in time, or with the receiver idle and no callback there and one FAIL at the sender, or none if its image is whole blocks |
| `FirmwareTimeout.TimeoutMidway` | libs/artnet/libartnet/artnet.c:1631-1643 | a receiver that times out midway answers the packet on its way with FAIL, the sender's one callback is FAIL and its record is cleared |
| `DmxMerge.CheckMergeTimeouts` | libs/artnet/libartnet/receive.c:851-869 | each slot whose last packet is more than 10 s old loses its sender and nothing else changes |
| `DmxMerge.DoMerge` | libs/artnet/libartnet/receive.c:875-886 | the first `length` channels of the output become the larger of the two slots (HTP) or the newest data (LTP); the others stay |
| `DmxMerge.ReceiveOnPort` | libs/artnet/libartnet/receive.c:104-228 | one packet on one port: the merge state after is Receive of the state before (see ReceiveByTable and OutputByTable), and the callback is made once |
| `DmxMerge.HandleDmx` | libs/artnet/libartnet/receive.c:85-231 | every enabled output port on the packet's universe receives, once, the first min(n, 512) of the n channels the two length bytes announce, high byte first; every other port is untouched |
| `DmxRuns.SlotsStayDistinct` | libs/artnet/libartnet/receive.c:85-231 | after any run of packets and mode changes the two slots never hold the same non-zero sender |
| `DmxRuns.SlotDiscipline` | libs/artnet/libartnet/receive.c:138-223 | in every reachable state a sender holding a slot has its packet stored in that slot, the other slot untouched; an unknown one is stored and gains a slot if and only if slot B was empty on entry, and otherwise only timed-out holders change |
| `DmxRuns.DiscardReached` | libs/artnet/libartnet/receive.c:112-223 | three packets from two senders reach the state with slot A empty and slot B held, in which any other sender's packet changes nothing |
| `DmxRuns.ReceiveByTable` | libs/artnet/libartnet/receive.c:138-211 | the cascade of branches is the table sender-to-slot: what is stored where, who holds which slot afterwards, and which slot the timeout empties |
| `DmxRuns.OutputByTable` | libs/artnet/libartnet/receive.c:142-211 | the output of a stored packet channel by channel: verbatim, or the larger of the slots when another sender held a slot on entry and the mode is HTP; channels beyond the packet and discarded packets change nothing |
| `DmxRuns.OutputByHolders` | libs/artnet/libartnet/receive.c:142-211 | the output after a packet in every reachable state, from the holders on entry, the mode and the two slots, with no other definition |
| `DmxRuns.HoldersAfter` | libs/artnet/libartnet/receive.c:851-869 | who holds the slots afterwards: exactly the holders whose last packet is not more than ten seconds old, and a new sender only in an empty slot |
| `DmxRuns.ChannelsReachOutput` | libs/artnet/libartnet/receive.c:94-168 | on a port no one else holds, exactly the first min(n, 512) of the channels announced reach the output |
| `DmxRuns.SlotsHoldLatest` | libs/artnet/libartnet/receive.c:85-231 | after any run, channel c of each slot is the value of the latest packet stored there that covered c, 0 if none |
| `DmxRuns.OutputAfterPacket` | libs/artnet/libartnet/receive.c:85-231 | after any run and one more packet, each output channel in terms of the packets alone |
| `DmxRuns.StaleSlotCleared` | libs/artnet/libartnet/receive.c:105-140 | a packet from a sender holding a slot, with the other slot's last packet over 10 s old, leaves the other slot empty |
| `DmxRuns.MergeRecovery` | libs/artnet/libartnet/receive.c:105-211 | from then on every packet of that sender is output verbatim until a different sender is stored, even across its own timeouts |
| `DmxRuns.MergeRecoveryOverRuns` | libs/artnet/libartnet/receive.c:105-211 | over whole runs: after a packet from a slot holder more than 10 s after the other slot's last one, every later packet of that sender is output verbatim until a different sender is stored |
| `Addressing.MakeAddr` | libs/artnet/libartnet/receive.c:843-845 | the high nibble of the result is the low nibble of the subnet, the low nibble that of the address |
| `Addressing.Node.constructor` | libs/artnet/libartnet/artnet.c:78-131 | a new node has four separate unset ports each way, which is where every run of AddressingRuns begins |
| `Addressing.Node.SetSubnetAddr` | libs/artnet/libartnet/artnet.c:1133-1167 | the local subnet setter: the default always, the live subnet, all port addresses and the sequences only when not under network control and different, and only then, if running, the new addresses are announced |
| `Addressing.Node.SetPortAddr` | libs/artnet/libartnet/artnet.c:1253-1310 | the local port setter: which arguments are refused, the default and enabling always, the live address only when not under network control and changing, and only then, if running, the new addresses are announced |
| `Addressing.Node.RemoteSubnet` | libs/artnet/libartnet/receive.c:272-290 | subnet programming, with readdressing decided by comparing the packet's field with the new subnet |
| `Addressing.Node.RemoteInputs` | libs/artnet/libartnet/receive.c:293-305 | each input port keeps, resets or is given its address, with network control following |
| `Addressing.Node.RemoteOutputs` | libs/artnet/libartnet/receive.c:308-321 | each output port keeps, resets or is given its address; network control is set on the input port of the same number |
| `Addressing.Node.RemoteSequences` | libs/artnet/libartnet/receive.c:324-327 | the sequence number is reset on exactly the input ports whose address changed |
| `Addressing.Node.RemoteCommand` | libs/artnet/libartnet/receive.c:330-371 | the eight merge commands set the mode of their own output port, the others set none |
| `Addressing.Node.HandleAddress` | libs/artnet/libartnet/receive.c:240-380 | the whole packet in order, for every node type; servers and raw nodes ignore it, others make the program callback and announce the addresses they now have |
| `AddressingRuns.RemoteConsistentIff` | libs/artnet/libartnet/receive.c:267-321 | from a state with every port in the node's subnet, an ArtAddress packet keeps it so if and only if it is not a reset to default 0 from another subnet, or gives every port a new address anyway |
| `AddressingRuns.ConsistentIffClean` | libs/artnet/libartnet/receive.c:267-327 | over any interleaving of local setters and packets, all ports are in the node's subnet throughout if and only if no such reset occurs |
| `AddressingRuns.StaleResetReached` | libs/artnet/libartnet/receive.c:271-290 | two packets to a new node, one moving the subnet and one resetting it, leave the ports in a subnet that is not the node's |
| `AddressingRuns.DefaultsAreLastLocal` | libs/artnet/libartnet/artnet.c:1253-1310 | over any interleaving the defaults are what was last set locally, even while under network control |
| `AddressingRuns.ResetRestoresLocal` | libs/artnet/libartnet/receive.c:267-321 | after any run, a reset to defaults gives a port back the low nibble last set locally, in the node's subnet |
| `AddressingRuns.OutputsNeverUnderNetworkControl` | libs/artnet/libartnet/receive.c:308-321 | over any run no output port is ever under network control |
| `AddressingHistory.InputSet` | libs/artnet/libartnet/artnet.c:1275-1303 | a local call on an input port, field by field: address and sequence move only if not under network control and different |
| `AddressingHistory.OutputSet` | libs/artnet/libartnet/artnet.c:1275-1303 | the same on an output port |
| `AddressingHistory.SetPortTakesEffect` | libs/artnet/libartnet/artnet.c:1287-1293 | a port in the node's subnet and not under network control is left enabled at 16 * (subnet % 16) + addr % 16 |
| `AddressingHistory.RefusedSet` | libs/artnet/libartnet/artnet.c:1264-1285 | bad port numbers, addresses above 16 and bad directions change nothing |
| `AddressingHistory.SubnetSet` | libs/artnet/libartnet/artnet.c:1133-1167 | the local subnet setter, field by field |
| `AddressingHistory.PacketProgrammed` | libs/artnet/libartnet/receive.c:267-371 | an ArtAddress packet, field by field: subnet, its control, and each port's address, control, being enabled, sequence and merge mode |
| `AddressingHistory.PacketIgnored` | libs/artnet/libartnet/receive.c:248-250 | servers and raw nodes ignore the packet |
| `AddressingHistory.StateIsTold` | libs/artnet/libartnet/receive.c:240-380 | over any interleaving of local calls and packets, the live subnet, its control, and each port's low nibble, default, control, being enabled and merge mode are what the last event that took effect says |
| `PeerRing.RingsEqual` | libs/artnet/libartnet/artnet.c:347-373 | a node lies on at most one cycle: two cycles that start at the same node are the same list |
| `PeerRing.GroupsDisjointOrEqual` | libs/artnet/libartnet/artnet.c:347-373 | two groups are disjoint, or each is the other started elsewhere |
| `PeerRing.JoinedMembers` | libs/artnet/libartnet/artnet.c:347-373 | the members of the joined group are exactly those of the two groups |
| `PeerRing.FindLast` | libs/artnet/libartnet/artnet.c:364-364 | the pointer walk terminates at the last node before it ends or comes back |
| `PeerRing.Link` | libs/artnet/libartnet/artnet.c:362-365 | exchanging two successors leaves one cycle: the second group spliced in after the first node, or the same cycle in the same order if they were already joined |
| `PeerRing.OneMaster` | libs/artnet/libartnet/artnet.c:367-371 | walks the whole cycle and leaves its first node the only master |
| `PeerRing.Join` | libs/artnet/libartnet/artnet.c:347-373 | refuses running nodes and changes nothing; otherwise leaves one cycle of both groups with n1 its only master, and returns ARTNET_ESTATE |
| `PeerRing.JoinInWorld` | libs/artnet/libartnet/artnet.c:347-373 | among any number of groups a join merges the two concerned and leaves every other group as it was, so every run of joins keeps the nodes in disjoint groups |
| `PeerRing.NetStart` | libs/artnet/libartnet/network.c:491-589 | a master whose calls succeed gives its socket to every member of the cycle; in every other case no member's socket changes |
| `PeerRing.CheckPeers` | libs/artnet/libartnet/artnet.c:317-318 | the loop terminates and checks the timeouts of every other member once |
| `PeerRing.HandleAll` | libs/artnet/libartnet/artnet.c:321-324 | the loop terminates and passes the packet to every member once |
| `PeerRing.ReadOne` | libs/artnet/libartnet/artnet.c:300-326 | one round of the read loop, for every member of the group |
| `PeerRing.Read` | libs/artnet/libartnet/artnet.c:289-328 | over any inputs the call ends with the right code and every member's log grows by the trace of those inputs |
| `PeerRing.EveryMemberHandlesOnce` | libs/artnet/libartnet/artnet.c:289-328 | for any inputs the packets in that trace are the valid ones up to where reading stops, once each and in order, for the node itself and for its peers |
| `PeerRing.TimeoutsCheckedEveryRound` | libs/artnet/libartnet/artnet.c:300-326 | for any inputs a peer's timeouts are checked once for every datagram with something in it, Art-Net or not, and the node's own once in every round, the last included |
| `PeerRing.CheckedBeforeHandled` | libs/artnet/libartnet/artnet.c:303-325 | every packet is handled right after a check of the timeouts, by the node and by every peer |
| `PeerRing.IsArtNetIff` | libs/artnet/libartnet/receive.c:823-837 | a datagram is passed on if and only if it has more than ten bytes, begins with Art-Net and a NUL, and its opcode is not 0 |
| `PeerRing.ResultIs` | libs/artnet/libartnet/artnet.c:306-327 | the call returns the code of the failure that ends it, else 0 |
| `EnttecFrame.SendData` | libs/enttec/libenttec/usb_pro.cc:59-86 | exactly how many bytes of the frame each outcome of the writes leaves on the wire: all of them if and only if each write is taken whole, and TRUE if and only if the last status is good as well |
| `EnttecFrame.FrameBytes` | libs/enttec/libenttec/usb_pro.cc:59-86 | a frame byte by byte: 0x7E, label, length with its low byte first, data, 0xE7 |
| `EnttecFrame.FirstPair` | libs/enttec/libenttec/usb_pro.cc:104-113 | the position of the first adjacent (0x7E, label) in a stream, or its length |
| `EnttecFrame.Resynchronise` | libs/enttec/libenttec/usb_pro.cc:104-113 | for a non-zero label the nested loops stop exactly after the first such pair, or when a read comes back empty, which for a patient device is at the end of the stream |
| `EnttecFrame.ReceiveBody` | libs/enttec/libenttec/usb_pro.cc:115-133 | after the label: for a patient device which streams are accepted and where the stream is left; for any device what TRUE means |
| `EnttecFrame.ReceiveData` | libs/enttec/libenttec/usb_pro.cc:93-134 | for any stream and label, read by a patient device: which are accepted, what reaches the caller, where the stream is left; whatever reads time out: TRUE means a frame in the stream in one piece, but for a late second length byte |
| `EnttecFrame.SkipToStart` | libs/enttec/libenttec/usb_pro.cc:149-153 | stops exactly after the first 0x7E, or when a read comes back empty |
| `EnttecFrame.RxAfterStart` | libs/enttec/libenttec/usb_pro.cc:154-170 | after the start code, for a signed and for an unsigned plain char: for a patient device which streams are accepted, what is copied out and where the stream is left; for any device what TRUE means, with the header bytes that were not read as they were |
| `EnttecFrame.RxDmx` | libs/enttec/libenttec/usb_pro.cc:137-171 | for any stream and either signedness of char, read by a patient device: which are accepted, what reaches the caller, where the stream is left; whatever reads time out: TRUE means a matching label and a frame in one piece, but for unread header bytes |
| `EnttecFrame.ReceiveRoundTrip` | libs/enttec/libenttec/usb_pro.cc:59-134 | a frame printed behind junk with no earlier pair is read back exactly, with the stream left at its end, if and only if it has at most 512 data bytes |
| `EnttecFrame.AcceptedIsPrinted` | libs/enttec/libenttec/usb_pro.cc:93-134 | whatever is accepted for a label is a printed frame of at most 512 bytes behind junk without an earlier pair, with the stream left at its end |
| `EnttecFrame.OddLabels` | libs/enttec/libenttec/usb_pro.cc:104-113 | with label 0 the stream is taken to begin at a length, and a label that is no byte is never found |
| `EnttecFrame.TruncatedRejected` | libs/enttec/libenttec/usb_pro.cc:59-134 | the same frame cut anywhere is rejected with nothing left to read |
| `EnttecFrame.LateLengths` | libs/enttec/libenttec/usb_pro.cc:115-121 | when the read of the second length byte times out, only bodies of 0 or 257 bytes can be accepted |
| `EnttecFrame.LateLengthShifts` | libs/enttec/libenttec/usb_pro.cc:115-133 | then something else than a printed frame is accepted in its place exactly if it has 257 bytes ending in the end code, which are delivered shifted by one, or 1 byte with the end code 255 bytes behind the frame |
| `EnttecFrame.RxRoundTrip` | libs/enttec/libenttec/usb_pro.cc:59-171 | one call reads a frame behind any junk, leaving the stream at its end, if and only if the junk has no 0x7E, the frame has at most 513 bytes and plain char is unsigned |
| `EnttecFrame.RxAcceptedIsPrinted` | libs/enttec/libenttec/usb_pro.cc:137-171 | whatever is accepted is a printed frame of at most 513 bytes behind junk without a start code, with the stream left at its end |
| `EnttecFrame.SignedNeverReads` | libs/enttec/libenttec/usb_pro.cc:137-171 | where plain char is signed, as on Windows, no stream and no label is ever accepted: the end code compares unequal to every char |
| `EnttecFrame.SignedRejectsPrintedFrame` | libs/enttec/libenttec/usb_pro.cc:59-171 | a printed one-byte frame that arrives alone is refused where char is signed and read where it is not |
| `EnttecFrame.RxWithinJunk` | libs/enttec/libenttec/usb_pro.cc:149-167 | behind junk with a 0x7E the frame is left whole for the next call if and only if what follows that 0x7E makes the call stop within the junk |
| `EnttecFrame.ReadAfterJunkIff` | libs/enttec/libenttec/usb_pro.cc:137-171 | some later call reads the frame if and only if the junk lets it through, 0x7E after 0x7E, the frame has at most 513 bytes and char is unsigned |
| `EnttecFrame.StrayStartLosesFrame` | libs/enttec/libenttec/usb_pro.cc:149-157 | a 0x7E with any one byte behind it makes every call miss the frame, and with a wrong label the first call reads nothing |
| `EnttecFrame.ShortHeaderShifts` | libs/enttec/libenttec/usb_pro.cc:154-170 | when only the label of the header has been read and the memory behind it happens to hold the right number, the length bytes are delivered as data |
| `EnttecFrame.RxTruncatedRejected` | libs/enttec/libenttec/usb_pro.cc:59-171 | behind junk free of 0x7E, the frame cut anywhere is rejected with nothing left to read |
| `Tod.Table.constructor` | libs/artnet/libartnet/tod.c:120-128 | a reset table is empty and holds no memory |
| `Tod.Table.Add` | libs/artnet/libartnet/tod.c:29-68 | the UID is appended to the contents and every other slot kept, the capacity growing to 100 and then by 50 only when full; if memory is refused the call fails, and what a full table held is lost |
| `Tod.Table.AddAll` | libs/artnet/libartnet/artnet.c:1045-1049 | any run of adds appends the UIDs in order |
| `Tod.Table.Locate` | libs/artnet/libartnet/tod.c:84-88 | the search loop ends at the first slot from 1 that holds the UID, slot 0 never being compared and one slot past the live ones being so |
| `Tod.Table.Remove` | libs/artnet/libartnet/tod.c:74-102 | result, every slot and length after the call, with the capacity kept |
| `Tod.Table.Flush` | libs/artnet/libartnet/tod.c:107-117 | the table is empty again and its memory given up |
| `Tod.FoundIsRemoved` | libs/artnet/libartnet/tod.c:84-100 | a UID in a live slot other than the first is removed: the live multiset loses exactly one copy of it |
| `Tod.NotFound` | libs/artnet/libartnet/tod.c:84-100 | a UID in no live slot from 1 on changes nothing and -1 is returned, unless a stale copy sits just past them: then the last live UID is dropped and 0 returned |
| `Tod.RemovalIff` | libs/artnet/libartnet/tod.c:74-102 | removal takes out exactly one copy of the UID, or nothing if it is absent, if and only if the removal is harmless: four cases on the slots |
| `TodRuns.TalliesIffHarmless` | libs/artnet/libartnet/tod.c:29-117 | over any run of adds, removals and flushes the live UIDs are right after every event if and only if every removal is harmless |
| `TodRuns.HarmlessRunTallies` | libs/artnet/libartnet/tod.c:29-117 | and then the live UIDs at the end are the adds less the removals since the last flush |
| `TodRuns.RemovingLiveUids` | libs/artnet/libartnet/tod.c:29-102 | a run whose removals each name a UID in a live slot other than the first never searches past the buffer and leaves exactly the adds less the removals |
| `TodRuns.RemovingLastTwice` | libs/artnet/libartnet/tod.c:84-100 | removing the last UID a second time drops the UID before it: the stale copy just past the live slots is found |
| `TodRuns.DoubleRemovalReached` | libs/artnet/libartnet/tod.c:29-102 | three adds to a new table and two removals of the third leave only the first |
| `TodData.FillBlock` | libs/artnet/libartnet/transmit.c:163-173 | the datagram's UID area starts with exactly the block of the table, is zero from there to byte 200, and past that is as it was |
| `TodData.CleanTailIff` | libs/artnet/libartnet/transmit.c:163-173 | only zeros follow the announced UIDs of block k if and only if it is the first, is full, or the block before has only zeros past byte 200 and past those UIDs |
| `TodData.LeftoverFromBlockBefore` | libs/artnet/libartnet/transmit.c:163-173 | with 201 UIDs of ones the second datagram announces one UID and repeats 1000 bytes of the first behind it |
| `TodData.TxTodData` | libs/artnet/libartnet/transmit.c:133-181 | the datagrams sent are the leading blocks of the table, in order, all of them if and only if 0 is returned, and none after the first failure; what trails each is zero up to byte 200 and then still the block before |
| `TodData.AnnouncedIsPrefix` | libs/artnet/libartnet/transmit.c:133-181 | what the datagrams announce concatenates to a prefix of the table, the whole table once every block is sent |
| `TodData.BlockNumbers` | libs/artnet/libartnet/transmit.c:163-167 | up to 51200 UIDs the blocks are numbered 0, 1, 2, ... and full except for the last |
| `TodData.AddOnPort` | libs/artnet/libartnet/artnet.c:1045-1049 | the loop appends the UIDs to one port's table and leaves the other ports' tables as they were |
| `TodData.AddRdmDevices` | libs/artnet/libartnet/artnet.c:1031-1053 | bad ports and counts are refused with every table unchanged; otherwise the UIDs are appended to that port's table and to no other, and the leading blocks of the result broadcast under that port |
| `NodeList.List.Find` | libs/artnet/libartnet/artnet.c:1545-1553 | the first entry with the address and its position, or null exactly when there is none |
| `NodeList.List.Append` | libs/artnet/libartnet/artnet.c:1511-1533 | the linked list stays acyclic, ends at last, and has one more entry |
| `NodeList.List.Update` | libs/artnet/libartnet/artnet.c:1506-1539 | the linked list stays acyclic with length and last right, and its contents are Updated of those before; a new address without memory is refused with nothing changed |
| `NodeList.List.StoreTransfer` | libs/artnet/libartnet/receive.c:703-733 | the record of a transfer is stored in the entry found for the address and nowhere else, the list being otherwise as it was |
| `NodeList.UpdateAppends` | libs/artnet/libartnet/artnet.c:1511-1533 | a reply from an unknown address goes to the end with a cleared transfer record |
| `NodeList.UpdateReplaces` | libs/artnet/libartnet/artnet.c:1534-1537 | a reply from a known address replaces its entry's reply in place and leaves its transfer record |
| `NodeList.ListIsMap` | libs/artnet/libartnet/artnet.c:1506-1539 | after any replies and stored transfers the list has distinct addresses in order of first arrival, each with its latest reply and the record last stored for it |
| `NodeList.List.ScanEntry` | libs/artnet/libartnet/artnet.c:1569-1580 | one node's ports: every match is counted, the address is stored at most once and only while there is room |
| `NodeList.List.FindNodesFromUni` | libs/artnet/libartnet/artnet.c:1564-1582 | fills the array with the first min(size, matches) matching nodes and no more, and returns the number of matching ports, 0 without an array |
| `NodeList.MatchIsListed` | libs/artnet/libartnet/artnet.c:1564-1582 | every address found belongs to an entry with a matching port |
| `NodeList.ListedMatches` | libs/artnet/libartnet/artnet.c:1564-1582 | no node with a matching port is left out |
| `NodeList.MatchingPortsAre` | libs/artnet/libartnet/artnet.c:1571-1579 | exactly the ports a node has are counted, each of the four by itself |
| `NodeList.MatchingIpsDistinct` | libs/artnet/libartnet/artnet.c:1564-1582 | the addresses found are all different |
| `NodeList.PortsAreNodesIff` | libs/artnet/libartnet/artnet.c:1557-1582 | the number of ports returned is the number of nodes, as documented, if and only if no node has two ports on the universe; it is never less |
| `NodeList.CountedAreFilledIff` | libs/artnet/libartnet/artnet.c:661-677 | when the count fits the array, every entry it speaks of is filled if and only if the same holds |
| `NodeList.TwoPortsOneNode` | libs/artnet/libartnet/artnet.c:1564-1582 | after one reply of a node with two ports on a universe, two are counted and one address is stored |
| `NodeList.SendDmx` | libs/artnet/libartnet/artnet.c:640-684 | where a DMX packet is sent and what is returned: to the broadcast address without a limit, memory or room, else to as many entries of the array as ports were counted |
| `NodeList.UnicastIsNodesIff` | libs/artnet/libartnet/artnet.c:661-677 | the packet goes once to each node on the universe and nowhere else if and only if no node has two ports on it; else also to addresses never written |
| `Overlay.DmxOverlays.AddOverlay` | mocks/mock_overlay_client.py:31-38 | for any call: which assertion or index error it raises, in order and with the limits written out, and the ranges, index and image afterwards |
| `Overlay.DmxOverlays.PackFrame` | mocks/mock_overlay_client.py:9-13 | the loop prints the 512 channels in order |
| `Overlay.DmxOverlays.Pack` | mocks/mock_overlay_client.py:43-48 | the loop prints the 100 ranges in order, then the image |
| `Overlay.DmxOverlays.CreateMessageFor` | mocks/mock_overlay_client.py:51-54 | the whole message, or the error for a universe that is no signed byte |
| `Overlay.PackRangesAt` | mocks/mock_overlay_client.py:21-48 | range i of the packed ranges occupies bytes 4 i to 4 i + 3 |
| `Overlay.UniverseByte` | mocks/mock_overlay_client.py:51-52 | a universe from -128 to 127 is stored modulo 256 and any other refused |
| `Overlay.MessageBytes` | mocks/mock_overlay_client.py:9-54 | the 919 bytes of a message one by one: id, universe, count, starts and lengths, image, low bytes first |
| `Overlay.ClientAfterCalls` | mocks/mock_overlay_client.py:31-41 | after up to 100 proper calls: one range per call in order, and per channel the value last written, 0 if no range covers it |
| `Overlay.OneCallTooMany` | mocks/mock_overlay_client.py:31-41 | the 101st call passes the guard and raises an index error, yet is counted: the client announces 101 ranges |
| `Overlay.Server.HandleData` | libs/overlay_server/overlay_server.cc:31-52 | the handler is called once exactly for datagrams of at least 919 bytes that begin with the protocol id |
| `Overlay.MessageRoundTrip` | libs/overlay_server/overlay_server.cc:31-52 | for universes 0..127 the client's 919 bytes, with anything after them, parse to the same universe, count, ranges and image |
| `Overlay.AnyMessageIsDelivered` | libs/overlay_server/overlay_server.cc:31-52 | the server hands on every message of the right size and id, whatever its count and ranges are, exactly as printed |
| `UsbClient.EnttecClient.ApplyOverlay` | libs/enttec/usb_client.cc:56-69 | the frame is patched by the message's ranges in turn and marked new, and the message is kept if asked |
| `UsbClient.EnttecClient.UpdateFrame` | libs/enttec/usb_client.cc:43-54 | the frame becomes start code, base and the buffered overlay on top, whatever was there before |
| `UsbClient.EnttecClient.FlushFrame` | libs/enttec/usb_client.cc:71-91 | throws and changes nothing without a device; writes nothing without a new frame; otherwise exactly the bytes of its wire form that the writes take, and it counts as sent however many they are |
| `UsbClient.EnttecClient.OnDmxMessage` | app_dmx_usb_node/app_dmx_usb_node.cc:32-42 | a frame for the node's universe is composed, any other changes nothing |
| `UsbClient.EnttecClient.OnOverlayMessage` | app_dmx_usb_node/app_dmx_usb_node.cc:44-54 | an overlay for the node's universe is applied and buffered, any other changes nothing |
| `UsbClient.PatchedAt` | libs/enttec/usb_client.cc:56-63 | order and overlap of the ranges do not matter: a channel shows the image if and only if some range covers it, and the start code stays |
| `UsbClient.OverlayEndToEnd` | libs/enttec/usb_client.cc:43-69 | from any at most 100 proper client calls through the wire to the composed frame: start code 0, and per channel the client's last written value or else the base |
| `UsbClient.OneCallTooManyIsDelivered` | libs/overlay_server/overlay_server.cc:31-52 | the message printed after the 101st call passes the server's checks and announces 101 ranges, one more than its array holds |
| `UsbClient.InBoundsIff` | libs/enttec/usb_client.cc:56-63 | a message is in bounds if and only if every range it uses is one of the array's and every byte copied lies inside both the image and the frame |
| `UsbClient.RangeBehindTheEndIsDelivered` | libs/overlay_server/overlay_server.cc:31-52 | a message with one range of one channel behind the last is handed on, and buffering it would copy past both arrays |
| `FlushTiming.Timer.Poll` | libs/core/timer.h:30-48 | the callback runs exactly when one is set and more than the interval has passed, and only then moves the last call |
| `FlushTiming.Timer.Start` | libs/core/timer.h:19-23 | sets the callback and counts the interval from now |
| `FlushTiming.Timer.Stop` | libs/core/timer.h:25-28 | no callback is left to run |
| `FlushTiming.FiringsSpaced` | libs/core/timer.h:30-48 | for any poll times at most d apart, consecutive callbacks are more than the interval and at most interval + d apart |
| `FlushTiming.FiringRate` | libs/core/timer.h:30-48 | by poll time T there have been at least floor((T - t0) / (interval + d)) callbacks |
| `FlushTiming.Flusher.Update` | libs/enttec/usb_client.cc:43-54 | an update is one step of the timed system |
| `FlushTiming.Flusher.Buffer` | libs/enttec/usb_client.cc:56-69 | an overlay is one step of the timed system |
| `FlushTiming.Flusher.Poll` | libs/enttec/usb_client.cc:71-91 | a poll is one step of the timed system whatever the writes do, the bytes the widget took included |
| `FlushTiming.NothingPendingMeansSent` | libs/enttec/usb_client.cc:39-91 | over any run, once anything has been sent and nothing is pending, the last frame sent is the current one |
| `FlushTiming.NoSendWithoutUpdate` | libs/enttec/usb_client.cc:71-91 | over any run there are never more sends than updates, and none without one |
| `FlushTiming.WireIsSentIff` | libs/enttec/usb_client.cc:71-91 | over any run from the start the widget has received the frames sent, one after the other, if and only if every poll that sent was taken whole |
| `FlushTiming.FailedSendIsForgotten` | libs/enttec/usb_client.cc:81-89 | after one update and one poll whose writes fail the frame counts as sent, nothing is pending and the widget has received nothing |
| `FlushTiming.FlushDeadline` | libs/enttec/usb_client.cc:39-91 | from any state with a frame pending and the timer keeping up, that frame or a newer one in its place is sent by u + interval + d if polling goes on |
| `FlushTiming.TimerKeepsUp` | libs/core/timer.h:30-48 | along any run polled at most d apart the timer's last call stays within the interval of the last poll |
| `FlushTiming.UpdateIsSentInTime` | libs/enttec/usb_client.cc:39-91 | from the start, over any polled run, an update or overlay at time u, and any polled run after it: the frame or a newer one is sent by u + interval + d if polling goes on past u + interval |

## Left out

- Sockets, `select`, interface enumeration, winsock and the UDP server and client: system I/O. Their outcomes are parameters.
- The FTDI driver, opening and reloading the device: foreign calls. Their status is taken to be good for reads; the contents and stream position of a call that does not return TRUE are given for patient devices only.
- libs/soundio: its behaviour lies in a library that is not part of this model.
- Logging, configuration, `ToString`, metrics, affinity and application wiring: nothing to prove.
- Poll and poll-reply formatting, report codes, `port_status` bits, node names, ArtInput and ArtAddress sending, RDM pass-through: field copies that would add only easy members.
- The bodies of user callbacks, in particular ones that refuse a packet or join nodes while a group is being read.
- `EventLoop` handler removal and posting during iteration: container lifetimes that the timing results do not need.
- Sender address 0 is excluded: the code uses it to mean an empty slot or an idle receiver.
- `handle_dmx` reads the clock several times per packet; the model reads it once.
- `time_t`, and the receiver's `bytes_current` and `expected_block`, are unbounded integers here; the announced length does wrap as a 32-bit `int`.
- FirmwareReceiver.Receiver.HandleFirst: a negative announced length is taken to make `malloc` fail, since it asks for nearly the whole address space.
- FirmwareSender.Sender.SendFirmware: a byte count that overflows an `int` is taken to make `malloc` fail; after a failure during a transfer the source has a record without a buffer, and what a later reply would do to it is not modelled.
- FirmwareTimeout.EveryRunEnds: is about multi-block transfers; a one-packet upload is complete before it can time out.
- FirmwareTransfer.FirmwareDelivered: the link loses nothing and all sends succeed; a FIRST from another host while the receiver is idle, which would claim it, is excluded.
- Tod.Table.AddAll: memory is taken to suffice, and so in TodRuns; Tod.Table.Add says what a failure does. Broadcasting a table lost to a failed `realloc` is not modelled.
- Tod.Table.Remove: requires that the search stays inside the buffer, since the source reads past a full table when the UID is in no slot from 1 on.
- Tod.Table.Locate: requires the same as Tod.Table.Remove.
- Tod.RemovalIff: requires the same as Tod.Table.Remove.
- Tod.NotFound: requires a slot to spare, for the same reason.
- NodeList.List.FindNodesFromUni: requires `numbports` at most 4 of every entry; the source stores larger counts and then reads past the port array.
- NodeList.List.ScanEntry: requires the same of its entry.
- NodeList.SendDmx: does not model the argument checks, the packet and its sequence number, only where it is sent.
- NodeList.List.Append: is the branch taken when there is memory for the entry; NodeList.List.Update says what happens when there is none.
- Addressing.Node.SetSubnetAddr: does not model the report code set under network control.
- Addressing.Node.SetPortAddr: does not model the report code set under network control.
- Addressing.Node.HandleAddress: does not model node names, report codes and `port_status` bits, which are only copied.
- Overlay.DmxOverlays.AddOverlay: starts and lengths are not negative and data are bytes; the Python client would accept others and fail later, when packing. The client is taken to run on a little-endian host.
- UsbClient.EnttecClient.ApplyOverlay: requires at most 100 ranges inside the frame; the server checks neither, and by UsbClient.InBoundsIff the source would otherwise copy outside its arrays.
- UsbClient.EnttecClient.OnOverlayMessage: requires the same of the message.
- FlushTiming.Flusher.Buffer: requires the same of the message.
- FlushTiming.UpdateIsSentInTime: speaks of frames handed to the widget; one it does not take whole counts as sent and is never repeated.
- PeerRing.NetStart: the winsock-only calls are left out.
- The overlay server is given the received bytes; that the UDP server passes its buffer's capacity as the length is not modelled.
