# Verification of the Renode USB, Studio framing and fake-CCM models

This project models four stateful pieces of the repository in Dafny and proves what they promise over
whole runs. `dafny verify dfyconfig.toml` checks everything.

* **The USB device** (`NRF_USBD_Full.cs`). `NrfUsbd` is the peripheral with its fields updated in place.
  `BulkOut` and `DataStatus` say what each locked region, register access and event does; `WakeupRun`
  interleaves host writers with the guest's interrupt handler and proves that no wakeup and no byte is
  lost; `HandlerProgress` bounds how long an endpoint takes to drain, `RestReachable` shows that the handler
  can always bring the device to rest, and `StatusHistory` tells what EPDATASTATUS reads from the events
  alone. `ControlEndpoint` covers endpoint 0.
* **The USB host bridge** (`DualCdcAcmBridge.cs`). `DualCdcAcmBridge` is the bridge in place, attached to
  the device; `ControlChain` follows its chained control requests for any guest, up to the enumeration of
  a composite device; `CdcDescriptors` is the descriptor parser and its inverse; `BridgeChannel` and
  `DeviceToHostPump` are the two data directions, and `TerminalToGuest` runs a channel and the device side
  by side, from typed bytes to guest memory.
* **Studio RPC framing**. `Framing` has the encoder and the decoder, `RpcClient` the Python client,
  `StudioHost` the C host app with its bounded decoder and request sequencing, `HexText` and `HexFile` the
  hex file that carries requests from one to the other, and `RequestPipeline` the whole way, through the C table that the
  app is built with.
* **The fake CCM engine** (`ccm.py`). `CcmTransform` is the memory transform with possibly overlapping
  records; `FakeCcm` is the register interface, what firmware sees of it, and the proof that the eager one
  refines a lazy one.

## How the model reads the source

* One step of `WakeupRun` is the body of one `lock(outLock)`, one register access, or one event raise, so
  a host thread may be stopped between leaving the lock and raising EPDATA, any number of them at once.
  The guest's handler clears the event, reads EPDATASTATUS, writes it back and starts a DMA for every OUT
  bit it read, as the comments at `NRF_USBD_Full.cs:414-421` assume; it may also start DMAs, drop chunks
  and send IN data at any other moment.
* A callback that the source invokes as its last act is returned to the caller, who invokes it; callbacks
  themselves are named by a datatype. `HandleEp0Status` therefore clears its slot before the callback runs,
  as in the source.
* `USBDeviceCore.HandleSetupPacket` is taken to hand the request to the registered handler, and
  `USBEndpoint` to behave as the comments at `DualCdcAcmBridge.cs:222-237` say. Endpoints 0 to 7 exist.
* Registers keep their widths where a width matters: MAXCNT, AMOUNT, SIZE and USBADDR have seven bits,
  wIndex and the length of a GATT write sixteen, a length byte eight. `maximumPacketSize` is any positive
  number; the device keeps the full length of a chunk, and a guest reads its low seven bits.

## What turned out not to hold everywhere

* SIZE.EPOUT reads the length of the waiting chunk if and only if `maximumPacketSize` is below 128
  (`WakeupRun.SizeReadsTheLength`; for endpoint 0 `ControlEndpoint.AdvertisedSizeIsRead`). From 128 on a chunk
  of 128 bytes reads as zero, and a guest that obeys the register loses the end of the packet
  (`WakeupRun.WidePacketIsCut`), so obeying it gets the stream exactly below 128
  (`WakeupRun.ObeyingSizeSuffices`, `ControlEndpoint.CoveredRoundsSuffice`).
* `Reset` clears SIZE.EPOUT and the status bits outside the lock. It leaves an endpoint clean if and only
  if a chunk was presented or no host byte arrived in the gap (`WakeupRun.ResetIsCleanUnlessRaced`). All
  other results treat `Reset` as one step.
* A frame cut right after an escape byte swallows the next frame's start
  (`Framing.Resynchronisation`, `Framing.EscapeCutPoints`).
* The CCM copy loop is correct if and only if the output record starts at or below the input record, or
  behind the copied bytes (`CcmTransform.SafePlacements`); encryption fails on exactly the lengths above 251
  (`CcmTransform.TransformIsExact`).
* Host bytes written between `Wire`'s unlock and its flush arrive before the flushed ones
  (`BridgeChannel.SingleWriterOrder`); the order is safe whatever the bytes are if and only if none were
  queued or none overtake (`BridgeChannel.OvertakingWritesReorder`).
* A request of 65536 bytes or more is cut by the cast in `send_next_request`
  (`StudioHost.WholeRequestWritten`).

## Model

| member | source | states |
|---|---|---|
| NrfUsbd.NrfUsbdFull.constructor | scripts/lib/renode/platforms/models/NRF_USBD_Full.cs:34-54 | at power-up every endpoint is empty, no event is set and endpoint 0 has no transaction |
| NrfUsbd.NrfUsbdFull.HandleHostToDeviceData | scripts/lib/renode/platforms/models/NRF_USBD_Full.cs:176-198 | a host write queues its bytes in order, presents a chunk if none is waiting and raises EPDATA only then, and no other event; null and empty writes do nothing; endpoint 0 is untouched |
| NrfUsbd.NrfUsbdFull.EnqueueAndPresent | scripts/lib/renode/platforms/models/NRF_USBD_Full.cs:186-193 | the locked region of a host write, as one step of the device |
| NrfUsbd.NrfUsbdFull.TryPresentOutChunk | scripts/lib/renode/platforms/models/NRF_USBD_Full.cs:204-220 | presents the first min(maximumPacketSize, queued) bytes exactly when nothing is presented and something is queued, and touches no other endpoint |
| NrfUsbd.NrfUsbdFull.TakeChunk | scripts/lib/renode/platforms/models/NRF_USBD_Full.cs:228-250 | the locked region of STARTEPOUT[n]: the bytes to DMA are the presented chunk cut at MAXCNT, and the next chunk is presented |
| NrfUsbd.NrfUsbdFull.StartBulkEpOut | scripts/lib/renode/platforms/models/NRF_USBD_Full.cs:222-259 | exactly those bytes reach memory at EPOUT[n].PTR, AMOUNT is their number, ENDEPOUT[n] is raised, EPDATA again when another chunk is presented; no other event or AMOUNT changes; with nothing presented it does nothing |
| NrfUsbd.NrfUsbdFull.WriteSizeEpOut | scripts/lib/renode/platforms/models/NRF_USBD_Full.cs:600-618 | any write drops the presented chunk and presents the next one with EPDATA; on endpoint 0 it only clears the size; all other events stay |
| NrfUsbd.NrfUsbdFull.ReadSizeEpOut | scripts/lib/renode/platforms/models/NRF_USBD_Full.cs:600-601 | a read shows the low seven bits: the length of the waiting chunk of a coherent endpoint if packets are shorter than 128 bytes |
| NrfUsbd.NrfUsbdFull.DropAndPresent | scripts/lib/renode/platforms/models/NRF_USBD_Full.cs:605-613 | the locked region of that write, as one step of the device |
| NrfUsbd.NrfUsbdFull.WriteEpOutMaxCnt | scripts/lib/renode/platforms/models/NRF_USBD_Full.cs:623-625 | MAXCNT keeps the low seven bits |
| NrfUsbd.NrfUsbdFull.ReadEpDataStatus | scripts/lib/renode/platforms/models/NRF_USBD_Full.cs:422-434 | the word read has bit n for each IN flag and bit 16 + n for each OUT flag, and no other |
| NrfUsbd.NrfUsbdFull.WriteEpDataStatus | scripts/lib/renode/platforms/models/NRF_USBD_Full.cs:414-434 | write-one-to-clear on both halves |
| NrfUsbd.NrfUsbdFull.SetEvent | scripts/lib/renode/platforms/models/NRF_USBD_Full.cs:324-330 | sets one event and changes nothing else |
| NrfUsbd.NrfUsbdFull.ClearEvent | scripts/lib/renode/platforms/models/NRF_USBD_Full.cs:339-350 | a write of zero clears one event and changes nothing else |
| NrfUsbd.NrfUsbdFull.HandleSetupPacket | scripts/lib/renode/platforms/models/NRF_USBD_Full.cs:96-126 | request 5 of standard type to the device (SET_ADDRESS) is acknowledged at once and leaves the latched transaction alone; anything else replaces it and raises EP0SETUP |
| NrfUsbd.NrfUsbdFull.ReadSetup | scripts/lib/renode/platforms/models/NRF_USBD_Full.cs:441-471 | the guest reads the latched packet as the eight bytes of section 9.3 of USB 2.0, and zeros before the first one |
| ControlEndpoint.SetupBytesTellApart | scripts/lib/renode/platforms/models/NRF_USBD_Full.cs:441-471 | two packets with sixteen-bit fields read the same only if they are the same |
| NrfUsbd.NrfUsbdFull.GetData | scripts/lib/renode/platforms/models/NRF_USBD_Full.cs:128-150 | endpoint 0 accumulates MAXCNT bytes of memory; a bulk endpoint hands them on unless there are none; both acknowledge |
| NrfUsbd.NrfUsbdFull.DataAcknowledged | scripts/lib/renode/platforms/models/NRF_USBD_Full.cs:309-322 | the IN flag and exactly the completion events of that endpoint are set |
| NrfUsbd.NrfUsbdFull.HandleEp0RcvOut | scripts/lib/renode/platforms/models/NRF_USBD_Full.cs:152-165 | advertises the next packet of the pending payload with EP0DATADONE, or does nothing |
| NrfUsbd.NrfUsbdFull.StartEpOut | scripts/lib/renode/platforms/models/NRF_USBD_Full.cs:261-281 | endpoint 0 writes the next payload bytes to memory and advances; other endpoints run the bulk path; events and AMOUNT in both cases |
| NrfUsbd.NrfUsbdFull.StartControlEpOut | scripts/lib/renode/platforms/models/NRF_USBD_Full.cs:268-280 | the bytes written are the next min(maximumPacketSize, remaining, MAXCNT) of the payload, with AMOUNT and ENDEPOUT0 |
| NrfUsbd.NrfUsbdFull.HandleEp0Status | scripts/lib/renode/platforms/models/NRF_USBD_Full.cs:283-299 | the latched callback is called with the accumulated response, after slot and accumulator are cleared |
| NrfUsbd.NrfUsbdFull.HandleEp0Stall | scripts/lib/renode/platforms/models/NRF_USBD_Full.cs:301-307 | the latched callback is dropped |
| NrfUsbd.NrfUsbdFull.Reset | scripts/lib/renode/platforms/models/NRF_USBD_Full.cs:66-85 | with no other thread running, everything but the latched packet and the bus address returns to power-up: endpoints, events, the DMA registers, USBADDR and endpoint 0 |
| Memory.StoreLoad | scripts/lib/renode/platforms/models/NRF_USBD_Full.cs:251-253 | DMA'd bytes are what the guest reads back, and nothing else in memory changed |
| BulkOut.HostWriteConserves | scripts/lib/renode/platforms/models/NRF_USBD_Full.cs:176-220 | a host write keeps the registers coherent and adds exactly its bytes to what is pending |
| BulkOut.StartConserves | scripts/lib/renode/platforms/models/NRF_USBD_Full.cs:222-259 | a DMA keeps coherence and retires exactly the front of what is pending |
| BulkOut.DropConserves | scripts/lib/renode/platforms/models/NRF_USBD_Full.cs:600-618 | a SIZE write keeps coherence and retires exactly the front of what is pending |
| BulkOut.StartDelivers | scripts/lib/renode/platforms/models/NRF_USBD_Full.cs:236-246 | a DMA delivers the first MAXCNT bytes of the presented chunk, and exactly the queued bytes stay pending |
| BulkOut.DropDiscards | scripts/lib/renode/platforms/models/NRF_USBD_Full.cs:600-618 | a SIZE write delivers nothing and drops the presented chunk alone; the queued bytes stay pending |
| BulkOut.StartShrinks | scripts/lib/renode/platforms/models/NRF_USBD_Full.cs:204-259 | each STARTEPOUT on a presented chunk strictly reduces the pending bytes and takes one task off the bound |
| Common.CeilDivRoundsUp | scripts/lib/renode/platforms/models/NRF_USBD_Full.cs:204-220 | the number of packets that the bounds count, taking min(maximumPacketSize, left) at a time, is the quotient rounded up |
| BulkOut.DrainBound | scripts/lib/renode/platforms/models/NRF_USBD_Full.cs:204-259 | the endpoint is empty after k tasks if and only if k is at least (1 if presented) + ceil(queued / maximumPacketSize), whatever MAXCNT was |
| DataStatus.AckClearsExactly | scripts/lib/renode/platforms/models/NRF_USBD_Full.cs:414-434 | acknowledging a word clears exactly its bits of EPDATASTATUS and no data |
| DataStatus.HostWriteAdds | scripts/lib/renode/platforms/models/NRF_USBD_Full.cs:176-198 | a host write puts its bytes behind what is pending on its endpoint, raises EPDATA exactly if they arrive and nothing is presented, and changes nothing else, coherent or not |
| WakeupRun.NoLostWakeup | scripts/lib/renode/platforms/models/NRF_USBD_Full.cs:176-259 | in every interleaving: a presented chunk has its bit set or is in the guest's word; a set unread bit has EPDATA set, a raise pending, or the guest between clear and read; the size kept behind SIZE.EPOUT is the chunk's length; host bytes are retired ++ presented ++ queued |
| WakeupRun.StepKeepsWakeups | scripts/lib/renode/platforms/models/NRF_USBD_Full.cs:414-434 | every single step keeps the two wakeup properties of an endpoint |
| WakeupRun.StepKeepsBytes | scripts/lib/renode/platforms/models/NRF_USBD_Full.cs:176-259 | every single step keeps coherence and conservation of an endpoint |
| StatusHistory.StatusReads | scripts/lib/renode/platforms/models/NRF_USBD_Full.cs:414-434 | in every run bit n of EPDATASTATUS reads one exactly while a completed IN transfer of endpoint n is unacknowledged, bit 16 + n exactly while an offered chunk is, and no other bit ever |
| RestReachable.RestIsReachable | scripts/lib/renode/platforms/models/NRF_USBD_Full.cs:167-198 | from every reachable state some steps of the handler and of threads past their lock lead to rest |
| RestReachable.StreamCanArrive | scripts/lib/renode/platforms/models/NRF_USBD_Full.cs:222-259 | for packets below 128 bytes every faithful run can be continued, without the host, to a state at rest in which every byte written is in guest memory |
| WakeupRun.FaithfulGuestGetsTheStream | scripts/lib/renode/platforms/models/NRF_USBD_Full.cs:236-253 | for packets below 128 bytes, with MAXCNT at least what SIZE.EPOUT reads and no dropped chunk, guest memory has received an exact prefix of the host stream, and all of it once the system is at rest |
| WakeupRun.SizeReadsTheLength | scripts/lib/renode/platforms/models/NRF_USBD_Full.cs:600-601 | in every reachable state SIZE.EPOUT[n] reads the length of the waiting chunk, if and only if packets are below 128 bytes |
| WakeupRun.WidePacketIsCut | scripts/lib/renode/platforms/models/NRF_USBD_Full.cs:236-246 | with packets of 128 bytes or more a guest that obeys the register loses the end of a 128-byte packet, whatever MAXCNT it programs |
| WakeupRun.ObeyingSizeSuffices | scripts/lib/renode/platforms/models/NRF_USBD_Full.cs:236-253 | every guest that obeys SIZE.EPOUT gets the stream, if and only if packets are below 128 bytes |
| WakeupRun.WrittenIsTheHostStream | scripts/lib/renode/platforms/models/NRF_USBD_Full.cs:186-192 | the bytes accounted for are the concatenation of the host's writes since the last reset |
| WakeupRun.RestIsEmpty | scripts/lib/renode/platforms/models/NRF_USBD_Full.cs:167-198 | when the handler is idle with no event set and no raise pending, nothing is presented or queued |
| WakeupRun.SafeAcks | scripts/lib/renode/platforms/models/NRF_USBD_Full.cs:414-421 | a write-back keeps every chunk announced if and only if it names no presented chunk the guest has not read |
| WakeupRun.PlainWriteBackLosesLateChunks | scripts/lib/renode/platforms/models/NRF_USBD_Full.cs:414-421 | with a plain read/write register the same write-back loses exactly the chunks presented after the read |
| WakeupRun.ResetIsCleanUnlessRaced | scripts/lib/renode/platforms/models/NRF_USBD_Full.cs:74-84 | Reset leaves an endpoint clean and coherent if and only if a chunk was presented or no host byte arrived between its unlocked and its locked half |
| HandlerProgress.QuietRunDrains | scripts/lib/renode/platforms/models/NRF_USBD_Full.cs:204-259 | in every interleaving without new bytes for an endpoint, it is empty if and only if it got as many STARTEPOUT tasks as the drain bound says |
| HandlerProgress.PassesDrain | scripts/lib/renode/platforms/models/NRF_USBD_Full.cs:414-434 | every complete pass of the handler brings each endpoint at least one task closer to empty |
| HandlerProgress.EnoughPassesEmpty | scripts/lib/renode/platforms/models/NRF_USBD_Full.cs:167-175 | after as many passes as the drain bound nothing is pending and every host byte is retired |
| ControlEndpoint.TransfersAnsweredExactly | scripts/lib/renode/platforms/models/NRF_USBD_Full.cs:96-150 | in every run each SETUP is answered exactly as its own later events say: at most once, with exactly the chunks sent since it, never after a stall, a newer SETUP or a reset; SET_ADDRESS at once |
| ControlEndpoint.FateStep | scripts/lib/renode/platforms/models/NRF_USBD_Full.cs:283-307 | one event changes what a SETUP has been answered, and what the slot holds, exactly as its fate changes |
| ControlEndpoint.AddressIsTheLastSet | scripts/lib/renode/platforms/models/NRF_USBD_Full.cs:104-112 | USBADDR is the last SET_ADDRESS since reset, in seven bits |
| ControlEndpoint.OnlySetAddressIsHidden | scripts/lib/renode/platforms/models/NRF_USBD_Full.cs:100-126 | in every run exactly request 5 of standard type to the device is answered at once, with no data, and leaves the open transfer alone; any other SETUP invokes nothing and becomes the open transfer with its packet and payload |
| ControlEndpoint.DataStageIsExact | scripts/lib/renode/platforms/models/NRF_USBD_Full.cs:119-126 | whatever mix of tasks runs, the bytes taken are exactly a prefix of the payload of the last forwarded SETUP (a null payload counts as empty), up to the offset; nothing after a reset |
| ControlEndpoint.AdvertisedSizeIsRead | scripts/lib/renode/platforms/models/NRF_USBD_Full.cs:152-165 | in every run RCVOUT makes SIZE.EPOUT[0] read min(maximumPacketSize, remaining), if and only if packets are below 128 bytes |
| ControlEndpoint.RoundsKeepOrder | scripts/lib/renode/platforms/models/NRF_USBD_Full.cs:261-281 | RCVOUT/STARTEPOUT0 rounds deliver the payload in order, whatever MAXCNT they use |
| ControlEndpoint.RoundsSuffice | scripts/lib/renode/platforms/models/NRF_USBD_Full.cs:268-280 | for packets below 128 bytes and MAXCNT at least what SIZE.EPOUT[0] reads, the payload is delivered if and only if there were at least ceil(remaining / maximumPacketSize) rounds |
| ControlEndpoint.WholePayloadArrives | scripts/lib/renode/platforms/models/NRF_USBD_Full.cs:119-120 | from a forwarded SETUP on, that many covered rounds bring its whole payload to memory, and fewer bring a proper prefix |
| ControlEndpoint.CoveredRoundsSuffice | scripts/lib/renode/platforms/models/NRF_USBD_Full.cs:152-165 | that holds for all covered rounds if and only if packets are below 128 bytes |
| CdcDescriptors.ParseCdcDataPairs | scripts/lib/renode/platforms/models/DualCdcAcmBridge.cs:285-340 | the offset loop returns what the walk over any byte array finds |
| CdcDescriptors.WalkSerialized | scripts/lib/renode/platforms/models/DualCdcAcmBridge.cs:309-337 | walking serialised descriptors, of any length the length byte holds, visits them one by one |
| CdcDescriptors.ParseFindsFunctions | scripts/lib/renode/platforms/models/DualCdcAcmBridge.cs:279-340 | for any configuration of named or unnamed interfaces with any descriptors in them: one pair per data interface with both bulk endpoints, with its last bulk endpoints and the last communications interface since the previous pair, or -1 |
| CdcDescriptors.DescriptorRoundTrip | scripts/lib/renode/platforms/models/DualCdcAcmBridge.cs:279-340 | serialising CDC functions (classes 2 and 10, endpoint addresses 128 + IN number and OUT number, bulk type 2) freely mixed with other interfaces and parsing gives back exactly those functions in order |
| CdcDescriptors.CutDescriptor | scripts/lib/renode/platforms/models/DualCdcAcmBridge.cs:309-324 | when the bytes end inside a descriptor it counts as whole if seven bytes of an interface or five of an endpoint are there, and as missing otherwise |
| CdcDescriptors.ZeroLengthEndsTheWalk | scripts/lib/renode/platforms/models/DualCdcAcmBridge.cs:309 | a length byte of zero ends the walk, whatever follows |
| CdcDescriptors.LengthOneIsStepped | scripts/lib/renode/platforms/models/DualCdcAcmBridge.cs:309-312 | a length byte of one is stepped over, unless the byte behind it reads as the type of an interface or an endpoint |
| CdcDescriptors.HeaderAnnouncesAll | scripts/lib/renode/platforms/models/DualCdcAcmBridge.cs:158-161 | wTotalLength read from the first nine bytes is the whole length if and only if that fits sixteen bits |
| ControlChain.ChainIsExactlyOnce | scripts/lib/renode/platforms/models/DualCdcAcmBridge.cs:198-220 | for any queue and any guest: the SETUPs are seen in order, one more per completed status stage before the first stall; the final callback runs once, exactly when all are completed, and starts one pump for each wired channel with an IN endpoint below 8 |
| ControlChain.SendTakesNext | scripts/lib/renode/platforms/models/DualCdcAcmBridge.cs:211-220 | sending skips the SET_ADDRESS requests that complete at once, then forwards the next request with its payload, or finishes |
| ControlChain.ConfigurationReadOnTheWire | scripts/lib/renode/platforms/models/DualCdcAcmBridge.cs:342-354 | a configuration read is 80 06 00 02 00 00 and the length, as the guest reads it |
| ControlChain.ControlRequestsOnTheWire | scripts/lib/renode/platforms/models/DualCdcAcmBridge.cs:186-195 | each function gets 21 20 with 115200 baud, 8N1, and 21 22 with DTR and RTS, both to its control interface, in the order of the functions |
| ControlChain.WiringIsExact | scripts/lib/renode/platforms/models/DualCdcAcmBridge.cs:438-448 | a wired channel takes its overrides where they are not zero and the endpoints found otherwise, and holds nothing back |
| ControlChain.NothingWithoutASlot | scripts/lib/renode/platforms/models/NRF_USBD_Full.cs:289-307 | once no callback is latched, nothing the guest does sends a request or finishes the chain |
| ControlChain.LateClearingBreaksTheChain | scripts/lib/renode/platforms/models/NRF_USBD_Full.cs:289-298 | if the slot were cleared after the callback, the chain would stop after its next request for ever |
| ControlChain.TransferCompletes | scripts/lib/renode/platforms/models/NRF_USBD_Full.cs:138-144 | a transfer completes with the concatenation of all its chunks, however the guest splits them |
| ControlChain.ShortHeaderEndsEnumeration | scripts/lib/renode/platforms/models/DualCdcAcmBridge.cs:151-157 | a header answer of fewer than nine bytes ends the enumeration |
| ControlChain.EnumerationIsExact | scripts/lib/renode/platforms/models/DualCdcAcmBridge.cs:141-209 | the guest is asked for the header, for as many bytes as it announces, and for the control requests of the functions found, in order; the channels are wired to those functions and the pumps start once at the end |
| ControlChain.CompositeIsEnumerated | scripts/lib/renode/platforms/models/DualCdcAcmBridge.cs:168-209 | for a guest that answers with its own composite descriptor, the requests name the control interfaces of its first two CDC functions and the channels get their endpoints |
| DualCdcAcmBridge.Bridge.constructor | scripts/lib/renode/platforms/models/DualCdcAcmBridge.cs:124-132 | two channels and nothing sent |
| DualCdcAcmBridge.Bridge.DeviceEnumerated | scripts/lib/renode/platforms/models/DualCdcAcmBridge.cs:141-166 | sends the nine-byte configuration read into the device's slot |
| DualCdcAcmBridge.Bridge.SendControlSequence | scripts/lib/renode/platforms/models/DualCdcAcmBridge.cs:211-220 | bridge and device together take the step of the chain |
| DualCdcAcmBridge.Bridge.StartWiredPumps | scripts/lib/renode/platforms/models/DualCdcAcmBridge.cs:198-254 | the pump of each wired channel whose IN endpoint exists is started once |
| DualCdcAcmBridge.Bridge.WireChannels | scripts/lib/renode/platforms/models/DualCdcAcmBridge.cs:168-209 | parses, wires and starts the control requests as the chain says; the bulk endpoints of the device take the flushes of the wired channels, one host write each in channel order, and nothing else |
| DualCdcAcmBridge.Bridge.WireFound | scripts/lib/renode/platforms/models/DualCdcAcmBridge.cs:179-196 | each of the first two functions gets its channel and its two requests, in order, and its channel's flush is one host write to the device |
| DualCdcAcmBridge.FlushesAreGained | scripts/lib/renode/platforms/models/DualCdcAcmBridge.cs:436-456 | the flushes put every byte queued for an endpoint behind what is pending there, in channel order |
| DualCdcAcmBridge.Bridge.WireOne | scripts/lib/renode/platforms/models/DualCdcAcmBridge.cs:436-456 | one channel is wired, the others and endpoint 0 are untouched; what it had queued goes behind what is pending on its OUT endpoint, with EPDATA if nothing was presented, and nothing else of the device changes |
| DualCdcAcmBridge.Bridge.HostByte | scripts/lib/renode/platforms/models/DualCdcAcmBridge.cs:415-428 | a terminal byte is queued before wiring; after it the byte goes behind what is pending on the OUT endpoint, with EPDATA if nothing was presented; everything else is untouched |
| DualCdcAcmBridge.Bridge.Invoke | scripts/lib/renode/platforms/models/DualCdcAcmBridge.cs:151-165 | each completion callback takes its step of the chain; only the one that wires channels touches the bulk endpoints, by their flushes |
| DualCdcAcmBridge.Bridge.GuestStatus | scripts/lib/renode/platforms/models/NRF_USBD_Full.cs:283-299 | a status stage on the device re-enters the bridge as the chain says, with the flushes if it completes the full configuration read |
| BridgeChannel.CdcAcmBridgeChannel.WriteChar | scripts/lib/renode/platforms/models/DualCdcAcmBridge.cs:415-428 | a byte is queued before wiring and passed on after it, if the endpoint exists |
| BridgeChannel.CdcAcmBridgeChannel.Wire | scripts/lib/renode/platforms/models/DualCdcAcmBridge.cs:436-456 | constructor endpoints win over discovered ones, and everything queued is flushed |
| BridgeChannel.BufferingLosesNothing | scripts/lib/renode/platforms/models/DualCdcAcmBridge.cs:390-456 | in every interleaving of any writers with Wire, the accepted bytes are, as a multiset, those sent, lost, being written, being flushed and pending; none is lost while the OUT endpoint exists |
| BridgeChannel.AcceptedAreWritten | scripts/lib/renode/platforms/models/DualCdcAcmBridge.cs:415-428 | the accepted bytes are those of all WriteChar calls, in order |
| BridgeChannel.OrderlyRunsKeepOrder | scripts/lib/renode/platforms/models/DualCdcAcmBridge.cs:415-456 | with one writer and no write between unlock and flush, bytes are sent in the order written |
| BridgeChannel.SingleWriterOrder | scripts/lib/renode/platforms/models/DualCdcAcmBridge.cs:415-456 | in every run with one writer the bytes are accepted as early ++ gap ++ late and sent as gap ++ early ++ late, where the gap holds those written between Wire's unlock and its flush |
| BridgeChannel.OvertakingWritesReorder | scripts/lib/renode/platforms/models/DualCdcAcmBridge.cs:427-455 | with a bytes queued before wiring and b written in that gap, the order is kept whatever the bytes are if and only if a or b is zero |
| TerminalToGuest.HostByteIsThreeSteps | scripts/lib/renode/platforms/models/DualCdcAcmBridge.cs:415-428 | with no other thread under way, a terminal byte through the bridge is three steps of channel and device: take, pass on, raise |
| TerminalToGuest.WireOneIsThreeSteps | scripts/lib/renode/platforms/models/DualCdcAcmBridge.cs:436-456 | so is wiring: wire, pass on the flush, raise |
| TerminalToGuest.SentIsTheHostStream | scripts/lib/renode/platforms/models/DualCdcAcmBridge.cs:427-455 | with a channel and the device side by side, the device has been written exactly what the channel sent since the last reset |
| TerminalToGuest.SentReachesTheGuest | scripts/lib/renode/platforms/models/NRF_USBD_Full.cs:176-259 | for any writers and a guest that obeys SIZE.EPOUT, guest memory ++ what the device still holds is what the channel sent since the last reset |
| TerminalToGuest.TypedBytesReachTheGuest | scripts/lib/renode/platforms/models/DualCdcAcmBridge.cs:415-456 | with one orderly writer the typed bytes are, in order, those before the last reset, those in guest memory, those in the device and those in the channel; at rest and without a reset guest memory is exactly what was typed |
| TerminalToGuest.GapWritesReachTheGuestFirst | scripts/lib/renode/platforms/models/DualCdcAcmBridge.cs:430-456 | with one writer that may write around the flush, guest memory at rest is gap ++ early ++ late |
| DeviceToHostPump.PumpDeliversInOrder | scripts/lib/renode/platforms/models/DualCdcAcmBridge.cs:222-277 | in every run exactly one of armed, running or queued re-arm holds; delivered ++ in delivery ++ buffered is the early chunks and the guest's IN transfers; with no re-arm queued everything is delivered |
| DeviceToHostPump.EverythingCanBeDelivered | scripts/lib/renode/platforms/models/DualCdcAcmBridge.cs:226-277 | every run can be continued, without the guest, until all that the guest sent is delivered in order and the callback is armed |
| DeviceToHostPump.StepKeepsToken | scripts/lib/renode/platforms/models/DualCdcAcmBridge.cs:238-277 | every single step keeps the token and the bytes |
| DeviceToHostPump.SynchronousRearmDies | scripts/lib/renode/platforms/models/DualCdcAcmBridge.cs:226-237 | with the re-arm inside the callback, the first packet is delivered and nothing ever after |
| Framing.EncodeFrame | scripts/lib/renode/rpc_client.py:31-38 | the loop produces SOF, the escaped payload and EOF |
| Framing.FrameOnTheWire | scripts/lib/renode/rpc_client.py:31-38 | a frame is AB, the payload with AC in front of each AB, AC and AD, and AD |
| Framing.DecodeFrame | scripts/lib/renode/rpc_client.py:71-93 | from any state that holds no escape, a complete frame decodes to its payload |
| Framing.StreamRoundTrip | scripts/lib/renode/rpc_client.py:31-94 | any payloads, framed with any SOF-free bytes around them, decode to exactly those payloads in order |
| Framing.Resynchronisation | scripts/lib/renode/rpc_client.py:78-93 | after a cut frame the next one decodes intact if and only if the cut leaves no escape held; otherwise the two run together |
| Framing.EscapeCutPoints | scripts/lib/renode/rpc_client.py:83-93 | such cuts are exactly those right after the ESC of an escaped payload byte |
| RpcClient.RpcSocket.NextByte | scripts/lib/renode/rpc_client.py:96-110 | returns the next byte of the input and leaves the rest |
| RpcClient.RpcSocket.ReadFrame | scripts/lib/renode/rpc_client.py:68-94 | returns the first complete frame of the input and leaves exactly what follows it |
| RpcClient.ReadAllIsDecode | scripts/lib/renode/rpc_client.py:68-110 | repeated calls return exactly the frames of the stream, so the buffer kept between calls loses and repeats nothing |
| RpcClient.ClientReadsThePayloads | scripts/lib/renode/rpc_client.py:31-94 | framed payloads are read back one per call |
| StudioHost.StudioHostApp.constructor | ble-studio-host/src/main.c:73-80 | starts outside a frame with nothing sent |
| StudioHost.StudioHostApp.FrameRxByte | ble-studio-host/src/main.c:106-134 | frame_len stays within 256, the buffer holds the first bytes of what the unbounded decoder holds, and each completed frame is handled once, cut to 256 bytes |
| StudioHost.StudioHostApp.HandleFrame | ble-studio-host/src/main.c:94-104 | counts the response and sends the next request if one is left |
| StudioHost.StudioHostApp.SendNextRequest | ble-studio-host/src/main.c:84-92 | issues the next request, cut by its sixteen-bit length, or nothing |
| StudioHost.StudioHostApp.IndicateFunc | ble-studio-host/src/main.c:157-171 | feeds every byte of an indication in order; an unsubscription feeds nothing |
| StudioHost.StudioHostApp.OnCccDiscovered | ble-studio-host/src/main.c:209-221 | a successful or repeated subscription sends one request, a failed one none |
| StudioHost.HostFollowsTheStream | ble-studio-host/src/main.c:84-134 | after any subscriptions and indications, the handled frames are those of the received bytes cut to 256, and exactly the first min(COUNT, subscriptions + frames) requests were issued |
| StudioHost.CDecoderRefinesPython | ble-studio-host/src/main.c:106-171 | for every stream and every split into indications the C decoder handles the frames read_frame returns, each cut to 256 bytes |
| StudioHost.HandledFrames | ble-studio-host/src/main.c:106-134 | frame by frame: one of at most 256 bytes is handled as read_frame returns it, a longer one as exactly its first 256 bytes |
| StudioHost.HostResynchronises | ble-studio-host/src/main.c:106-134 | the bounded decoder handles the complete frame after a cut that holds no escape |
| StudioHost.WholeRequestWritten | ble-studio-host/src/main.c:88-91 | a write carries a prefix of its request of the length modulo 65536, the whole one if and only if the length fits sixteen bits |
| HexFile.RenderHex | scripts/lib/ble/studio_requests.py:178-202 | naming and rendering give the header, then a comment and an upper-case hex line per request |
| HexFile.RequestLinesAt | scripts/lib/ble/studio_requests.py:199-201 | each request has a comment line with its name, or with its position if it has none, and a line of hexadecimal |
| HexFile.ParseHexFile | scripts/lib/ble/studio_requests.py:205-214 | returns the bytes of the lines that count, in order; raises if and only if one of them is not hexadecimal |
| HexFile.Hex2IncParse | ble-studio-host/hex2inc.py:20-30 | the same payloads on every text, or an exit naming the first bad line |
| HexText.HexRoundTrip | scripts/lib/ble/studio_requests.py:201-213 | reading hexadecimal inverts writing it |
| HexText.HexSpells | scripts/lib/ble/studio_requests.py:201 | writing gives two digits a byte, none of them in lower case |
| HexText.OnlySpellingsAreRead | scripts/lib/ble/studio_requests.py:213 | a text without blanks is read as some bytes if and only if it spells them, two digits of either case a byte |
| HexText.SpellingIsRead | scripts/lib/ble/studio_requests.py:213 | reading goes on behind the digits of the bytes read so far, so blanks between bytes do not matter |
| HexText.BlankIsSkipped | scripts/lib/ble/studio_requests.py:213 | each of the six ASCII blanks is skipped wherever a byte may start |
| HexFile.BrokenLine | scripts/lib/ble/studio_requests.py:209 | each of the ten line break characters, and CR LF, ends a line |
| HexFile.LastLine | scripts/lib/ble/studio_requests.py:209 | a last line needs no break, and an empty text has no line |
| HexFile.IgnoredLine | scripts/lib/ble/studio_requests.py:210-212 | a blank line, or one whose first visible character is #, gives nothing, however far it is indented |
| HexFile.RequestLine | scripts/lib/ble/studio_requests.py:210-213 | a line gives the bytes it spells, with blanks around the digits |
| HexFile.DecimalReadsBack | scripts/lib/ble/studio_requests.py:186 | the number in a default name reads as the position of its request |
| HexFile.SplitText | scripts/lib/ble/studio_requests.py:202-209 | splitting inverts joining for lines without breaks |
| HexFile.HexFileRoundTrip | scripts/lib/ble/studio_requests.py:189-214 | parsing a rendered file gives back the framed requests in order, for any names without line breaks |
| HexFile.CRows | ble-studio-host/hex2inc.py:33-36 | the rows show the data twelve bytes at a time and cover it |
| HexFile.CTableRoundTrip | ble-studio-host/hex2inc.py:33-37 | the rows, read as a C initialiser, are the data |
| RequestPipeline.Compile | ble-studio-host/hex2inc.py:69-81 | every file that parses to some payloads gives a table that a C compiler reads back from the rows; a bad line or an empty file ends the build |
| RequestPipeline.BuiltTable | ble-studio-host/hex2inc.py:33-66 | a table built from a file is the list of payloads the file parses to |
| RequestPipeline.PipelineDelivers | ble-studio-host/src/main.c:52-104 | built from the rendered file through hex2inc.py's C rows, the host app has written, after any events, the frames of exactly the first min(COUNT, subscriptions + responses) requests, and they decode to those requests |
| CcmTransform.TransformIsExact | scripts/lib/renode/platforms/models/ccm.py:115-187 | for every safe placement the output record holds header, adjusted length and original payload (and MIC), and all other memory is unchanged; encryption fails exactly on lengths above 251, with only the header written |
| CcmTransform.SafePlacements | scripts/lib/renode/platforms/models/ccm.py:158-167 | the payload survives for every memory contents if and only if the output starts at or below the input or behind the copied bytes |
| CcmTransform.DecryptInvertsEncrypt | scripts/lib/renode/platforms/models/ccm.py:145-170 | decrypting on another machine what was encrypted on one restores header, length and payload; empty records pass through |
| CcmTransform.DependsOnlyOnInput | scripts/lib/renode/platforms/models/ccm.py:93-112 | output record and outcome, also of a failed operation, depend on the input record only, wherever the two lie |
| CcmTransform.WritesOnlyTheRecord | scripts/lib/renode/platforms/models/ccm.py:145-170 | wherever the records lie, overlapping or not, no byte outside the output record is written |
| CcmTransform.FarWriteCommutes | scripts/lib/renode/platforms/models/ccm.py:115-174 | a byte outside both records may be written before or after the transform, with the same memory and outcome |
| FakeCcm.Peripheral.constructor | scripts/lib/renode/platforms/models/ccm.py:67-81 | a machine's state starts clear |
| FakeCcm.Peripheral.DoTransform | scripts/lib/renode/platforms/models/ccm.py:115-187 | the in-place loops perform the transform and set the flags |
| FakeCcm.Peripheral.Schedule | scripts/lib/renode/platforms/models/ccm.py:84-112 | the register snapshot is recorded and performed at once |
| FakeCcm.Peripheral.OnRead | scripts/lib/renode/platforms/models/ccm.py:193-212 | each register reads as its field, ENDCRYPT and MICSTATUS after performing what is pending |
| FakeCcm.Peripheral.OnWrite | scripts/lib/renode/platforms/models/ccm.py:214-241 | tasks, shortcut, event and plain registers, each with its effect only |
| FakeCcm.StartIsPerformed | scripts/lib/renode/platforms/models/ccm.py:84-112 | in every run a CRYPT write, or a KSGEN write with the shortcut set, transforms memory from the last INPTR to the last OUTPTR in the direction of the last MODE; ENDCRYPT reads one, ERROR one exactly on an encryption above 251 bytes, MICSTATUS the direction, unchanged on an error |
| FakeCcm.OtherwiseNothingHappens | scripts/lib/renode/platforms/models/ccm.py:193-241 | any other access leaves memory and MICSTATUS alone and changes an event register only by a write to it, or ENDKSGEN by a KSGEN write |
| FakeCcm.RegistersHoldLastWrite | scripts/lib/renode/platforms/models/ccm.py:209-241 | every other register reads back what was last written to it |
| FakeCcm.ReadsArePure | scripts/lib/renode/platforms/models/ccm.py:84-119 | after any requests and bus writes no transform is pending, so a register read changes nothing |
| FakeCcm.EagerIsTheFirstLazyRead | scripts/lib/renode/platforms/models/ccm.py:93-112 | after a trigger the eager peripheral shows the flags and the output record that a lazy one shows after its first ENDCRYPT read, for any later memory with the same input record |
| FakeCcm.LazyShowsStaleOutput | scripts/lib/renode/platforms/models/ccm.py:93-111 | until that read the lazy one's memory is that of the eager one if and only if the output record was already there |
| FakeCcm.EagerRefinesLazy | scripts/lib/renode/platforms/models/ccm.py:84-123 | over every run that starts or stops nothing and leaves both records alone while an operation is pending, all registers but ERROR read the same, and ERROR too, with the same state and memory, whenever none is pending |
| FakeCcm.StepKeepsAhead | scripts/lib/renode/platforms/models/ccm.py:193-241 | every single access or bus write keeps the eager one where the lazy one gets by performing what it has pending |

## Left out

- Registers that are constant or only logged (HALTED, LOWPOWER, DTOGGLE, EPSTALL, EPSTATUS, enable bits, EPIN AMOUNT), interrupt enables, and the EVENTCAUSE handshake.
- A `maximumPacketSize` below 1: the source would present empty chunks or allocate an array of negative length.
- A second `Wire` that moves a channel to another OUT endpoint while a byte is between its lock and its WriteData: the source sends it to the old endpoint, `BridgeChannel` to the new one; `TerminalToGuest` fixes one endpoint.
- Framework internals: `USBHost` enumeration up to `DeviceEnumerated`, `InterruptManager`, the endpoint buffer beyond what its comments say, locks as anything but atomic steps.
- The bulk endpoints' view of system memory other than DMA targets, and memory-mapped peripherals at DMA or CCM addresses: memory is plain bytes.
- Deadlines of `read_frame` and socket errors: a call ends when no more input comes, which is where the source's timeout would end it.
- BLE scanning, pairing and discovery before the subscription, and failures of `bt_gatt_write`: a request counts as issued when the call is made.
- Protobuf encoding, `_expand_dollar_types` and `load_requests_json`: a request is opaque bytes.
- The C text around the rows of `c_array` and `render`'s struct table: constant text. A compiler is its reading of the rows as an initialiser.
- The dictionary that keys CCM state by machine: each machine is its own object here.
- The value a byte cannot hold in `ccm.py`: the bus write is taken to raise, which the source catches.
