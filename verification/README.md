# USB/IP for Windows: a verified model

usbip-win carries USB requests from a Windows client over TCP to a server that owns the device.
On the client a virtual host controller driver queues the requests; on the server a stub driver
hands them to the USB stack and queues the replies; on both sides a user-space forwarder moves
messages between a driver and the socket. This project models the parts in which bytes,
requests or references can be lost, duplicated or mixed up, and proves that they are not, or
exactly when they are.

| module | part of the system |
|---|---|
| Options, Bytes | optional values; bytes, little-endian words, byte-swapping of rows of words |
| ArgRotation, GetoptScan | `getopt_long`: exchanging two blocks of arguments by gcd-many cycles, and the permuting scan |
| IsoPackets, IsoTransfer | an isochronous transfer from the client's packets through the server's buffer and back |
| UrbQueue, UrbRuns, UrbOrder, VusbDevice | the life of a request in the UDE virtual host controller, and the order in which requests go out |
| ClientRequests | the messages the UDE driver makes of its client's requests |
| StubStream, StubReplies | the stub driver's reply stream, the replies of each request path, and their way through the forwarder |
| PduCodec, HdrsCache, Framing, Forwarder, WireForm | the forwarder: endian codec, direction cache, message framing, buffer chain, and what leaves word by word |
| Delivery, Connection | whole runs of the forwarder: one direction with its progress measure, and the two directions that share the cache |
| RemovalLock | the stub driver's removal lock |
| VirtualHub | the virtual hub's device list and its bus-relations report |

Code that changes state in place is modelled by classes and methods over arrays, objects and
fields; each method is tied to a function or predicate on values, and the properties are proved
about those. Where several threads meet, a step is one lock region or one interlocked
operation, and properties are proved for every sequence of steps. Message formats are those of
the Linux kernel's USB/IP protocol document, sections USBIP_CMD_SUBMIT, USBIP_RET_SUBMIT,
USBIP_CMD_UNLINK and USBIP_RET_UNLINK.

## What the code does not keep

Some properties one would expect are false of the code. Each has a lemma that names the
failing case and one that says exactly when the code is right.

- A request can be completed twice, in two ways. In the first a read finds the partially sent
  request being cancelled (driver/vhci_ude/vhci_read.c:32-38); it clears the cancelable flag but
  leaves the request on `head_urbr`. Plug-out that comes before the cancel callback then takes
  the cleared flag for ownership and completes the request
  (driver/vhci_ude/vhci_plugout.c:38-45); the callback completes it again. In the second a read
  has looked the device up in time (driver/vhci_ude/vhci_vusb.c:9-20) but gets the lock after
  plug-out has aborted the partially sent request, which `urbr_sent_partial` still names; it goes
  on with it and has it completed once more. These two steps are the only ones: any other keeps
  every request right, and after one of these some continuation completes a request twice
  (`UrbRuns.ExactlyOnceIffSafe`). Both can be reached (`UrbRuns.UnsafeAbortIsReachable`,
  `UrbRuns.StaleReadIsReachable`).
- The server allocates the sum of the packet lengths but addresses packets by the client's
  offsets, so its buffer holds them apart from each other if and only if the first offset is 0
  (`IsoPackets.ServerBufferFits`).
- The length the forwarder derives from a reply's header is not always that of its data, and then
  the message boundaries are lost. A control reply with data breaks them if and only if the
  request's direction is OUT (`StubReplies.DataReplyFramedIff`). A transfer submitted as
  isochronous IN, which an OUT request can be when its transfer flags say IN, breaks them when it
  succeeds with data for an OUT request, and when it fails unless its length is by chance that of
  the descriptors it lacks (`StubReplies.IsoInReplyFramedIff`). A failed isochronous OUT transfer
  announces the bytes it sent and carries as many, copied from a null pointer, where descriptors
  are expected, so it is framed right if and only if the two lengths are equal
  (`StubReplies.IsoOutReplyFramedIff`). On every other path header and data agree
  (`StubReplies.ReplyProperIff`).
- A successful isochronous OUT reply puts its descriptors in an allocation of as many bytes as
  were sent (driver/stub/stub_usbd.c:507-515), which is too small if 16 bytes a packet are more
  than that.
- The cache forgets. The first look at a reply finds its direction if and only if no later request
  took the cache slot or the reply's own header has the direction right
  (`Connection.FirstLookIff`). The stub's headers all say OUT, so replies to OUT requests are never
  too late (`StubReplies.OutReplyIsTimely`), but one to an IN request can be
  (`Connection.LateReply`).
- What the UDE driver's reads return is not always the whole request. A bulk OUT transfer whose
  data fits the first read copies the data but returns the header alone
  (driver/vhci_ude/vhci_urbr_store_bulk.c:53-60), and an IN vendor or class request never sets a
  number of bytes, so its read returns none (driver/vhci_ude/vhci_urbr_store_vendor.c:93-103).
  Every other request is returned whole (`ClientRequests.ReadMessage`, `ClientRequests.Whole`).
  The forwarder asks for the 48 bytes of the header first, so bulk data is not lost that way
  (`ClientRequests.LostRequests`).
- `swap_usbip_header` of the driver library looks at the command before swapping it, so it is
  the host-to-network codec only (`PduCodec.DriverDecodesIff`). Nothing in the repository calls
  it.
- Detaching a device that is still plugged does not lower the hub's plugged counter; the report
  stays safe because the counter is only ever too high (`VirtualHub.Vhub.CounterGap`).
- The comment on the forwarder's cache says that it holds OUT requests; the code enters every
  request that is not an unlink, which is what the model does.

## Model

| member | source | states |
|---|---|---|
| ArgRotation.Gcd | userspace/lib/getopt_long.c:117-133 | the loop returns a positive number that divides both arguments and is an integer combination of them |
| ArgRotation.GcdIsGreatest | userspace/lib/getopt_long.c:117-133 | every common divisor divides that number |
| ArgRotation.PosDistinct | userspace/lib/getopt_long.c:144-169 | a cycle meets no position twice before it closes |
| ArgRotation.PosCloses | userspace/lib/getopt_long.c:144-169 | a cycle is back at its start after total/gcd moves |
| ArgRotation.PosCovers | userspace/lib/getopt_long.c:144-169 | every position of a residue class is on the cycle of that class |
| ArgRotation.GcdToursCover | userspace/lib/getopt_long.c:144-169 | the gcd-many cycles are disjoint and together meet every position of both blocks |
| ArgRotation.RotateCycle | userspace/lib/getopt_long.c:153-168 | the inner loop settles exactly the positions of its own cycle |
| ArgRotation.PermuteArgs | userspace/lib/getopt_long.c:135-170 | in place, the second block then the first, each in its own order, and nothing else changed |
| GetoptScan.PartitionIsStable | userspace/lib/getopt_long.c:329-405 | the result of the scan consists of two subsequences of the arguments, in their order, without overlap or omission, and the untouched rest |
| GetoptScan.PartitionSkipsNonOptions | userspace/lib/getopt_long.c:329-405 | only non-options are moved behind |
| GetoptScan.ScanByPosition | userspace/lib/getopt_long.c:329-483 | told by positions alone: an argument belongs to the option in front of it if and only if that option wants one and is no argument itself; options, their arguments and the ending `--` go in front, and the letters are those of the options in order, the last of each with its argument |
| GetoptScan.ArgumentFollows | userspace/lib/getopt_long.c:462-483 | in front, an option's argument stands right behind its option |
| GetoptScan.Getopt.MoveOptionsForward | userspace/lib/getopt_long.c:371-377 | options found behind a skipped block move in front of it; both blocks are non-empty |
| GetoptScan.Getopt.SkipNonOption | userspace/lib/getopt_long.c:353-379 | a non-option joins the skipped block and the indices still describe the three blocks |
| GetoptScan.Getopt.FinishAtEnd | userspace/lib/getopt_long.c:334-351 | at the end of the vector the whole vector is the stable partition and optind is at the first non-option |
| GetoptScan.Getopt.FinishAtDashDash | userspace/lib/getopt_long.c:384-404 | the same when `--` ends the scan |
| GetoptScan.Getopt.TakeLetter | userspace/lib/getopt_long.c:429-484 | a call returns the next letter; the last of an option that wants an argument carries the one behind it, if there is one, and passes over both |
| GetoptScan.Getopt.GetoptInternal | userspace/lib/getopt_long.c:295-485 | one call returns the next of the letters the original vector holds, or -1 with the vector permuted |
| GetoptScan.ParseAll | userspace/lib/getopt_long.c:514-525 | a whole run returns the letters of the options in order, each with its own argument, and leaves what goes in front in front, in order, then what does not, with optind between the two |
| IsoPackets.LengthsTelescope | driver/vhci_ude/vhci_urbr_store_iso.c:26-40 | announced lengths reach from each offset to the next and add up to the transfer length minus the first offset |
| IsoPackets.ServerBufferFits | driver/stub/stub_write.c:344-353 | the packets lie in the server's buffer one behind the other without overlap if and only if the first offset is 0 |
| IsoPackets.FullIsPacked | driver/stub/stub_usbd.c:495-497 | packets whose lengths fill the buffer are packed already, so skipping compaction is right |
| IsoPackets.FetchOfPacked | driver/vhci_ude/vhci_urbr_fetch_iso.c:25-49 | spreading what was gathered over the same offsets restores every packet, stops nowhere, changes no other byte and uses up the source |
| IsoTransfer.CopyForward | driver/stub/stub_usbd.c:468-470 | a forward copy inside one buffer is right when the destination is not behind the source |
| IsoTransfer.StoreIsoData | driver/vhci_ude/vhci_urbr_store_iso.c:7-43 | the payload is the data, if any, and one descriptor a packet with its announced length; it is refused if and only if the offsets do not ascend |
| IsoTransfer.GetIsoDescsLen | driver/lib/usbd_helper.c:209-220 | the sum of the announced lengths, in 32 bits |
| IsoTransfer.GetUsbdIsoDescsLen | driver/lib/usbd_helper.c:222-233 | the sum of the actual lengths, in 32 bits |
| IsoTransfer.ProcessIsoTransfer | driver/stub/stub_write.c:344-353 | the server's buffer has room for the announced lengths with the request's descriptors behind it, and the USB stack gets the client's offsets |
| IsoTransfer.CompactUsbdIsoData | driver/stub/stub_usbd.c:460-472 | in place, the packets' actual bytes end up one after the other at the front; no packet is overwritten before it is copied and nothing behind them changes |
| IsoTransfer.ToIsoDescs | driver/lib/usbd_helper.c:193-207 | offsets, actual lengths and statuses of the results, the announced lengths as before, nothing else changed |
| IsoTransfer.DoneIsoTransfer | driver/stub/stub_usbd.c:485-527 | the reply's payload is the packed bytes and behind them the updated descriptors, whether or not the buffer was full |
| IsoTransfer.SaveIsoDesc | driver/vhci_ude/vhci_urbr_fetch_iso.c:8-23 | the client's packets take over lengths and statuses; refused if and only if a returned offset is behind the packet's own |
| IsoTransfer.FetchIsoData | driver/vhci_ude/vhci_urbr_fetch_iso.c:25-49 | the loop with its two bounds checks is the spreading of the source over the packets |
| IsoTransfer.FetchUrbrIso | driver/vhci_ude/vhci_urbr_fetch_iso.c:51-76 | descriptors are found behind the data, then data is spread by their lengths |
| IsoTransfer.IsoInTransfer | driver/stub/stub_usbd.c:485-527 | end to end: every packet's bytes reach its own offset in the client's buffer, other bytes are unchanged, no bounds check stops the copying, all data is used, and lengths and statuses are the device's |
| IsoTransfer.ReportedPlaced | driver/stub/stub_write.c:344-353 | short packets at the client's offsets stay apart inside the server's data area |
| IsoTransfer.DescsMoved | driver/stub/stub_usbd.c:502-503 | descriptors survive compaction and read the same behind the packed data |
| UrbQueue.SubmitInv | driver/vhci_ude/vhci_urbr.c:208-278 | submitting keeps the invariant of requests, lists, numbers and flags on every path |
| UrbQueue.UnmarkDecides | driver/vhci_ude/vhci_urbr.c:333-349 | for a request that is queued or being answered the unmark succeeds exactly when the framework will not complete it, so the driver may; the exception is a request whose flag an earlier read cleared |
| UrbQueue.ReadVusbInv | driver/vhci_ude/vhci_read.c:64-132 | a read keeps it, unless the partially sent request was aborted behind it |
| UrbQueue.WriteVusbInv | driver/vhci_ude/vhci_urbr.c:70-89 | taking the answered request off both lists keeps it, before and after plug-out |
| UrbQueue.WriteDoneInv | driver/vhci_ude/vhci_write.c:54-63 | completing the answered request, unless it is being cancelled, keeps it |
| UrbQueue.CancelCallbackInv | driver/vhci_ude/vhci_urbr.c:164-187 | the lock region of the cancel callback keeps it |
| UrbQueue.UnlinkAndCompleteInv | driver/vhci_ude/vhci_urbr.c:179-186 | so does sending the unlink and completing the request |
| UrbQueue.AbortOneInv | driver/vhci_ude/vhci_plugout.c:35-48 | aborting the first request keeps it if and only if its callback is not still to come with the flag cleared |
| UrbRuns.StepInv | driver/vhci_ude/vhci_plugout.c:30-51 | a step keeps the invariant if and only if it is neither such an abort nor a read that goes on with an aborted request |
| UrbRuns.ExactlyOnePlace | driver/vhci_ude/vhci_urbr.c:164-278 | after any run without those two steps, late reads and writes included, every request is in exactly one of: pending, partially sent, sent, being answered, being cancelled, completed |
| UrbRuns.CompletedExactlyOnce | driver/vhci_ude/vhci_write.c:46-63 | in such a run no request is completed twice, and once nothing is queued or under way each is completed once |
| UrbRuns.ExactlyOnceIffSafe | driver/vhci_ude/vhci_plugout.c:30-51 | the condition is exact: after a step, no continuation by safe steps completes a request twice if and only if the step was safe |
| UrbRuns.ResponseIsUnambiguous | driver/vhci_ude/vhci_urbr.c:70-89 | sent requests have strictly increasing numbers, waiting ones number 0, so a response matches at most one |
| UrbRuns.ResponseTakesItsRequest | driver/vhci_ude/vhci_write.c:46-52 | a response takes its own request off the lists and nothing else; without one it changes nothing |
| UrbRuns.UnlinkWhenSent | driver/vhci_ude/vhci_urbr.c:179-186 | while the device is plugged in, a cancelled request sends an unlink exactly when it had left the pending list, and the unlink names its number |
| UrbRuns.CompletionsHaveCauses | driver/vhci_ude/vhci_urbr.c:147-278 | completions are never taken back, and each has the status of its cause: a response, a cancellation, a failed store, plug-out, or the refusal of a new request |
| UrbOrder.StepOrdered | driver/vhci_ude/vhci_urbr.c:208-278 | every step, the unsafe ones included, keeps requests in the order of their submission |
| UrbOrder.SentInOrderOfSubmission | driver/vhci_ude/vhci_read.c:9-21 | in every run numbers follow the order of submission without a gap, so does the pending list, and no numbered request was submitted after one that still waits |
| UrbRuns.ReadsDrainTheQueue | driver/vhci_ude/vhci_read.c:72-130 | a parked read means that nothing waits; a read that finds work, before or after plug-out, leaves less of it |
| UrbRuns.UnsafeAbortCompletesTwice | driver/vhci_ude/vhci_plugout.c:38-45 | the unsafe abort completes the request, and the steps of its callback complete it again |
| UrbRuns.StaleReadCompletesTwice | driver/vhci_ude/vhci_read.c:78-122 | a read that goes on with an aborted request leads to its second completion, by the failed store, the response or the callback |
| UrbRuns.UnsafeAbortIsReachable | driver/vhci_ude/vhci_read.c:32-38 | a run of five steps leads to the unsafe abort |
| UrbRuns.StaleReadIsReachable | driver/vhci_ude/vhci_vusb.c:9-20 | a run of four steps leads to the unsafe read, which completes the request twice |
| UrbRuns.ReadSafeIff | driver/vhci_ude/vhci_read.c:78-83 | a read is right if and only if the partially sent request was not aborted |
| VusbDevice.VusbDev.SubmitUrbr | driver/vhci_ude/vhci_urbr.c:208-278 | keeps the invariant; a new request is queued behind all others, sent at once, or completed with the status of what it met |
| VusbDevice.VusbDev.SendDirectly | driver/vhci_ude/vhci_urbr.c:236-274 | a parked read takes the request at once |
| VusbDevice.VusbDev.GetPartialUrbr | driver/vhci_ude/vhci_read.c:23-40 | returns the partially sent request unless it is being cancelled, which it forgets |
| VusbDevice.VusbDev.ReadRequest | driver/vhci_ude/vhci_read.c:64-132 | the fields change as the read step says, and the invariant is kept if and only if the partially sent request was not aborted |
| VusbDevice.VusbDev.ReadPendingUrbr | driver/vhci_ude/vhci_read.c:87-130 | the head of the pending list gets the next number, or the read parks |
| VusbDevice.VusbDev.FindSentUrbr | driver/vhci_ude/vhci_urbr.c:70-89 | the scan takes off the only sent request with the number, and nothing if there is none |
| VusbDevice.VusbDev.AnswerUrbr | driver/vhci_ude/vhci_write.c:56-63 | keeps the invariant; the answered request is completed with the status given, or its cancel callback is due, never both |
| VusbDevice.VusbDev.UrbrCancelled | driver/vhci_ude/vhci_urbr.c:164-187 | keeps the invariant; the request is on no list, and it is completed at once exactly when no unlink is to be sent for it, on a plugged device exactly when it was pending |
| VusbDevice.VusbDev.SubmitUrbrUnlink | driver/vhci_ude/vhci_urbr.c:146-186 | keeps the invariant; an unlink for the number of the request is submitted and the request gets its one completion |
| VusbDevice.VusbDev.AbortAllPendingUrbrs | driver/vhci_ude/vhci_plugout.c:30-51 | the loop is the abort step repeated until the list is empty |
| VusbDevice.VusbDev.VusbPlugout | driver/vhci_ude/vhci_plugout.c:53-66 | no request stays queued; the invariant holds, so none was completed twice, if and only if no queued request had a cleared flag and its callback to come, and then each was completed as disconnected or left to its callback |
| VusbDevice.PlugoutDrains | driver/vhci_ude/vhci_plugout.c:30-51 | the loop of aborts leaves no request on `head_urbr` and keeps the invariant if and only if there was no such request |
| StubStream.SentLenIsMin | driver/stub/stub_res.c:128-163 | however header and data are split over reads, a read takes as much of the rest of the message as it has room for |
| StubStream.StepInv | driver/stub/stub_res.c:219-295 | every reply, read, send and cancelled read keeps the stream in order, with the read parked only when nothing is left to send |
| StubStream.StreamRefinesFifo | driver/stub/stub_res.c:239-295 | after any run of replies, reads, sends and cancelled reads, what was returned, then the unsent rest, then the queued replies are the replies made, in order, and no read mixed two |
| StubStream.ParksIffDrained | driver/stub/stub_res.c:261-280 | a read parks if and only if every byte replied was returned |
| StubStream.SendProgress | driver/stub/stub_res.c:123-172 | a read of positive length returns at least one byte and lowers the backlog by what it returns |
| StubStream.ReadsDrain | driver/stub/stub_res.c:261-280 | repeated reads of any positive lengths return every queued byte and then park |
| StubStream.StubDev.StoreIrpStubRes | driver/stub/stub_res.c:88-106 | copies the bytes that fit and changes no others |
| StubStream.StubDev.SendStubRes | driver/stub/stub_res.c:123-172 | keeps the stream in order; the read buffer gets the next stretch of the message and no other byte of it changes |
| StubStream.StubDev.SendIrpSres | driver/stub/stub_res.c:239-259 | the parked read is paired with the reply in progress, else with the oldest queued one |
| StubStream.StubDev.CollectDoneStubRes | driver/stub/stub_res.c:261-280 | keeps the stream in order; the read is parked exactly when there is nothing to send |
| StubStream.StubDev.ReplyStubReq | driver/stub/stub_res.c:282-295 | keeps the stream in order; a parked read gets the reply at once |
| PduCodec.HeaderRoundTrip | userspace/lib/usbip_forward.c:187-224 | swapping a header from network order and back, or the other way round, is the identity for every command value |
| PduCodec.MessageRoundTrip | userspace/lib/usbip_forward.c:507-536 | so it is for a whole message with any number of descriptors |
| PduCodec.HostRoundTrip | userspace/lib/usbip_forward.c:507-536 | and in the other direction |
| PduCodec.DriverEncodes | driver/lib/pdu.c:35-61 | the driver's header codec is the forwarder's host-to-network codec on every header |
| PduCodec.DriverDecodesIff | driver/lib/pdu.c:35-61 | it is the network-to-host codec if and only if the command is known in neither order or the variant's words read the same in both |
| PduCodec.SwapUsbipHeaderCmd | userspace/lib/usbip_forward.c:155-208 | in place, exactly the words of the command's variant are swapped |
| PduCodec.SwapUsbipHeaderEndian | userspace/lib/usbip_forward.c:145-224 | in place, the codec function |
| PduCodec.SwapIsoDescsEndian | userspace/lib/usbip_forward.c:226-240 | in place, every field of every descriptor, in the order of the code |
| PduCodec.SwapUsbipHeader | driver/lib/pdu.c:35-61 | in place, the driver's field order gives the forwarder's codec |
| PduCodec.SwapUsbipIsoDescs | driver/lib/pdu.c:63-79 | in place, the descriptors behind actual_length bytes of data |
| HdrsCache.HitIffNotEvicted | userspace/lib/usbip_forward.c:260-293 | the direction of a request is found if and only if no later request a multiple of 1024 behind it took its slot, wherever numbers wrap |
| HdrsCache.RecentFound | userspace/lib/usbip_forward.c:256-293 | each of the last 1024 requests is found |
| HdrsCache.Cache.Insert | userspace/lib/usbip_forward.c:270-277 | one slot takes the number and direction of the header |
| HdrsCache.Cache.Direction | userspace/lib/usbip_forward.c:279-293 | returns the cached direction, else the header's own, and restores it in the header |
| Framing.FramesOfConcat | userspace/lib/usbip_forward.c:495-547 | whole messages at the front of a stream are cut off exactly |
| Framing.RequestsNeedNoLook | userspace/lib/usbip_forward.c:295-304 | a stream of requests is cut by its own headers, whatever the cache holds |
| Framing.NetworkRoundTrip | userspace/lib/usbip_forward.c:507-536 | a receiver that decodes what leaves in network order gets the message back with its direction restored |
| Forwarder.GetXferLen | userspace/lib/usbip_forward.c:295-313 | the data length of a header, with the effect on header and cache |
| Forwarder.RecentReplyDirection | userspace/lib/usbip_forward.c:279-293 | a reply to one of the last 1024 requests gets its request's direction at every look |
| Forwarder.RequestEntersOnce | userspace/lib/usbip_forward.c:298-304 | looking at a request's header repeatedly enters it once |
| Forwarder.GetIsoLen | userspace/lib/usbip_forward.c:315-328 | the descriptor length of a header, kept in a signed 32-bit variable |
| Forwarder.Finish | userspace/lib/usbip_forward.c:527-536 | in place, the message leaves in the byte orders of the stream and no other byte of it changes |
| Forwarder.Devbuf.ReadDevbuf | userspace/lib/usbip_forward.c:429-457 | a read asks for exactly what the step waits for, behind the bytes already there; the buffer never moves under an outstanding read |
| Forwarder.Devbuf.ReadBuffer | userspace/lib/usbip_forward.c:495-547 | the three steps on one buffer; step 3 means one whole message and no read outstanding |
| Forwarder.Devbuf.ReadDev | userspace/lib/usbip_forward.c:495-547 | the chain stays in order, the last buffer keeps its array or gets a fresh one, a completed message enters the history, and the cache takes the header of a request |
| Forwarder.Devbuf.ReadCompletion | userspace/lib/usbip_forward.c:409-427 | the bytes of a read join the message in progress |
| Forwarder.Devbuf.WriteDevbuf | userspace/lib/usbip_forward.c:481-493 | only a complete message is written, and one write at a time |
| Forwarder.Devbuf.WriteCompletion | userspace/lib/usbip_forward.c:459-479 | the bytes the peer took are the next ones of the first buffer |
| Forwarder.Devbuf.DealWithBufpAndBufc | userspace/src/usbipd/usbipdThreadpool.c:200-219 | a buffer is freed only when fully written, and the chain still leads from the first to the last buffer |
| Forwarder.Devbuf.MessagesOfInput | userspace/lib/usbip_forward.c:495-547 | however the input was cut into reads, the completed messages are those it holds, each framed by its own header and the direction of the request it answers |
| Forwarder.Devbuf.SameInputSameMessages | userspace/lib/usbip_forward.c:495-547 | two runs over the same input complete the same messages with the same output: requests always, replies when they answer the same requests |
| Forwarder.Devbuf.LookFindsDirection | userspace/lib/usbip_forward.c:506-515 | every look at a header finds the direction of its message |
| Forwarder.Devbuf.WrittenInOrder | userspace/src/usbipd/usbipdThreadpool.c:200-219 | what was written is a prefix of the completed messages in order of arrival, and all of it once the buffers are written |
| WireForm.LeavesInNetworkOrder | userspace/lib/usbip_forward.c:527-536 | word by word: the five words of the base, those of the union its command uses and the four of every descriptor leave reversed, with the direction of the request; all other bytes as they are |
| WireForm.LeavesInHostOrder | userspace/lib/usbip_forward.c:506-525 | what arrived in network order leaves as the message whose network form it is, with its direction |
| WireForm.AsksInHostOrder | userspace/lib/usbip_forward.c:537-543 | a request that leaves in host order is seen to ask for data by its first setup byte; one that leaves in network order never is |
| ClientRequests.RequestFramedIff | userspace/lib/usbip_forward.c:295-328 | a request is one message if and only if it has the length of its fields: the header, the transfer length if it goes OUT, 16 bytes a packet; an unlink its header alone |
| ClientRequests.RequestsFramedIff | userspace/lib/usbip_forward.c:495-547 | a stream of requests is framed if and only if each has the length of its fields |
| ClientRequests.SetCmdSubmitUsbipHeader | driver/vhci_ude/vhci_proto.c:23-36 | in place, the ten words of a submit, the setup bytes untouched |
| ClientRequests.SetCmdUnlinkUsbipHeader | driver/vhci_ude/vhci_proto.c:39-47 | in place, the six words of an unlink |
| ClientRequests.StoreUrbrControlTransfer | driver/vhci_ude/vhci_urbr_store_control.c:60-95 | the header with its setup packet and, if there is room, the data of an OUT transfer; else it is left to the next read |
| ClientRequests.StoreUrbrVendorClass | driver/vhci_ude/vhci_urbr_store_vendor.c:33-103 | the same, but an IN request returns no bytes |
| ClientRequests.StoreUrbrBulk | driver/vhci_ude/vhci_urbr_store_bulk.c:28-67 | the same, but data that fits is copied and not counted |
| ClientRequests.StoreUrbrIso | driver/vhci_ude/vhci_urbr_store_iso.c:77-110 | the header with its packet count and, if there is room, data and descriptors |
| ClientRequests.StoreUrbrPartial | driver/vhci_ude/vhci_urbr_store.c:43-90 | the payload alone, if the read has room for it |
| ClientRequests.ClientFramedIff | userspace/lib/usbip_forward.c:295-328 | what starts with the header of a client's request is one message if and only if it has its whole payload, which is what the forwarder asks for behind the header |
| ClientRequests.ServerGetsMessage | userspace/lib/usbip_forward.c:507-536 | the server's forwarder frames the message that left the client's and has it back in host order |
| ClientRequests.ReadMessage | driver/vhci_ude/vhci_urbr_store.c:43-188 | the one or two reads of a request return its whole message, and one that the forwarder frames, if and only if it is not an IN vendor or class request or bulk OUT data that fits the first read |
| ClientRequests.LostRequests | driver/vhci_ude/vhci_urbr_store_bulk.c:53-60 | one byte of bulk data is lost in a read with room for it, and not without; an IN class request in every read |
| Delivery.CompletedAreFirst | userspace/lib/usbip_forward.c:495-547 | when a stream of whole messages is read, the messages completed are its first ones and the bytes behind them the front of the rest |
| Delivery.HeaderIsNext | userspace/lib/usbip_forward.c:506-525 | a complete header is that of the stream's next message, so its lengths are proper |
| Delivery.WorkIsNat | userspace/lib/usbip_forward.c:409-547 | what is left to do on a stream is never negative |
| Delivery.Line.EndRead | userspace/lib/usbip_forward.c:409-427 | the end of a read that moved bytes leaves less to do |
| Delivery.Line.StartWrite | userspace/lib/usbip_forward.c:481-493 | so does the start of a write |
| Delivery.Line.EndWrite | userspace/lib/usbip_forward.c:459-479 | so does the end of one that moved bytes |
| Delivery.Line.Turn | userspace/src/usbipd/usbipdThreadpool.c:200-219 | so does a turn of the third thread that frees or appends a buffer |
| Delivery.Line.Look | userspace/lib/usbip_forward.c:495-547 | so does a look that starts a read or completes a message; the headers looked at and the cache grow by this one |
| Delivery.Line.FirstOfStream | userspace/lib/usbip_forward.c:409-547 | at any time the messages completed are the first of the stream, each as it has to leave, and what was written is the front of these |
| Delivery.Line.UselessMeansDelivered | userspace/src/usbipd/usbipdThreadpool.c:200-219 | when no step is useful any more, every message of the stream was written to the peer |
| StubReplies.ErrReplyFramed | driver/stub/stub_res.c:297-311 | replies without data are framed right for every direction |
| StubReplies.DataReplyFramedIff | driver/stub/stub_res.c:313-321 | a control reply with data is framed right if and only if the request's direction is IN or it has no data |
| StubReplies.BulkReplyFramed | driver/stub/stub_usbd.c:410-458 | bulk and interrupt replies, short or failed, in both directions, are framed right |
| StubReplies.IsoInReplyFramedIff | driver/stub/stub_usbd.c:485-532 | a reply to a transfer submitted as isochronous IN, for a request of either direction, is framed right if and only if it succeeded with data that the direction lets through, or failed with a length that its header accounts for |
| StubReplies.IsoOutReplyFramedIff | driver/stub/stub_usbd.c:485-532 | a reply to an isochronous OUT transfer is framed right if and only if it succeeded, or as many bytes were sent as its descriptors have |
| StubReplies.ReplyContents | driver/stub/stub_usbd.c:410-532 | on every path the reply says how the transfer ended and how many bytes it moved, and its data is what the device wrote: the first bytes of a bulk buffer, an isochronous payload with the descriptors behind it |
| StubReplies.DoneIsoIn | driver/stub/stub_usbd.c:485-532 | the payload of a successful isochronous IN reply is the packets' bytes packed, with the results entered in the descriptors behind it |
| StubReplies.ReplyHandedOn | userspace/lib/usbip_forward.c:527-536 | a well framed reply leaves with its fields and descriptors in network order, the direction of its request, and its data unchanged |
| StubReplies.OutgoingReply | userspace/lib/usbip_forward.c:506-536 | so does the reply to each request of a connection, with that request's direction |
| Connection.DirectionFound | userspace/lib/usbip_forward.c:256-258 | among fewer than 2^32 consecutively numbered requests a number names one request and its direction |
| Connection.LookEnters | userspace/lib/usbip_forward.c:295-304 | the first look at a request enters it in the cache, later looks change nothing |
| Connection.FirstLookIff | userspace/lib/usbip_forward.c:279-293 | the first look at a reply finds its request's direction if and only if no later request took the slot or the header itself has it right |
| Connection.LaterLook | userspace/lib/usbip_forward.c:284-292 | a later look finds it however many requests were entered in between |
| Connection.LateReply | userspace/lib/usbip_forward.c:279-293 | a reply that comes too late: the first of 1025 IN requests |
| Connection.RecentIsTimely | userspace/lib/usbip_forward.c:256-258 | a reply to one of the last 1024 requests is never too late |
| Connection.CacheAgrees | userspace/lib/usbip_forward.c:279-311 | the cache, filled by the requests looked at so far, gives a reply that was in time at its first look the direction of its request, at every look |
| Connection.Relay.ReadRequest | userspace/src/usbipd/usbipdThreadpool.c:251-267 | a step of the reader of requests keeps the connection in order: both chains, their separation, the cache that holds exactly the requests looked at |
| Connection.Relay.ReadReply | userspace/src/usbipd/usbipdThreadpool.c:251-267 | so does a step of the reader of replies, which reads and restores directions from the cache as the requests have left it |
| Connection.Relay.Step | userspace/src/usbipd/usbipdThreadpool.c:200-267 | so does any step of any thread of either side; a useful one leaves less to do |
| Connection.Relay.Run | userspace/src/usbipd/usbipdThreadpool.c:200-267 | so does every interleaving of such steps, and the useful ones are bounded by what there was to do and the reads and writes that moved nothing |
| Connection.Relay.AllDelivered | userspace/src/usbipd/usbipdThreadpool.c:200-267 | when no step is useful any more and no reply came too late, every message of both sides was completed and written to its peer, each reply framed by its request's direction |
| StubReplies.ReplyProperIff | driver/stub/stub_res.c:39-87 | on every path of a submitted request the reply carries the request's number, and it is framed right for the request's direction if and only if header and data agree on that path |
| StubReplies.UnlinkReplyProper | driver/stub/stub_res.c:297-311 | replies to unlink requests are always framed right, with the number and status given |
| StubReplies.OutReplyIsTimely | driver/stub/stub_res.c:64-68 | a reply to an OUT request gets its direction even when the cache has forgotten the request |
| StubReplies.Connect | userspace/src/usbipd/usbipdThreadpool.c:200-267 | any run over requests and the stub's replies to them is a run of a connection in order |
| StubReplies.RepliesCut | userspace/lib/usbip_forward.c:495-547 | in any state of a connection the stream of such replies is cut into exactly these replies, each handed on in network order with the direction of its request |
| StubReplies.RepliesRecovered | driver/stub/stub_res.c:39-87 | composed with any run of the stub's stream, in any state of the connection the forwarder has recovered the first of the replies made, in order, and hands them on in network order with the directions of their requests; all of them once it has read everything replied |
| RemovalLock.StepInv | driver/stub/stub_dev.c:24-61 | every step of every thread keeps the count equal to the bias, the remover's reference and the threads inside |
| RemovalLock.AloneAfterWait | driver/stub/stub_dev.c:54-61 | once the remover is past its wait no thread holds the lock, and none ever will |
| RemovalLock.FirstReleaseNeverLast | driver/stub/stub_dev.c:58-59 | the remover's first release never reaches zero |
| RemovalLock.EventWhenEmpty | driver/stub/stub_dev.c:32-52 | with the bias and all threads gone the event is set, and it is not set while there is a bias or a holder |
| RemovalLock.RemovalCompletes | driver/stub/stub_dev.c:54-61 | with removal pending a run is bounded by what the threads inside have left to do and four steps for each thread that enters; when none inside can move the remover is through |
| RemovalLock.DevRemovalLock.LockDevRemoval | driver/stub/stub_dev.c:32-44 | whatever other threads do between its actions: a thread that gets the lock holds it and the event is not set; one that does not has given everything back and removal is pending |
| RemovalLock.DevRemovalLock.UnlockDevRemoval | driver/stub/stub_dev.c:46-52 | whatever other threads do: the thread is gone, and if it was the last the event is set |
| RemovalLock.DevRemovalLock.UnlockWaitDevRemoval | driver/stub/stub_dev.c:54-61 | whatever other threads do between its actions: when the wait is over nobody holds the lock; else the event is not set yet |
| VirtualHub.ReportContents | driver/vhci/vhci_pnp_relations.c:135-158 | the report holds exactly the plugged devices and the old entries the hub does not manage |
| VirtualHub.ReportDistinct | driver/vhci/vhci_pnp_relations.c:148-158 | no device is reported twice |
| VirtualHub.ReferencesBalance | driver/vhci/vhci_pnp_relations.c:135-158 | references released and taken are exactly those of the entries dropped and added |
| VirtualHub.Vhub.CounterCoversList | driver/vhci/vhci_vhub.c:53-77 | in every run the plugged counter is at least the number of plugged devices in the list |
| VirtualHub.Vhub.CounterGap | driver/vhci/vhci_vhub.c:66-77 | the difference is the number of devices detached while plugged |
| VirtualHub.Vhub.GetEmptyPort | driver/vhci/vhci_vhub.c:36-51 | the least free port below the port count cut to a signed byte, or -1 if and only if there is none |
| VirtualHub.Vhub.AttachVpdo | driver/vhci/vhci_vhub.c:53-64 | the device joins the list and both counters follow |
| VirtualHub.Vhub.DetachVpdo | driver/vhci/vhci_vhub.c:66-77 | the device leaves the list; the plugged counter does not change |
| VirtualHub.Vhub.MarkUnpluggedVpdo | driver/vhci/vhci_vhub.c:142-157 | a plugged device is counted down once |
| VirtualHub.Vhub.MarkUnpluggedAllVpdos | driver/vhci/vhci_vhub.c:167-180 | every device of the list is unplugged, no other changes |
| VirtualHub.Vhub.FindManagedVpdo | driver/vhci/vhci_pnp_relations.c:84-96 | the first device of the list with the object |
| VirtualHub.Vhub.IsInDevRelations | driver/vhci/vhci_pnp_relations.c:98-109 | whether the object is among the first entries |
| VirtualHub.Vhub.GetBusRelations | driver/vhci/vhci_pnp_relations.c:111-171 | the array sized by the plugged counter holds the report, with the references released and taken |

## Left out

- Kernel, framework, USB stack and socket calls are reduced to their effect: a read returns some of the bytes asked for, an unmark fails if and only if cancellation has begun, a transfer reports lengths and statuses. Allocation never fails.
- IsoTransfer.IsoInTransfer: at least one packet, first offset 0, last offset within the buffer, no 32-bit overflow, and a device that fills at most each packet's announced length; status translations are parameters, as their tables are not part of this model.
- IsoTransfer.DoneIsoTransfer: the IN path; the payload of an OUT reply appears only by its length in StubReplies.
- UrbRuns.ExactlyOnePlace: the windows in which submit and read release the lock to store a request are one step with it, marking succeeds after a direct store, one read is outstanding, numbers stay below 2^32, and a request's record outlives its callback. A read or write whose lookup fails takes no step.
- StubStream.StreamRefinesFifo: one read is outstanding, and a cancellation that hits a read already paired with a reply is not modelled.
- Forwarder.Devbuf.ReadDev: data lengths and packet counts in headers are not negative, packets are fewer than 2^27, so that their descriptors' length fits 32 bits, and a whole message is shorter than 2^32 bytes, as its length is summed in 32 bits; each method is one step of its thread, a failed write leaves no bytes behind, and the flag for a write in progress, which the code keeps in the peer, is kept with the buffers it concerns.
- Connection.Relay.ReadReply: a first look at a reply that came too late is not taken, as it would lose the message boundaries; the client numbers its requests consecutively and makes at most 2^32 of them, so none is left out because its store failed.
- Connection.Relay.Run: the events that wake waiting threads, and the end of a connection after an error, are not modelled: a run may go on where the code stops, and nothing is said about when a thread gets its turn.
- StubReplies.IsoOutReply: assumes that the allocation of a successful reply has room for its descriptors, that is 16 bytes a packet are no more than the bytes sent.
- VirtualHub.ReportContents: device objects are distinct, and a device is attached once.
- GetoptScan.ParseAll: characters are abstracted to non-options, `--` and options that take nothing or the next argument; matching of names, `-W`, in-order mode and POSIXLY_CORRECT are not modelled.
- The WDM twin of the request queue (driver/vhci/usbreq.c and its readers and writers) has the same design as the UDE driver.
- The UDE driver's port table, endpoint lookup, and the serial-string request that completes without transmission.
- Several clients that share one device through the consumer threads, and `usbip_forward`, whose buffers are never set up.
- ClientRequests.StoreUrbr: setup packets are given, as building them for descriptor, status, configuration, interface and pipe requests is not modelled, and so are translated flags; an isochronous transfer has packets, lengths are below 2^31, and a transfer buffer is there.
- Fetching of control, bulk and descriptor responses, status tables, names, power, WMI, installation and the command-line programs: translation tables, formatting and I/O.
