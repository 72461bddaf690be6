# A verified model of the XMM7360 link stack

This project models how a host talks to an Intel XMM7360 modem, from the shared-memory rings up to the RPC messages,
and proves that the layers do what they are for. The driver is `xmm7360.c`; `rpc/` holds its userspace companions and
`trace/` the reader of the modem's trace stream.

`dafny verify dfyconfig.toml` checks everything.

## The parts

- **Rings** (`Cyclic`, `RingMemory`, `RxRing`, `RxFill`, `TxRing`, `TdRing`, `QueuePair`). Host and modem share a ring
  of transfer descriptors and exchange only masked one-byte indices. `RxRing` and `TxRing` are machines whose steps are
  single accesses to shared memory, down to the bytes of a page, with one exception: the stores into one descriptor are
  a single step, because the modem neither reads nor writes a descriptor before the write pointer has passed it. The
  modem may scribble over everything it owns, at any point. Behind the masked indices stand the lengths of history
  sequences, and every equality test the driver makes is justified by a bound on how far two of them can be apart.
  `RxFill` is the loop that fills the receive ring, with a modem that does not wait for its end. `TdRing` and
  `QueuePair` are the driver's own routines on heap arrays: `QueuePair.Poll` and `QueuePair.Write` run with the modem
  interfering between their steps, and `QueuePair.QpStart` leaves exactly the states the two machines start from.
- **Mux frames** (`MuxChain`, `MuxFrame`, `MuxDecode`, `WireBytes`, `PyMux`). `MuxChain` says what a well-formed chain of tagged
  sections is. `MuxFrame.FrameBuilder` is the C builder of both the kernel and `rpc/mux.c`: one buffer, patched in
  place through saved positions (`wide` tells the 32-bit `next` field of userspace from the kernel's 16 bits).
  `PyMux` is the second implementation, on Python byte strings. `MuxDecode` and `PyMux` hold the three readers.
  `WireBytes` spells the frames out byte by byte.
- **Uplink** (`NetUplink`, `NetDevice`, `TunMux`). The admission test, the queue, the deadline and the later build, as a
  machine over whole runs and as a device class that builds real frames and writes them to its queue pair. `TunMux` is
  the coalescer of `rpc/mux.c`, again as a machine and as a class.
- **RPC** (`RpcCodec`, `RpcPack`, `RpcBytes`, `RpcMessages`, `RpcSession`). The codec as specification functions, what
  these mean byte by byte, the Python routines popping from byte arrays, the message envelope, and the pump loop over the
  incoming messages.
- **Trace** (`TraceDeframer`). The incremental reader, against splitting the whole stream at once.

## What the code turned out to do

- The receive ring is a queue on all runs exactly if the modem completes nothing while `qp_start` fills it. With k
  completions during the fill, some later run fails exactly if k is not a multiple of the depth (`RxFill.FillRace`): an
  undisturbed poll then reaches the BUG_ON, or first reads past a page if the modem has put a longer length there. If k
  is a multiple of the depth, nothing ever fails, but those k buffers are lost (`RxFill.WholeTurnsAreLost`). Every k can
  happen (`RxFill.FillRaceHappens`).
- While a repost awaits the advance of `last_handled`, `has_data` misses a completely full ring (`RxRing.HasDataMeans`),
  and there are runs into that state (`RxRing.FullRingMissed`); a single reader never asks at that moment.
- `net_flush` takes a push of 0 bytes for success, so a deadline that finds the ring full discards its frame and resets
  the counters (`NetUplink.DiscardedOnlyByDeadline`). After every opening without error there is a run in which any given
  packet is lost like this (`NetUplink.DeadlineDiscards`).
- Admission implies a successful build for every queue exactly because the maximum size is a multiple of 4
  (`NetUplink.AlignmentAbsorbed`).
- The encoder writes long lengths most significant byte first and the decoder reads them least significant byte first;
  a string is read back exactly if its element count is below 128 or its bytes read the same both ways, and the decoder
  raises AssertionError otherwise (`RpcPack.CodecRoundTrip`): 257 bytes come back, 258 do not (`RpcPack.StringMisread`).
- `read_mux` reads at most 8192 bytes, while frames can have 16384: it agrees with the C readers exactly up to 8192
  (`PyMux.ReadMuxAgrees`). Six packets of 1500 bytes are enough for a longer one (`PyMux.LongFrameMisread`).
- An ADTH section shorter than its own header makes the C readers' packet count negative, not huge
  (`MuxDecode.CountEntriesMeans`). The kernel's receiver would deliver nothing of an uplink frame
  (`MuxDecode.UplinkNotDelivered`).
- A failed `qp_start` leaves the pair open; only a stop makes another start possible (`QueuePairs.FailedStartSticks`).
- An escape at the end of a packet ends the trace reader, at the same packet however the stream is cut
  (`TraceDeframer.Reader.ReadAll`).
- The OR in `unescape` undoes stuffing exactly where the escaped byte had bit 5 set
  (`TraceDeframer.UnescapeStuffed`). On the line an escaped 0x5e is worse: it turns into a flag behind an escape, which
  ends the reader (`TraceDeframer.BrokenEnds`).

## Assumptions

One reader and one writer per queue pair; a modem that completes only posted descriptors, in order, with at most a page
each, and, except in `RxFill`, none during the fill; a power-of-two ring depth, which the constructor insists on; allocations succeed;
`xmm->error` is 0 or negative. `net_open`, `net_xmit` and the deadline run one at a time, with the modem running beside
them. x86 byte order. C `int` counters are unbounded here, stores into 16- and 32-bit fields truncate.

## Model

| member | source | states |
|---|---|---|
| `Cyclic.MaskIsModulo` | `xmm7360.c:416-418` | the constructor's power-of-two BUG_ON accepts exactly the depths for which masking with depth - 1 is reduction modulo depth |
| `Cyclic.AdvanceSlot` | `xmm7360.c:521-521` | the masked increment moves a buffer's place to the place of the next buffer, counting without wrap-around |
| `Cyclic.DistanceIs` | `xmm7360.c:497-498` | two masked indices determine the true distance, as long as that is below the depth |
| `Cyclic.SlotsDiffer` | `xmm7360.c:638-638` | an equality test on masked indices is exact as long as the true indices are less than depth apart |
| `RingMemory.NotOwned` | `xmm7360.c:641-656` | a page behind the read pointer that was not yet reposted never lies in the masked range the modem owns |
| `RingMemory.OwnedIs` | `xmm7360.c:521-524` | every posted and not yet completed descriptor lies in the masked range the modem owns |
| `RxRing.CheckingKeepsInv` | `xmm7360.c:521-522` | the BUG_ON of td_ring_read cannot fire in any reachable state, although the modem moves between its test, the publication and the advance of last_handled |
| `RxRing.HostKeepsInv` | `xmm7360.c:646-655` | every single access of the polling loop keeps the ring invariant |
| `RxRing.DeviceKeepsInv` | `xmm7360.c:634-656` | so does everything the modem may do to what it owns: overwrite bytes, overwrite descriptors, complete the next one |
| `RxRing.RunKeepsInv` | `xmm7360.c:641-656` | the invariant holds after every interleaving of host and modem steps |
| `RxRing.RxRefinesFifo` | `xmm7360.c:501-525` | over every interleaving from a filled ring no BUG_ON fires, the host consumes a prefix of what was completed, the partial copy is a prefix of the right buffer, neither the page being read nor the one being reposted is the modem's while all posted ones are, the descriptor about to be handed over offers the whole page, and an idle host sees data exactly if something is unconsumed |
| `RxRing.HasDataMeans` | `xmm7360.c:634-639` | has_data is exact in every reachable state, except that it misses a completely full ring in the window before last_handled advances |
| `RxRing.FullRingMissed` | `xmm7360.c:634-639` | with two or more descriptors, some run from a filled ring reaches that full ring, and has_data denies it |
| `RxFill.FillKeepsInv` | `xmm7360.c:566-567` | the BUG_ON cannot fire inside the fill loop itself, however many descriptors the modem completes meanwhile |
| `RxFill.FillRace` | `xmm7360.c:566-568` | for every fill disturbed by k completions: some later run fails exactly if k is not a multiple of depth, and then an undisturbed poll does; the ring is a queue on all later runs exactly if k is 0 |
| `RxFill.WholeTurnsAreLost` | `xmm7360.c:566-568` | after a multiple of depth completions no run fails, and what the host consumes is a prefix of what was completed after the fill |
| `RxFill.FillRaceHappens` | `xmm7360.c:566-567` | for every k there is a fill with exactly k completions |
| `TxRing.FullMeans` | `xmm7360.c:493-499` | the masked full test holds exactly when depth - 1 buffers are posted and not taken |
| `TxRing.CheckingKeepsInv` | `xmm7360.c:487-488` | the BUG_ON of td_ring_write cannot fire in any reachable state |
| `TxRing.NextKeepsInv` | `xmm7360.c:472-491` | every access of qp_write, every fetch and completion of the modem and every error keep the ring invariant |
| `TxRing.TxRefinesFifo` | `xmm7360.c:472-499` | over every interleaving from an open ring no BUG_ON fires, the modem takes the accepted buffers in order and byte for byte, all posted slots are the modem's, the slot a write works on is not, and the descriptor about to be handed over has the buffer's length and no flags |
| `TxRing.RoomStays` | `xmm7360.c:596-600` | room once seen remains while only the modem acts |
| `TxRing.CheckedWriteAccepted` | `xmm7360.c:596-616` | with error 0, a non-full check, any modem activity and a write: the buffer, cut to a page, is accepted behind the earlier ones whatever happens next, and in full if it fits a page |
| `TxRing.WriteOutcome` | `xmm7360.c:602-616` | qp_write with the modem between any two of its steps is a run of the machine, ends, keeps the invariant, and has exactly three outcomes: the error, 0 on a full ring, or the buffer cut to a page behind the accepted ones |
| `TdRing.AllocPages` | `xmm7360.c:430-435` | the constructor's loop allocates as many new distinct pages as asked |
| `TdRing.FreePages` | `xmm7360.c:458-461` | the destructor's loop frees exactly the ring's pages, each while it is live |
| `TdRing.HostRing.Create` | `xmm7360.c:409-443` | whatever the ring-open command returns, the ring has its depth, its pages, and all indices 0; depth 0 passes the check too |
| `TdRing.HostRing.Destroy` | `xmm7360.c:445-470` | a ring gives back all its pages and becomes empty; an empty one is left alone |
| `QueuePairs.QueuePair.RingWrite` | `xmm7360.c:472-491` | td_ring_write on the heap, with the modem running between any two accesses: the ring ends as the machine says, and the BUG_ON never fires |
| `TdRing.HostRing.Full` | `xmm7360.c:493-499` | the masked test decides whether the distance from read to write pointer is depth - 1, that is, whether the modem owns all descriptors but one |
| `TdRing.HostRing.Read` | `xmm7360.c:501-525` | what td_ring_read does to descriptor and write pointer, on the heap; an empty ring is left alone |
| `QueuePairs.ClosedMeansEmpty` | `xmm7360.c:543-594` | after every sequence of starts and stops, however openings failed, a closed pair has two rings of depth 0 |
| `QueuePairs.FailedStartSticks` | `xmm7360.c:550-569` | an open pair refuses every start with EBUSY, also after a failed one, until it is stopped |
| `QueuePairs.QueuePair.LivePages` | `xmm7360.c:430-435` | the live pages are as many as the depths of the two rings |
| `QueuePairs.QueuePair.Fill` | `xmm7360.c:566-567` | the fill loop ends, never meets the BUG_ON, and posts depth - 1 descriptors, each offering a whole page |
| `QueuePairs.QueuePair.QpStart` | `xmm7360.c:543-575` | all four outcomes with their return values, flag and depths; no ring is created that has a depth; success leaves the states from which both ring machines start |
| `QueuePairs.QueuePair.QpStop` | `xmm7360.c:577-594` | both rings end empty, every page is given back and 0 is returned, or ENODEV and nothing changes |
| `QueuePairs.QueuePair.Perform` | `xmm7360.c:543-594` | any sequence of these calls keeps page accounting exact and follows the lifecycle function |
| `QueuePairs.QueuePair.Write` | `xmm7360.c:602-616` | qp_write, disturbed at any point, has exactly the effect the transmit machine gives it; it returns the error, 0 when the modem owns all descriptors but one, or the size cut to a page, and then exactly these bytes were accepted |
| `QueuePairs.QueuePair.ModemActs` | `xmm7360.c:634-639` | one act of the modem on the heap is the step of the receive machine |
| `QueuePairs.QueuePair.CopyPage` | `xmm7360.c:647-650` | the copied bytes are the completed buffer although the modem runs between any two of them |
| `QueuePairs.QueuePair.RepostPublish` | `xmm7360.c:517-524` | what is published is a descriptor that offers the whole page |
| `QueuePairs.QueuePair.Acknowledge` | `xmm7360.c:652-654` | reposting before last_handled advances keeps the invariant, with the modem running between all of its accesses |
| `QueuePairs.QueuePair.Poll` | `xmm7360.c:641-656` | the polling loop ends and delivers, in order and once each, all buffers completed before and during it; then read pointer and last_handled stand at their number modulo depth, and depth - 1 descriptors are posted again |
| `MuxChain.ChainExtend` | `xmm7360.c:787-816` | patching the last next field, filling up to alignment with anything and appending a header and data makes a chain with one more section at a 4-aligned offset |
| `MuxChain.ChainGrow` | `xmm7360.c:829-831` | bumping the last length field in place and appending data makes the same chain with a longer last section |
| `MuxChain.ChainSetTotal` | `xmm7360.c:869-871` | writing the total into the first header changes nothing else of the chain |
| `MuxChain.ChainFollowed` | `rpc/mux.py:28-36` | following next fields from any section visits exactly the remaining sections and ends at a zero pointer |
| `MuxFrame.NarrowNext` | `xmm7360.c:787-788` | storing a 16-bit next over the kernel's zeroed field and pad gives the same bytes as userspace's 32-bit store |
| `MuxFrame.FrameBuilder.Init` | `xmm7360.c:761-770` | the empty frame |
| `MuxFrame.FrameBuilder.AddTag` | `xmm7360.c:772-819` | succeeds exactly if the section fits behind the alignment, and then extends the chain by exactly this section; a failure keeps the alignment bytes and writes nothing |
| `MuxFrame.FrameBuilder.AppendData` | `xmm7360.c:821-834` | succeeds exactly if the data fits, and then lengthens the last section by exactly this data |
| `MuxFrame.FrameBuilder.AppendPacket` | `xmm7360.c:836-865` | all or nothing, with its exact condition; on success the body gains 16 zero bytes and the packet and the table its bounds |
| `MuxFrame.FrameBuilder.AppendAdth` | `rpc/mux.c:168-178` | succeeds exactly if the whole frame fits, and always when the maximum is a multiple of 4 and the unaligned trailer fits |
| `MuxFrame.FrameBuilder.Complete` | `rpc/mux.c:180-185` | the finished bytes are the chain with the total length in the first header |
| `WireBytes.FrameBytes` | `xmm7360.c:772-877` | every byte of an uplink frame outside the alignment gap, as numbers: both headers with their fields, each packet behind 16 zero bytes, and the table of offsets and lengths |
| `WireBytes.ControlBytes` | `xmm7360.c:879-902` | the 44 bytes of the control message |
| `MuxDecode.CountEntriesMeans` | `xmm7360.c:1048-1049` | the number of table entries for every ADTH length, including the wrap-around below 16 |
| `MuxDecode.BodySlice` | `xmm7360.c:854-863` | each packet's region lies where the bytes before it end, as 16 zero bytes and the packet |
| `MuxDecode.FrameLayout` | `xmm7360.c:936-966` | the fields of a finished frame: total length in the first header, next at the 4-aligned ADTH section, its length, the body and the table |
| `MuxDecode.FrameRoundTrip` | `xmm7360.c:1032-1063` | the arithmetic of both C readers recovers exactly the regions of the packets, in order, from the frame and anything behind it in the page |
| `MuxDecode.UplinkNotDelivered` | `xmm7360.c:1067-1075` | the kernel's version check would drop every region of an uplink frame |
| `MuxDecode.PageRegions` | `xmm7360.c:1032-1063` | on every page whose table lists regions, wherever they lie, the arithmetic of both C readers finds exactly these |
| `MuxDecode.IpDelivered` | `xmm7360.c:1067-1084` | regions whose first byte says IPv4 or IPv6 are delivered in order without the empty ones, up to the first region that says something else |
| `MuxDecode.HandleFrame` | `xmm7360.c:1022-1085` | both together on the receiving loop; and on any page at all it reads outside the page exactly if a region lies there and nothing stops it before |
| `PyMux.MuxPacket.AppendTag` | `rpc/mux.py:22-38` | for a tag of any length: fails exactly beyond the field widths, and otherwise every byte of the packet afterwards; a tag of four bytes, as all in the source, extends the chain |
| `PyMux.MuxPacket.AppendNext` | `rpc/mux.py:28-38` | every byte of the packet afterwards, also after a failure: padding and a pointer to the missing section |
| `PyMux.MuxPacket.GetPacket` | `rpc/mux.py:16-20` | the total length goes over the first header's length and extra fields and nothing else changes; without tags the result is four zero bytes |
| `PyMux.MuxPacket.Assemble` | `rpc/mux.py:16-38` | any sequence of append_tag and a final get_packet fails exactly beyond the field widths; otherwise whoever follows the next fields from offset 0 meets exactly these tags with their extra fields at strictly increasing 4-aligned offsets, each later length field delimits its data, the first equals the packet size, and the sequence number is in its place |
| `PyMux.XMMMux.Package` | `rpc/mux.py:42-50` | the frame for one packet is a kernel frame for it (below 64 KiB), with zeros in the gap, and at any size a walk meets its two sections; it fails exactly for packets over the field width |
| `PyMux.FramesAgree` | `rpc/mux.py:42-50` | two frames for the same packets and sequence number, such as the kernel's and the one of package, agree on every byte outside the alignment gap |
| `PyMux.ReadMux` | `rpc/mux.py:90-105` | the tail-consuming loop computes the regions of what one read delivered |
| `PyMux.ReadMuxAgrees` | `rpc/mux.py:90-105` | on a kernel-built frame it recovers the same regions as the kernel's count exactly if the frame has at most 8192 bytes |
| `PyMux.PageReadMux` | `rpc/mux.py:90-105` | on any page one read can hold, with the table at its end, it finds the regions the table lists |
| `PyMux.LongFrameMisread` | `rpc/mux.py:91-92` | six packets of 1500 bytes pass the admission test and build, and the Python reader misreads their frame |
| `NetUplink.BuildsIff` | `xmm7360.c:936-963` | the later build of a queue succeeds exactly if the queue passes the size formula and the packet limit of the admission test |
| `NetUplink.AlignmentAbsorbed` | `xmm7360.c:921-934` | it does so for every admitted queue exactly if the maximum size is a multiple of 4 |
| `NetUplink.OpenedInv` | `xmm7360.c:904-913` | opening establishes the uplink invariant |
| `NetUplink.OpenedMeans` | `xmm7360.c:904-913` | what opening leaves, and exactly when the control message was accepted |
| `NetUplink.QueuedKeepsInv` | `xmm7360.c:1008-1010` | queueing an admitted packet keeps the queue buildable and the counters an upper bound |
| `NetUplink.FlushBatch` | `xmm7360.c:936-974` | a flush of an admitted queue always builds, and makes one batch of the whole queue |
| `NetUplink.FlushShips` | `xmm7360.c:936-974` | a flush turns the whole queue into one batch with the next number; its fate by error and fullness of the ring, what the ring accepted, and the counters |
| `NetUplink.FlushKeepsInv` | `xmm7360.c:936-974` | a flush keeps the invariant in all its outcomes, including the drop that leaves the counters stale |
| `NetUplink.NextKeepsInv` | `xmm7360.c:976-1020` | so does every xmit, deadline, wake-up, modem activity and error |
| `NetUplink.UplinkConserves` | `xmm7360.c:904-1020` | over every run since opening, with the modem also running during every write: counters bound the queue, every queue builds, the accepted packets are in order the batches and then the queue, the ring received exactly the shipped batches' frames in order, what the modem took is a prefix of that, the frames are numbered consecutively, and each is read back as its batch |
| `NetUplink.SentAnswers` | `xmm7360.c:986-1020` | net_xmit answers true exactly if the queue is not stopped and the packet passes the size formula or the ring has room; then it is the last packet accepted and queued, otherwise nothing changes but the stop |
| `NetUplink.SentFlushes` | `xmm7360.c:995-1010` | where it has to make room, the queue becomes one batch and the packet starts the next queue |
| `NetUplink.XmitShips` | `xmm7360.c:997-1006` | without error, whatever xmit flushes is shipped, although the modem runs between its check and its write, and it flushes exactly a queue that the packet does not fit behind |
| `NetUplink.DiscardedOnlyByDeadline` | `xmm7360.c:964-974` | without error, a frame is discarded exactly by a deadline that finds the ring full |
| `NetUplink.DeadlineDiscards` | `xmm7360.c:964-974` | after every opening without error there is a run in which a given packet ends in a frame discarded by a deadline |
| `NetUplink.LongPacketLost` | `xmm7360.c:949-953` | a packet is lost in building exactly if it exceeds the maximum size less 56 |
| `NetDevice.XmmNet.Open` | `xmm7360.c:879-913` | net_open with its control message: empty queue and counters, the control frame on the ring unless an error or a full ring stands in the way, and the result |
| `NetDevice.XmmNet.Load` | `xmm7360.c:949-953` | the dequeueing loop takes exactly the packets the machine says, and what stays queued |
| `NetDevice.XmmNet.Flush` | `xmm7360.c:936-974` | net_flush on the real frame buffer and the real ring: nothing for an empty queue, otherwise one batch of the whole queue with its fate, and a frame for exactly the queue |
| `NetDevice.XmmNet.MustFlush` | `xmm7360.c:921-934` | the admission test |
| `NetDevice.XmmNet.Xmit` | `xmm7360.c:986-1020` | net_xmit, with the modem running between check and flush and during the write: exactly when it answers true, and what is then in the queue, the counters and the batches |
| `NetDevice.XmmNet.Wake` | `xmm7360.c:1097-1098` | a stopped queue is woken exactly if the ring has room |
| `NetDevice.XmmNet.Perform` | `xmm7360.c:936-1020` | any sequence of calls on the open device makes a run of the machine; what it conserves are, in order, the packets of exactly those xmits that answered true |
| `NetDevice.XmmNet.Session` | `xmm7360.c:904-1020` | the same from opening on |
| `TunMux.HandledFits` | `rpc/mux.c:261-287` | one packet keeps room for the trailer; the process exits exactly if the packet has more than max_frame less 56 bytes, with all earlier packets written |
| `TunMux.EveryPacketOnce` | `rpc/mux.c:261-287` | over every run of packets and deadlines the process exits exactly at the first packet that is too long, the trailer always has room, and every packet read before lies in exactly one frame, in order; on an exit all of these are written |
| `TunMux.Tun.HandleTun` | `rpc/mux.c:261-287` | a packet that fits joins the current frame, which goes out only when it has its full number of packets; one that does not fit sends it off and starts the next; exit exactly beyond max_frame less 56 bytes |
| `TunMux.Tun.constructor` | `rpc/mux.c:310-316` | the control message goes out first, with sequence number 0 and on channel 0, and an empty frame is begun |
| `TunMux.Tun.Finish` | `rpc/mux.c:168-185` | frame_append_adth always succeeds, and the frame written carries exactly the current packets with the next sequence number |
| `TunMux.Tun.DeadlineOver` | `rpc/mux.c:360-365` | a deadline writes the current frame if it holds something, and starts the next |
| `TunMux.Tun.WrittenDecodes` | `rpc/mux.c:231-259` | every frame written is read back as its packets |
| `TunMux.Tun.Perform` | `rpc/mux.c:261-287` | the same over whole runs on the real buffer: what was written is read back as the packets read before an exit, in order, with those of the current frame still to come if there was none |
| `RpcCodec.LengthEncoding` | `rpc/rpc.py:152-160` | the short form below 128, otherwise the minimal long form of sections 8.1.3.4 and 8.1.3.5 of ITU-T X.690 |
| `RpcCodec.LengthRoundTrip` | `rpc/rpc.py:183-188` | the decoder returns the byte reversal of a long-form length, so it inverts the encoder exactly below 128 and on lengths whose bytes are a palindrome |
| `RpcCodec.DecodedConcat` | `rpc/rpc.py:206-219` | decoding distributes over concatenation behind an accepted body, failures included |
| `RpcCodec.FormatIsPrefix` | `rpc/rpc.py:222-235` | on an accepted body a format succeeds exactly if it is a prefix of the kinds met, and gives the matching prefix of the values |
| `RpcPack.StringRoundTrip` | `rpc/rpc.py:180-203` | one string field is read back exactly if its length is legible, and fails the assertion otherwise |
| `RpcPack.CodecRoundTrip` | `rpc/rpc.py:206-264` | whatever pack accepts is decoded to each argument's number or element bytes exactly if every string argument has fewer than 128 elements or a count whose bytes are a palindrome, and AssertionError otherwise |
| `RpcPack.PayloadHolds` | `rpc/rpc.py:136-147` | the bytes given back for a string hold its elements one after the other, each as a little-endian number |
| `RpcPack.StringMisread` | `rpc/rpc.py:155-160` | of two strings that fill their fields, the one of 257 bytes is decoded and the one of 258 fails |
| `RpcBytes.IntItems` | `rpc/rpc.py:247-252` | the bytes of a B, H or L item and its exact range |
| `RpcBytes.StringItems` | `rpc/rpc.py:136-167` | for every element code, length and list of numbers: exactly when a string item is accepted, which exception it raises otherwise, and all its bytes |
| `RpcBytes.ElementsPacked` | `rpc/rpc.py:147-147` | the range of each element code and the bytes of its elements, least significant first and in two's complement |
| `RpcBytes.DecimalDigits` | `rpc/rpc.py:137-141` | the length of a string item is read in decimal |
| `RpcBytes.IntItemThen` | `rpc/rpc.py:238-259` | an integer item is followed by what the rest of the format packs, and the first exception wins |
| `RpcBytes.ElementItemThen` | `rpc/rpc.py:255-257` | the same for a string item |
| `RpcBytes.NoItem` | `rpc/rpc.py:238-264` | the exceptions for too few and too many arguments and for characters that are no item |
| `RpcBytes.IntRead` | `rpc/rpc.py:170-177` | an integer is its length and that many bytes, most significant first; exceptions for a wrong tag and a short message |
| `RpcBytes.LengthRead` | `rpc/rpc.py:183-188` | a string's element count in both forms, least significant byte first |
| `RpcBytes.StringRead` | `rpc/rpc.py:180-203` | a string of each tag is its payload; a count of 0 is not compared with anything, any other must be payload plus padding |
| `RpcBytes.CountlessString` | `rpc/rpc.py:194-198` | strings with a count of 0 and any payload and padding are decoded |
| `RpcBytes.FirstBytes` | `rpc/rpc.py:206-235` | the exceptions for unknown tags and format characters |
| `RpcMessages.TakeAsnInt` | `rpc/rpc.py:170-177` | the popping loop takes exactly the integer at the front, or raises what the specification says |
| `RpcMessages.TakeString` | `rpc/rpc.py:180-203` | the same for a string, with its least-significant-first length loop |
| `RpcMessages.UnpackUnknown` | `rpc/rpc.py:206-219` | ends on every input, with the specified values or exception |
| `RpcMessages.Unpack` | `rpc/rpc.py:222-235` | the same under a format |
| `RpcMessages.PackLength` | `rpc/rpc.py:152-160` | the loop that inserts length bytes builds the minimal long form |
| `RpcMessages.PackString` | `rpc/rpc.py:136-167` | the field and the rest of the format, or the exception, for every integer element code |
| `RpcMessages.Pack` | `rpc/rpc.py:238-264` | the packed bytes or the exception, for every format and argument list |
| `RpcSession.EnvelopeRoundTrip` | `rpc/rpc.py:54-116` | every request read as a message has equal lengths and gives back code and body; it is a response exactly if synchronous or its code is below 2000; a body the decoder rejects is rejected with the same exception |
| `RpcSession.RequestBytes` | `rpc/rpc.py:54-67` | every byte of a request, and exactly when there is none |
| `RpcSession.MessageMeans` | `rpc/rpc.py:83-116` | what each message is taken for by its transaction id and code, and what of its body is kept |
| `RpcSession.Malformed` | `rpc/rpc.py:90-101` | the exceptions for messages without their tags, cut short, or with a body that does not decode |
| `RpcSession.UnsolicitedMeans` | `rpc/rpc.py:113-122` | a message with any other transaction id does not end the wait, and sets attach_allowed exactly if its code is 0x06c; with fewer than three values that one raises |
| `RpcSession.AnswerMeans` | `rpc/rpc.py:103-112` | responses end the wait and are returned, acknowledgements do not, and neither touches attach_allowed |
| `RpcSession.AttachFollowsIndications` | `rpc/rpc.py:118-122` | after any pumps attach_allowed is element 2 of the last attach-allowed indication, or what it was before |
| `RpcSession.XMMRPC.Pump` | `rpc/rpc.py:34-47` | one message is read; the effect on attach_allowed and the result |
| `RpcSession.XMMRPC.Execute` | `rpc/rpc.py:49-81` | writes the request, reads exactly up to and including the first response or exception, and returns it |
| `TraceDeframer.PacketsConcat` | `trace/trace.py:102-125` | for a further piece of the stream only the buffer matters, never the whole past |
| `TraceDeframer.Reader.Feed` | `trace/trace.py:105-125` | one read hands on the finished packets, unescaped, and leaves a buffer that is empty or starts with the only flag in it; a trailing escape ends it there |
| `TraceDeframer.HandedConcat` | `trace/trace.py:110-125` | what is handed on distributes over pieces of the stream, up to the packet that ends the program |
| `TraceDeframer.Reader.ReadAll` | `trace/trace.py:102-125` | for every cutting of the stream into reads, what is handed on are the unescaped non-empty segments between flags of the whole stream, up to the first with a trailing escape |
| `TraceDeframer.SegmentsJoined` | `trace/trace.py:107-121` | of any stream, what stands between two flags is a packet unless it is empty, what precedes the first flag is dropped and what follows the last is kept |
| `TraceDeframer.OrUndoesXor` | `trace/trace.py:24-25` | the OR undoes the sender's XOR exactly on bytes with bit 5 set |
| `TraceDeframer.Unescape` | `trace/trace.py:20-27` | the iterator loop computes the unescaped packet, or stops at a trailing escape |
| `TraceDeframer.UnescapeStuffed` | `trace/trace.py:20-27` | unescaping inverts stuffing exactly on packets whose escaped bytes all have bit 5 set |
| `TraceDeframer.BrokenEnds` | `trace/trace.py:114-125` | a packet whose stuffing escapes a 0x5e ends the reader, and nothing is handed on from it on |
| `TraceDeframer.LineRoundTrip` | `trace/trace.py:102-125` | of packets stuffed as in section 4.2 of RFC 1662, joined by flags, preceded by noise and cut into any reads, exactly the lists come back whose packets are non-empty and have bit 5 set in every escaped byte |

## Left out

- The command ring (xmm7360.c:307-346): its full test keeps entries from being overwritten by the argument already given for the transmit ring, and its waiting is kernel plumbing; what a ring-open command returns is a parameter here.
- PCI, BAR and interrupt handling, device and tty registration, `dev_deinit`: kernel interfaces. The doorbell is a point at which the modem may run.
- Several readers or writers of one queue pair, and `net_open` racing with the deadline timer: the code does not serialise them, so one of each is assumed.
- `cdev_read` and `cdev_write`: they truncate and report sizes of their own; the ring steps they make are those of `QueuePair`.
- A queue pair here has an allocator to itself; rings of different pairs never meet in the source.
- NetDevice.XmmNet.Xmit: `xmm->error` does not change between the check for room and the write that follows it.
- MuxDecode.HandleFrame: a read outside the page ends it, while the C code goes on with whatever memory lies there.
- PyMux.MuxPacket.AppendTag: promises nothing about later calls after a tag of another length than four bytes, which no reader of the format would follow.
- PyMux.MuxPacket.Assemble: all tags have four bytes, for the same reason.
- PyMux.XMMMux.Package: the packet is handed in; the select loop and the tun device are I/O.
- TunMux.Tun.HandleTun: the packet has already been read, at most max_frame bytes of it; a failing write is only reported by the source, so a frame counts as emitted when it is handed to the write. The deadline is a step that may come at any time.
- RpcMessages.TakeString: after an exception the rest of the byte array is not specified, because the source never looks at it again.
- RpcMessages.PackString: the floating-point element codes e and f count as a struct error; formats are ASCII.
- RpcSession.XMMRPC.Execute: command names are already numbers, printing is left out except that it decodes the body once more, and a read beyond the given messages blocks.
- FCC unlocking, mode setting, address extraction, `open_xdatachannel.py`, `xm_dbus.py` and the fixed-format wrappers: constants and I/O.
- `decode_printf` and `handle_packet` of the trace reader: Python formatting and ad hoc filters; the latter also ends the program on a packet of one byte.
