# A verified model of the mlx5 ping-pong data path

The program drives the send queue, the receive queue and the completion queue of an
mlx5 device from user space, and on top of them plays one round of ping-pong between a
client that uses the rings directly and a server that uses verbs. This project models
that code in Dafny and proves what it relies on.

What a device or another host does at the same time is part of the model: the posting
protocol, the completion protocol and the ping-pong run are step systems in which every
interleaving is allowed, and their theorems hold over every run. Code that changes
memory in place is modelled by classes and methods that do so, each proved against a
specification, and the lemmas about the specifications carry the properties.

`dafny verify dfyconfig.toml` checks everything.

## How the files fit together

- `Bits`, `Ilog`, `Util`: machine words as numbers; the bit tricks against plain
  arithmetic.
- `Sizing`: `calc_*` with every C conversion written out, against the sizes meant.
- `CompletionQueue`, `CqProtocol`: the completion ring as a queue; then device and
  consumer step by step, with entries half written.
- `RingProtocol`, `RingSafety`: posting with stores that become visible in any order
  between barriers, a 16-bit doorbell record and a device that sees only memory.
- `WorkQueue`, `QueuePair`, `Posting`: what a WQE contains, `struct pp_dv_qp` with its
  buffer, doorbells and a trace of everything issued, and the link of that trace to the
  protocol.
- `Buffers`, `PingPong`, `EarlyReply`, `PatientReply`, `Client`: payloads, the two-party
  run, the runs in which the reply comes too early, one in which it waits, and
  `client_traffic_dv` on the rings.
- `Exchange`, `Connection`: the connection record for hosts of any byte order, and the
  way to RTS.
- `Resources`: creation, destruction and `main` under every failure.
- `VerbsPath`: linked work requests and `poll_cq_verb`.
- `Mmio`: the block copy of util/mmio.h.

## Main results

1. Over every interleaving of posting, store visibility and device steps, what the device
   fetches is a prefix of what was posted (`RingSafety.EveryFetchIsThePost`), the room the
   callers must leave is exact (`RingSafety.RoomIsExact`), and for every WQE and every
   order of its stores, leaving out the barrier before the doorbell record lets the device
   read what was in the slot before (`RingSafety.UnfencedPostTears`).
   `Posting.SendTraceIsPosts` and `Posting.RecvIsPostIffItFits` tie this to the code: the
   instructions `QueuePair.DvQp` issues are posts of that protocol. For the first call on
   each ring, which is all the client makes, `Posting.FirstSend` and `Posting.FirstRecv`
   discharge the room as well.
2. The completion ring is a FIFO queue on every lap and across the wrap of the 32-bit
   counter (`CompletionQueue.RingIsFifo`), exactly as long as the device is at most one
   lap ahead (`CompletionQueue.OverrunHidesEntries`); over every run the consumer gets
   the entries written, whole, each once and in order (`CqProtocol.DeliveredIsWritten`).
3. A client that finishes holds the server's replies if and only if no byte of the reply
   reached its memory before it reset its buffers (`PingPong.EchoedIffNotEarly`). A run
   that cannot go on is complete on both sides, or the server's send was refused four
   times for want of a receive (`PingPong.StuckMeansDone`). Nothing but time stands against
   either mishap: an early byte is possible exactly when a reply has more than one packet
   of the path MTU (`EarlyReply.EarlyIsPossibleIff`), which with 1 MB messages and packets
   of 1024 bytes it has; a server that gives up is possible for replies of any length
   (`EarlyReply.FailureIsPossible`). If the server's `sleep(2)` lasts until the client
   reposted, both are excluded and every finished run is the echo
   (`PingPong.WaitMeansNoRefusal`, `PingPong.WaitMeansEcho`), and such a run exists from
   every start (`PatientReply.PatientRunExists`). The echo is the ping itself exactly for
   lengths 2 to 32: longer messages lose byte 16 to the dump, and one byte loses its mark
   (`Buffers.EchoIsPingIff`).
4. Queue sizing gives what was asked if and only if the request fits 2^30 bytes
   (`Sizing.SqFitsIsExact`, `Sizing.RqFitsIsExact`); the 4-bit and 3-bit fields the device
   is told are read back exactly up to 2^15 entries and a shift of 11. The total of both
   rings is right unless more than half of the largest send ring and the largest receive
   ring are asked for together (`Sizing.Layout`, `Sizing.OverflowIff`).
5. Connection data survives any pair of byte orders, and both sides match at RTS
   (`Connection.ConnectBoth`).
6. What reaches the device, the wire and the payload is stated apart from the functions
   that make it, in plain numbers: the words of a send and of a receive slot
   (`Posting.SlotTellsIndex`, `Posting.RecvSlotTells`), the doorbell register
   (`QueuePair.BellTells`), the ownership test (`CompletionQueue.SwCqeOf`), the bytes of the
   exchange record (`Exchange.RecordTells`), of a ping and of a dumped buffer
   (`Buffers.PingAt`, `Buffers.DumpedAt`).
7. Every path of the client's `main` releases exactly what it acquired, in reverse
   (`Resources.ClientMain`, `Resources.EachReleasedOnce`).

## Where the code needs a condition

- `calc_rc_send_wqe` leaves `inl_size` unset when `max_inline_data` is 0, so sizing
  requires it positive.
- `roundup_pow_of_two` shifts by 64 or more exactly for 0 and above 2^63
  (`Util.RoundupDefinedIff`).
- `calc_wq_size` adds two ring sizes in an `int`. Two rings of 2^30 bytes, each of which
  fits, make the total negative: `Sizing.LayoutOverflows` is such a request, and
  `QueuePair.CreateQp` fails exactly then or when the allocator does.
- `pp_dv_post_recv` does not check `num_post`: a batch larger than the ring overwrites its
  own beginning. `Posting.RecvIsPostIffItFits` says exactly when it does not.
- There is no check that the send ring has room (README.md of the repository says so).
  The room is the guard of a posting step in `RingProtocol`; the first lap always has it
  (`Posting.FirstLapEnabled`), and the client posts no more than that.
- The server's queue pair retries a refused message three times only (`rnr_retry`), while
  the client's retries for ever; the reply therefore depends on `sleep(2)`, and result 3
  says how.
- The comment on `mmio_memcpy_x64` asks for a multiple of 64 bytes; where words have 32
  bits the code needs only a multiple of 8. `Mmio.EndsIffWholeBlocks` follows the code.
- A completion poll for 0 requests returns only when the library call fails
  (`VerbsPath.ZeroPollsForEver`).

## Model

| member | source | states |
|---|---|---|
| Bits.AndMask | pp_dv.c:515 | masking a counter with a power of two minus one is its remainder, for every counter and ring size |
| Bits.AndHigh | util/util.h:64-67 | the complement mask of `align` clears exactly the low bits |
| Bits.AndBit | pp_dv.c:589 | the test of bit `ncqe` is the parity of the lap |
| Bits.PhaseOfWrapped | pp_dv.c:576-593 | the lap parity of a counter wrapped at 2^32 is that of the full count |
| Bits.OrFields | pp_dv.c:539-541 | joining a shifted field and a smaller one by `or` loses nothing |
| Bits.OrXorSum | pp_dv.c:589 | `or` and exclusive `or` are the sum less what `and` counts twice |
| Bits.RecoverIsExact | pp_dv.c:499 | a reader recovers a truncated counter if and only if it is less than one wrap behind |
| Ilog.CascadeLevel | ccan/ilog.h:138-149 | one level of the cascade picks the half that holds the top bit |
| Ilog.StaticIlog32Correct | ccan/ilog.h:86 | the 32-bit cascade is the bit length of every word |
| Ilog.StaticIlog64Correct | ccan/ilog.h:97 | the 64-bit cascade is the bit length of every word |
| Ilog.IlogClzCorrect | ccan/ilog.h:103-136 | the count-leading-zeros form is the bit length of every word, whatever the builtin returns for 0 |
| Ilog.IlogOfPow2 | pp_dv.c:280-282 | the log of a power of two minus one is its exponent |
| Util.AlignIsLeastMultiple | util/util.h:64-67 | `align` is the least multiple from the value up if and only if that multiple fits 64 bits |
| Util.AlignOverflow | util/util.h:64-67 | otherwise `align` returns 0 |
| Util.AlignDownIsGreatestMultiple | util/util.h:69-72 | `align_down` is the greatest multiple for every word; the two wraps cancel |
| Util.RoundupIsLeastPow2 | util/util.h:74-77 | `roundup_pow_of_two` is the least power of two from `n` up, for 1 to 2^63 |
| Util.RoundupDefinedIff | util/util.h:74-77 | the shift is below 64, as C requires, if and only if `n` is 1 to 2^63 |
| Sizing.CalcSqSize | pp_dv.c:149-164 | every field the send queue gets, and the counters it does not touch |
| Sizing.CalcRqSize | pp_dv.c:177-194 | every field the receive queue gets, and the counters it does not touch |
| Sizing.CalcWqSize | pp_dv.c:196-219 | receive ring first, send ring behind it, and their total |
| Sizing.RcSendWqeExact | pp_dv.c:134-147 | in range, no C conversion in the size of a send WQE loses anything |
| Sizing.SizesMeant | pp_dv.c:134-147 | the sizes meant, in plain numbers: bytes of a send WQE, of a receive WQE, and when a request fits |
| Sizing.CDivTruncates | pp_dv.c:155-158 | the divisions of the code go toward zero, whatever the signs |
| Sizing.SqSizing | pp_dv.c:149-164 | the send ring is the least power of two that holds the WQEs asked for; count, shift, `max_post` and the log agree with it |
| Sizing.SqFitsIsExact | pp_dv.c:149-164 | the ring holds what was asked if and only if the request fits 2^30 bytes |
| Sizing.StrideOf | pp_dv.c:166-175 | the receive stride is a power of two that holds the segments asked for |
| Sizing.RqSizing | pp_dv.c:177-194 | count and stride are powers of two whose product is the ring; requests and segments asked for fit |
| Sizing.RqFitsIsExact | pp_dv.c:177-194 | requests and segments fit if and only if the rounded request fits 2^30 bytes |
| Sizing.CountFieldExact | mlx5_ifc.h:2757-2760 | the device reads the count back from 4 bits if and only if it is at most 2^15 |
| Sizing.StrideFieldExact | mlx5_ifc.h:2757-2758 | the device reads the stride back from 3 bits if and only if the shift is at most 11 |
| Sizing.Layout | pp_dv.c:196-219 | the rings are whole blocks side by side; total and page-aligned buffer hold both unless both are the largest there is |
| Sizing.OverflowIff | pp_dv.c:204-207 | the sizes add to 2^31 if and only if the request needs more than 2^29 bytes of send ring and 2^30 of receive ring |
| Sizing.LayoutOverflows | pp_dv.c:204-207 | a request for which each ring fits and the total is negative |
| CompletionQueue.RingIsFifo | pp_dv.c:576-593 | the ownership test finds an entry if and only if one is unread, and then the oldest |
| CompletionQueue.SwCqeOf | pp_dv.c:576-593 | in plain numbers: the entry at a counter is found if and only if the upper half of its last byte is not 15 and the lowest bit of that byte is the parity of the lap |
| CompletionQueue.OverrunHidesEntries | pp_dv.c:576-593 | within the second lap ahead the test is right if and only if the device is at most one lap ahead |
| CompletionQueue.ZeroedRingReadsFull | pp_dv.c:98-102 | without the INVALID marks every entry of a fresh ring reads as new |
| CompletionQueue.MarkedRingIsEmpty | pp_dv.c:98-102 | with the marks a fresh ring is the empty queue |
| CompletionQueue.DeviceWriteKeepsRing | pp_dv.c:576-593 | a device write within one lap appends to the queue |
| CompletionQueue.DvCq.constructor | pp_dv.c:98-102 | the marking loop makes the empty queue, with both doorbells 0 |
| CompletionQueue.DvCq.GetNextCqe | pp_dv.c:621-639 | hands out the oldest unread entry, or reports an empty ring and changes nothing; it finds one exactly when the last byte of the entry at the counter says so |
| CompletionQueue.DvCq.PollOne | pp_dv.c:641-653 | takes one entry if there is one |
| CompletionQueue.DvCq.PollCq | pp_dv.c:655-666 | takes the next `ret` entries, stops short only at an empty ring, advances the index by `ret` and publishes 24 bits of it |
| CqProtocol.CheckIsExact | pp_dv.c:576-593 | in every reachable state, with entries half written, the test is exact |
| CqProtocol.CiRecovered | pp_dv.c:664 | the device recovers the released count from 24 bits |
| CqProtocol.StepKeepsInv | pp_dv.c:621-666 | every step of device and consumer keeps the ring invariant |
| CqProtocol.DeliveredIsWritten | pp_dv.c:621-666 | over every run the consumer gets the entries written, whole, each once and in order |
| CqProtocol.NeverStuck | pp_dv.c:655-666 | unread entries can always be taken, and a released entry gives the device room again |
| CqProtocol.EarlyLoadIsStale | pp_dv.c:630-635 | from every fresh ring a run exists whose entry, when the test finds it, differs in every word from what an earlier load would have returned |
| RingProtocol.VisibilityKeepsEventual | util/udma_barrier.h:65-82 | making a store visible changes when, not what, memory ends up holding |
| RingProtocol.HwSlot | pp_dv.c:515 | the 16-bit index of the device names the slot of the full count |
| RingSafety.StepKeepsInv | pp_dv.c:492-546 | every step of the posting protocol keeps its invariant |
| RingSafety.EveryFetchIsThePost | pp_dv.c:492-546 | over every run the device fetches complete WQEs, in order, none partial, skipped, repeated or stale |
| RingSafety.AnnouncedIsWhole | pp_dv.c:497-502 | a WQE below the visible count and not yet fetched is whole in memory |
| RingSafety.DoorbellRecovered | pp_dv.c:499 | from 16 bits the device recovers the exact count |
| RingSafety.HwHasWork | pp_dv.c:499 | the 16-bit comparison shows work exactly when there is some |
| RingSafety.NeverStuck | pp_dv.c:492-546 | work outstanding can always make progress |
| RingSafety.RoomIsExact | README.md:31 | one more post spares the oldest unfetched WQE if and only if the ring has a free slot |
| RingSafety.UnfencedPostTears | pp_dv.c:494-499 | for every WQE and every order of its stores: without the barrier the record can be seen first and the device reads the old slot; with it that step is impossible |
| WorkQueue.HeaderRecovers | pp_dv.c:539-540 | 16-bit index and opcode can be read back from the first word |
| WorkQueue.QpnDsRecovers | pp_dv.c:541 | the size and the low 24 bits of the queue number can be read back from the second word |
| WorkQueue.SendWqeComplete | pp_dv.c:505-546 | the size field is the length of the WQE |
| WorkQueue.FlagBits | pp_dv.c:520 | the masks for signalled and inline sends are bits 1 and 3 of the flags |
| WorkQueue.DataSegTells | pp_dv.c:536 | a data segment holds the length, the key and the 64-bit address of the buffer it is for |
| WorkQueue.RaddrSegTells | pp_dv.c:484-490 | a remote segment holds the 64-bit address and the key of the peer's buffer |
| WorkQueue.SendWqeTells | pp_dv.c:505-541 | every part of a send WQE in plain numbers: index, opcode, queue number, size, completion flag, immediate, remote buffer for the three RDMA opcodes only, local buffer |
| WorkQueue.SendDescribes | pp_dv.c:515-541 | the stores of `post_send_one`, in their order, leave exactly the WQE |
| WorkQueue.RecvDescribes | pp_dv.c:672-682 | a receive batch of at most the ring size leaves exactly its segments |
| WorkQueue.AppendToRing | pp_dv.c:515-541 | writing the next WQE into its slot extends the log by it; the last lap stays |
| WorkQueue.RingUntouched | pp_dv.c:312-313 | writes outside a ring leave its log |
| QueuePair.OneBlock | pp_dv.c:543 | every WQE takes one basic block |
| QueuePair.BellTells | pp_dv.c:502 | the two halves of the register are the first two words of the WQE |
| QueuePair.MaskedIndex | pp_dv.c:515 | the masked 32-bit counter is the slot of the full count |
| QueuePair.NextIndex | pp_dv.c:681 | stepping the masked index stays the slot of the count |
| QueuePair.SendKeepsRings | pp_dv.c:505-546 | a send WQE extends the send ring and leaves the receive ring |
| QueuePair.RecvKeepsRings | pp_dv.c:669-693 | a receive segment extends the receive ring and leaves the send ring |
| QueuePair.CreatedGeometry | pp_dv.c:280-316 | sizing and layout give the queue pair its ring geometry, and the buffer for it unless both rings are the largest there is |
| QueuePair.CreateQp | pp_dv.c:221-340 | creation succeeds if and only if the allocator does and the request is not for the largest ring twice; then the rings are empty and have room for what was asked |
| QueuePair.DvQp.constructor | pp_dv.c:254-316 | once the buffer is allocated: empty rings in a zeroed buffer, doorbells 0, and room for what was asked |
| QueuePair.DvQp.PostSendDb | pp_dv.c:492-503 | barrier, doorbell record, barrier, register, with the count and the first two words of the WQE |
| QueuePair.DvQp.WriteSegments | pp_dv.c:523-537 | the segments behind the control segment; the wrap of `seg` is never taken |
| QueuePair.DvQp.WriteControl | pp_dv.c:517-521 | flags, immediate and a cleared word |
| QueuePair.DvQp.WriteHeader | pp_dv.c:539-541 | the two words that make a WQE recognisable come last |
| QueuePair.DvQp.FillSlot | pp_dv.c:505-543 | the WQE goes into the slot of its index and the counter advances by one |
| QueuePair.DvQp.PostSendOne | pp_dv.c:505-546 | the log grows by exactly this WQE, the record holds the low 16 bits of the count and the register the first two words of the WQE, nothing outside the send ring changes |
| QueuePair.DvQp.PostSend | pp_dv.c:548-569 | refused, with nothing changed, exactly for no request, more than `max_post` or than there are buffers, or inline data; an accepted call posts buffers 0, 1, .. in order |
| QueuePair.DvQp.RecvNext | pp_dv.c:674-682 | one iteration puts buffer `i` into the slot of its index |
| QueuePair.DvQp.PostRecv | pp_dv.c:669-693 | the batch lands in order behind one doorbell; send ring and send doorbell stay |
| Posting.SendTraceIsPosts | pp_dv.c:492-546 | each piece of what the send side issued is a post the protocol allows |
| Posting.BatchAt | pp_dv.c:565-566 | WQE `i` of a batch has buffer `i` and the next index, and is whole |
| Posting.AcceptedSlotsDistinct | pp_dv.c:554-566 | an accepted call writes pairwise distinct slots |
| Posting.SlotTellsIndex | pp_dv.c:539-541 | while a WQE is in the last lap the device reads every part of it, in plain numbers, from the words of its slot |
| Posting.RecvSlotTells | pp_dv.c:674-682 | while a receive is in the last lap its slot holds length, key and address of its buffer |
| Posting.SendsLand | pp_dv.c:565-566 | after a call the slot of each index tells the request for its own buffer |
| Posting.RecvsLand | pp_dv.c:672-682 | after a batch that fits the slot of each index tells its own buffer |
| Posting.RecvIsPostIffItFits | pp_dv.c:669-693 | a receive call is an allowed post if and only if the batch fits the ring |
| Posting.RecvOverrun | pp_dv.c:672-682 | a larger batch overwrites its own beginning |
| Posting.FirstLapEnabled | pp_dv.c:548-569 | up to one lap of posts, every one is enabled in every protocol state in which it is the next, room included |
| Posting.FirstSend | client.dv.c:33-38 | the first accepted call issues the trace of whole WQEs that are all enabled, whatever the device does meanwhile, and each slot tells the request for its own buffer |
| Posting.FirstRecv | client.dv.c:56-60 | the first receive call issues one post that is enabled, if the batch fits, and each slot tells its own buffer |
| Posting.ClientFitsRings | client.dv.c:33-60 | queues sized for the client accept its batch, and its requests without a completion fit both rings over every run |
| Buffers.MemString | pp_common.h:69-77 | the buffer holds the repeating letters and ends in zero |
| Buffers.FillPing | client.dv.c:28-31 | the buffer is the ping of its index |
| Buffers.Clear | client.dv.c:53-54 | the buffer is all zeros |
| Buffers.DumpMsgShort | pp_common.c:263-273 | printing cuts the buffer at its end and, when long, at byte 16 |
| Buffers.PingAt | client.dv.c:28-31 | byte for byte: the mark 48 + i mod 74, then 'A' to 'z' over and over, then zero |
| Buffers.DumpedAt | pp_common.c:263-273 | dumping any buffer clears its last byte, and byte 16 of more than 32 |
| Buffers.DumpedPingAt | pp_common.c:263-273 | byte for byte, a dumped ping is the ping but for the cuts |
| Buffers.EchoIsPingIff | pp_common.c:263-273 | dumping leaves a ping alone if and only if its length is 2 to 32 |
| Buffers.MarksTellBuffers | client.dv.c:30 | up to 74 buffers, pings differ |
| PingPong.ClientSteps | client.dv.c:28-73 | byte for byte, what filling, resetting and taking a reply do to the one buffer they are for |
| PingPong.ServerSteps | server.c:22-52 | the same for preparing and for taking a ping; the others stay |
| PingPong.StepKeepsInv | client.dv.c:18-77 | every step of client, server, devices and link keeps the invariant |
| PingPong.FinalBuffers | client.dv.c:18-77 | every complete run ends with the i-th reply in buffer i, but for early bytes of the first |
| PingPong.EchoedIffNotEarly | server.c:38 | the client holds the replies if and only if no byte came before its reset |
| PingPong.EchoWhenReplyWaits | server.c:22-52 | if the server waits for the reset, a client that finishes has in buffer i the i-th reply, which from two bytes on is the i-th ping but for byte 16 of long messages |
| PingPong.OnePacketNeverEarly | pp_verb.c:74 | a reply of one packet is never early, so a client that finishes has the replies without any wait |
| PingPong.PhasesDoNotMix | client.dv.c:40-73 | on one shared queue, the first phase takes exactly the send completions and the second the receive completions |
| PingPong.CqNeverOverrun | pp_common.h:28-32 | open requests and unread completions together never exceed one phase, on either side |
| PingPong.StepDecreases | client.dv.c:40-73 | every step brings the end nearer by one |
| PingPong.RunIsBounded | client.dv.c:40-73 | every run is finite, with an exact bound |
| PingPong.NeverStuck | client.dv.c:40-73 | until both programs are done or the server gave up, some step is possible |
| PingPong.StuckMeansDone | server.c:15-56 | a run that cannot go on is complete on both sides, or the server used up its retries and the client waits |
| PingPong.WaitMeansNoRefusal | server.c:38 | if the server replies only once the client reposted, no reply is refused and none waits for a receive |
| PingPong.WaitMeansEcho | server.c:38 | with that wait a run that cannot go on is complete on both sides and the client holds the replies |
| PatientReply.PatientRunExists | server.c:38 | from every start there is a run with that wait in which both programs end and the client holds the replies |
| EarlyReply.EarlyIsPossibleIff | pp_dv.c:400 | for any number of messages, a reply byte can reach the client before its reset if and only if messages have more than one packet |
| EarlyReply.FailureIsPossible | pp_verb.c:112 | for messages of any number and length, the server can run out of retries |
| Client.PollPhase | client.dv.c:40-50 | the polling loop ends and takes exactly what was posted |
| Client.RecvPhase | client.dv.c:62-73 | replies are in place before their completions, and each is dumped in its own buffer as its completion is taken |
| Client.FillAndPost | client.dv.c:28-38 | every buffer holds its ping and is posted once, or posting is refused |
| Client.ClearAndRepost | client.dv.c:52-60 | every buffer is cleared and reposted |
| Client.ClientTraffic | client.dv.c:18-77 | the whole routine: fails exactly when posting is refused, else posts, takes and dumps everything once; an echo stays what the server sent |
| Client.TrafficOverLink | client.dv.c:18-77 | given the replies the modelled link carries, the code ends with the buffers with which every such run of the ping-pong ends |
| Exchange.WireOrder32 | pp_common.c:218-225 | what a host of either byte order stores for a converted word is big-endian |
| Exchange.ReadBack32 | pp_common.c:244-249 | a host of either byte order reads a big-endian word back |
| Exchange.WireOrder64 | pp_common.c:224 | the same for 64-bit addresses on the way out |
| Exchange.ReadBack64 | pp_common.c:248 | and on the way in |
| Exchange.HostOrder32 | pp_common.c:218-225 | a host stores and reads a word with its digits in its own byte order |
| Exchange.HostOrder64 | pp_common.c:224 | the same for 64-bit addresses |
| Exchange.FillRecord | pp_common.c:210-226 | the record encodes every field of the sender, for either byte order |
| Exchange.ReadRecord | pp_common.c:244-251 | reading a record yields every field of its sender, for either byte order |
| Exchange.RecordTells | pp_common.h:49-59 | at which bytes of the record which number stands, highest byte first |
| Exchange.RecordCarried | pp_common.c:233-242 | the bytes of the record alone decide what is read |
| Exchange.BuildRecord | pp_common.c:205-226 | the errors before the socket in order, and otherwise the record of the sender |
| Exchange.TakeRecord | pp_common.c:245-251 | what came is taken whole, or the target is left alone |
| Exchange.ExchangeInfo | pp_common.c:195-260 | the errors in order; success yields the peer, failure leaves the target alone |
| Exchange.ExchangeBoth | pp_common.c:195-260 | two hosts of any byte orders: each takes the bytes the other sent and ends up with what the other is |
| Connection.MoveToRtsDv | pp_dv.c:354-482 | INIT, RTR, RTS in order up to the first error; at RTR the peer's numbers and its gid on Ethernet or else its lid, the own number at RTS |
| Connection.CreateInInit | pp_verb.c:37-46 | creation takes the verbs queue pair to INIT |
| Connection.MoveToRtsVerb | pp_verb.c:66-129 | RTR, RTS in order up to the first error, with the same numbers |
| Connection.ConnectBoth | pp_dv.c:467-482 | after exchange and moves both sides are in RTS with the other's sequence number, queue number and gid, or lid where the port is not Ethernet |
| Resources.Unwind | pp_dv.c:106-119 | the failure labels release what is held, newest first, and reset the pointers |
| Resources.Create | pp_dv.c:221-340 | the first failing step decides the result; a failing call released exactly what it acquired (the completion queue's call has the same shape) |
| Resources.ChainSound | pp_dv.c:221-340 | every registration comes after the memory it is for, and the object after all else |
| Resources.Destroy | pp_dv.c:342-352 | everything is released in reverse order |
| Resources.MainFirstError | client.dv.c:79-119 | of context, queues, exchange, move and traffic the first that fails decides what is returned |
| Resources.ClientMain | client.dv.c:79-119 | on every path nothing stays live; 0 is returned if and only if every step succeeded, else the first error |
| Resources.EachReleasedOnce | client.dv.c:79-119 | every resource acquired is released exactly once, and nothing else |
| VerbsPath.PrepareRecv | pp_verb.c:131-153 | every buffer is cleared and has its own linked request |
| VerbsPath.PrepareSend | pp_verb.c:155-188 | every buffer has its own linked request; without `initbuf` the contents stay |
| VerbsPath.WalkVisitsAll | pp_verb.c:141-144 | following the links visits every request once, in order, and ends |
| VerbsPath.AllSucceeded | pp_verb.c:208-215 | a batch passes exactly if all its completions succeeded |
| VerbsPath.PollCq | pp_verb.c:190-225 | every call asks for exactly what is left; a receive poll dumps the buffers of the completions taken, once each and in order, a send poll none |
| VerbsPath.ZeroIffAllSucceed | pp_verb.c:190-225 | 0 is returned if and only if the first `n` completions succeed before any failure and `n` is not 0 |
| VerbsPath.PollsOn | pp_verb.c:190-225 | it polls on if and only if no call failed, no completion was an error and fewer than `n` came; otherwise it returns 0 or -1 |
| VerbsPath.ZeroPollsForEver | pp_verb.c:195-205 | for 0 requests the loop ends only with a failing library call |
| Mmio.EndsIffWholeBlocks | util/mmio.h:228-252 | the copy loop ends if and only if the length is a multiple of the block |
| Mmio.WholeSpace | util/mmio.h:228-252 | the blocks are 64 and 8 bytes; the length 0 copies the whole address space |
| Mmio.MemcpyX64 | util/mmio.h:228-243 | the words are copied one by one and upward, and nothing else changes |
| Mmio.MemcpyX32 | util/mmio.h:244-252 | the same with 32-bit words |

## Left out

- Sockets and device discovery: the exchange is one whole record that arrives or does not.
- `ibv_*`, `mlx5dv_*` and DEVX calls: each is a result that may be any error.
- The other fields of mlx5_ifc.h, and attributes of the queue pair that no other code reads (timeouts, the fixed `dmac`).
- pp_vfio.c and client.vfio.c: firmware and operating system plumbing; its traffic routine posts and polls in the same order as the one modelled.
- Printing, sleeping, argument parsing and the interrupt-free waiting of `usleep`.
- The disabled body of `parse_cqe`: the live code returns CQ_OK for every entry, so completions with an error status are not told apart.
- `pp_ctx_init` and `pp_ctx_cleanup`: one abstract acquisition. Its own error exit for a failed allocation frees the buffers without deregistering those registered before.
- The field macros and single accessors of util/util.h and util/mmio.h.
- Loads of the consumer ahead of the ownership test: the barrier in `get_next_cqe` orders them, and `CqProtocol.EarlyLoadIsStale` says why it must.
- Byte order of WQEs and doorbells: their words are taken in the device's order, so `htobe32` does not appear there.
- Packet loss and retransmission: the link is reliable and in order, and a completion of a send means the data arrived. Of refusals for want of a receive, the retry timers (`min_rnr_nak`, `min_rnr_timer`) are left out: a refusal may come at any time, and only their number counts.
- `client.verb.c`: the same verbs calls as the server's, in the client's order.
- CompletionQueue.DvCq.PollCq: what the device writes between tests is a parameter; the free interleaving is in CqProtocol.
- PingPong.StepKeepsInv: the server takes completions one at a time; the batches of `poll_cq_verb` are in VerbsPath. Fills, resets and dumps are one step a buffer.
- Client.ClientTraffic: the device's completions and the replies are parameters that arrive within the polling loops; `Client.TrafficOverLink` takes the replies from the link of PingPong, where the free interleaving is.
- Resources.Create: one method for both queues, since the two functions differ only in their first query.
- Exchange.ExchangeInfo: padding bytes of the record beyond the key table are not modelled.
- Mmio.MemcpyX64: the device side of the copy is an ordinary array.
