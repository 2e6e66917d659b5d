# Selective-repeat file transfer over a lossy link

A Dafny model of the selective-repeat sender and receiver, of their packet
format, and of the link simulator that stands between them, with proofs that
the transfer is correct.

The C code is kept in its own form, in classes and loops over arrays. The
methods of the packet codec, the receiver and the sender (`PktStruct`,
`ReceiveLoop`, `SendLoop`, `Slots`) are proved equal to functions on values
(`Codec`, `Receiver`, `Sender`); those of the delay heap and the link (`Heap`,
`LinkSim`) are specified by the multiset they hold and by what they send. The
whole system is a state machine over the value functions (`Protocol`), which
takes from the link the damage it does to a datagram and leaves the order of
delivery open: the sender reads chunks, resends, handles replies; the link
drops, passes, cuts or corrupts each datagram; the receiver gets datagrams in
order or in any order; replies travel back untouched. The datagrams are real
byte strings, produced and parsed by the codec. The CRC is an arbitrary
function from bytes to 32-bit words, so every result holds for every CRC.

Main results:

- `Safety.TransferIsSafe`: in every reachable state the receiver has written
  exactly the first chunks of the input, once each and in order; the sender
  never indexes outside its window; once it has exited the output is the whole
  input. On an in-order link this needs no assumption. On a delaying link it
  needs that the receiver mistakes no datagram for another packet
  (`Protocol.Unmistaken`): a late datagram's number must lie outside the current
  receive window, or stand there for a packet that is buffered already or was
  sent with the same chunk; for a bare header, for a packet that was sent.
- `Safety.SoundExactly`: that condition is exact. On any link, the invariant
  behind safety holds throughout a run if and only if no delivery in it is
  mistaken. `Mistakes.MistakeShowsExactly` and `Mistakes.HeaderDerailsExactly`
  say when a mistake shows: as a wrong chunk in the output, or as a sender that
  indexes outside its array. `Aliasing` gives a run for each, for every CRC.
  `ReceiverRef.AgeBound`: at most 225 packets late is never mistaken.
- `Progress.AdvancingRunsExit`: neither side ever goes back, every step that
  moves the transfer on uses up some of what is left, and the sender has exited
  exactly when nothing is left.
- `Progress.TransferCanComplete`: every run can be continued to the sender's
  exit with the whole input written, without any drop or damage.
- `Accounting.BooksBalance`: after any run every datagram sent is in flight, was
  dropped or arrived, and the replies sent, one for each packet written and one
  for each bare header in the window, are those queued and those read. Every
  chunk read goes out at once (`Accounting.ReadTransmits`), and every bare header
  in the window brings its packet on the wire again
  (`Accounting.HeaderIsHonoured`).
- `Accounting.FlowControl`: the sender can read on exactly while fewer packets
  are outstanding than the last reply it read had granted.
- `ReceiverRef.ReceiveAllRefines`: the receive loop, over any arrivals, is a
  map from absolute indices to payloads.
- `Codec.RoundTrip`, `Codec.StatusExactly`, `Codec.ReencodeExact`: the wire
  format is inverted by the decoder, and the status of every datagram is
  characterised.
- `Heap.MinQueue` and `LinkSim.Link.DeliverDelayed`: the delay heap is a
  priority queue with logarithmic push and pop, and the drain loop sends
  exactly the expired slots, in order.

Where the code and its documentation differ, the model follows the code:

- packet_interface.h:58-59 promises the header's values on every error but
  E_NOHEADER; an unknown type or a length above 512 is not stored
  (`Codec.HeaderReportedExactly`).
- packet_interface.h:30 names E_PADDING; non-zero padding is accepted
  (`Codec.NonzeroPaddingAccepted`).
- packet_implem.c:120 says the CRC leaves out the padding; it covers it.
- linksim/link_sim.c:74 says `c = a - b`; the borrow is skipped when it would
  leave zero seconds (`LinkSim.TimevalDiff`).
- sel_repeat_read.c:137 compares where an assignment was meant; the branch is
  kept as written and proved dead (`ReceiveLoop.Reader.HandleExpected`).

A little-endian host with signed `char` is modelled. `hide` statements in
proofs only keep definitions out of the solver's way.

## Model

| member | source | states |
|---|---|---|
| Protocol.BuffersAreTight | sel_repeat_read.c:45-46 | the read buffers are exactly as long as the longest datagram and the reply |
| Safety.TransferIsSafe | sel_repeat_read.c:54-118 | in every reachable state of sender, link and receiver (in-order link, or no datagram mistaken) the output is the first chunks sent, each once and in order, a prefix of the input; no crash; after the exit it is the entire input, ended by the empty packet |
| Safety.StepInv | sel_repeat_write.c:132-277 | every action of sender, link and receiver, other than a mistaken delivery, keeps the coupling invariant: base <= acknowledged numbers in the reverse queue, nondecreasing, <= expected <= next <= base + 31, window and datagrams genuine |
| Safety.StepExactly | sel_repeat_read.c:54-118 | of all actions that can be taken on any link, exactly those that are not mistaken deliveries keep the invariant |
| Safety.SoundExactly | sel_repeat_read.c:54-118 | on a link that reorders at will, the invariant holds throughout a run if and only if the receiver mistakes no datagram in it |
| Protocol.FaithfulExactly | sel_repeat_read.c:76-117 | an intact datagram, however late, leaves the receiver holding only what was sent if and only if it is not mistaken |
| Protocol.InOrderExactly | sel_repeat_read.c:64-74 | a damaged datagram leaves the receiver as it was, and the reverse queue in order if and only if it is not mistaken |
| Mistakes.MistakeShowsExactly | sel_repeat_read.c:60-117 | an intact datagram in flight that would be taken for packet k can be brought into the output in the place of k, nothing else going wrong, if and only if the input is long enough for k to come up |
| Mistakes.HeaderDerailsExactly | sel_repeat_write.c:247-262 | a mistaken bare header in flight can make the sender index outside its window while it reads its replies, nothing else going wrong, if and only if the file is not yet read and delivered to its end |
| Safety.RunGood | sel_repeat_write.c:132-277 | the coupling invariant holds after every run, with the ordering invariant on an in-order link |
| Safety.HeadIsFresh | linksim/link_sim.c:177-183 | on an in-order link the next datagram is at most 31 packets old, so its number never aliases |
| Safety.OrderedStep | linksim/link_sim.c:177-183 | every step on an in-order link keeps the datagrams in flight in sending order, each at most one sender window old when sent, none older than what was accepted |
| Safety.RepliesAddressWindow | sel_repeat_write.c:216-270 | in every reachable state the next reply decodes, advertises a window of 1 to 31, and its position is -1 .. current - 1 for an ACK, 0 .. current - 1 for a NACK |
| Safety.SweepIsRun | sel_repeat_write.c:134-149 | a sweep over the timers is a run of single retransmissions of the expired entries, oldest first, and changes nothing else |
| Progress.TransferCanComplete | sel_repeat_write.c:132-276 | from every reachable state some continuation reaches the exit with the whole input written |
| Progress.AdvancingRunsExit | sel_repeat_write.c:132-276 | in any run, drops, damage and repeats included, what is left to do never grows and shrinks with every chunk read, every intact arrival of the expected packet and every ACK beyond the oldest packet; it is zero exactly when the sender has exited |
| Progress.StepOn | sel_repeat_write.c:132-276 | no action takes back a chunk sent, a packet delivered or a packet acknowledged |
| Progress.PushOldest | sel_repeat_write.c:134-149 | with no reply in flight, resending the oldest packet and letting it through makes the receiver's expected index grow |
| Progress.DrainReplies | sel_repeat_write.c:205-276 | the sender can consume every queued reply, or exits while doing so |
| Progress.CaughtUp | sel_repeat_read.c:85-109 | when no reply is queued the sender's oldest packet is the one the receiver expects |
| Aliasing.LateDuplicateBreaksSafety | sel_repeat_read.c:60 | a late duplicate of packet 0: a run, for every CRC, after which the output is not a prefix of the input |
| Aliasing.LateHeaderCrashesSender | sel_repeat_write.c:255-262 | a late header of packet 0: a run, for every CRC, after which the sender has indexed outside its window |
| Aliasing.ManyThrough | sel_repeat_write.c:134-149 | 256 packets can go through while a copy of packet 0, intact or cut, stays in the link, with nothing mistaken |
| Accounting.BooksBalance | sel_repeat_write.c:132-277 | over any run, transmissions = in flight + drops + arrivals, and packets written + bare headers answered = replies queued + replies read |
| Accounting.StepBooks | sel_repeat_write.c:132-277 | each single action keeps both balances |
| Accounting.ReadTransmits | sel_repeat_write.c:169-203 | every chunk read puts exactly one datagram on the wire, intact and of the next index, whatever is outstanding |
| Accounting.NackTransmits | sel_repeat_write.c:247-270 | a NACK puts exactly one intact copy of the packet it names on the wire and leaves the window as it is |
| Accounting.AckTransmitsNothing | sel_repeat_write.c:221-243 | an ACK puts nothing on the wire and moves the oldest packet to the one it names |
| Accounting.LinkMoves | linksim/link_sim.c:134-185 | every fate is possible; only the oldest datagram is touched, and it disappears or goes last into the air unchanged, as a bare header, or with a wrong CRC |
| Accounting.DeliverAnswers | sel_repeat_read.c:54-118 | a delivery, however late, queues one reply for each packet it lets the receiver write, one for a bare header in the window, none otherwise |
| Accounting.HeaderIsHonoured | sel_repeat_read.c:69-74 | once the sender has read its replies, a bare header in the window has brought an intact copy of its packet on the wire |
| Accounting.FlowControl | sel_repeat_write.c:153-156 | after any run the input is watched if and only if the sender runs, the file is not at its end, and fewer packets are outstanding than the window of the last reply read (31 before the first) |
| Accounting.ReadPossibleExactly | sel_repeat_write.c:153-156 | in any state a read is possible if and only if the window granted has room, a closed one counting as one packet |
| Accounting.ReadRespectsWindow | sel_repeat_write.c:153-156 | no read leaves more packets outstanding than granted |
| ReceiverRef.ReceiveAllRefines | sel_repeat_read.c:76-117 | over any order and multiplicity of valid packets that do not alias, the array receiver equals the map reference |
| ReceiverRef.ReceiveRefines | sel_repeat_read.c:76-117 | one intact datagram has the reference's effect |
| ReceiverRef.ReferenceAccepts | sel_repeat_read.c:76-117 | the reference accepts exactly the packets below the end of its window, once each; the expected index is the least one not accepted |
| ReceiverRef.ReceiverSettled | sel_repeat_read.c:76-117 | at every loop head nothing deliverable is left in the buffer and everything in it is ahead of the expected packet |
| ReceiverRef.FlushRefines | sel_repeat_read.c:85-109 | the flush loop delivers exactly the contiguous packets and drops them from the buffer |
| ReceiverRef.BufferedRefines | sel_repeat_read.c:111-114 | an early packet adds its own index to the buffer, unless present, and nothing else |
| ReceiverRef.StaleIgnoredExactly | sel_repeat_read.c:60-114 | an old duplicate leaves the receiver unchanged and silent if and only if its number is outside the window or already buffered |
| ReceiverRef.AgeBound | sel_repeat_read.c:60 | a packet at most 225 late never aliases; one 226 to 256 late always does |
| ReceiverRef.AliasByOffset | sel_repeat_read.c:60 | a packet shares its number with another packet of the receive window if and only if the window test on the number would admit it from outside the window |
| ReceiverRef.InsertKnown | sel_repeat_read.c:200-232 | insertion is the identity if and only if the number is already buffered, and otherwise adds one packet |
| ReceiverRef.FindInsert | sel_repeat_read.c:200-232 | what is stored under each number after an insertion |
| Receiver.ReceiveValid | sel_repeat_read.c:54-118 | every datagram whatsoever keeps the buffer sorted by offset within 1 .. 30 and the window size equal to the free slots |
| Receiver.AscendingBounded | sel_repeat_read.c:200-232 | sorted offsets leave room for at most 30 packets at the loop head, so an insertion never drops one |
| Receiver.InsertAscending | sel_repeat_read.c:200-232 | insertion keeps the circular order |
| Receiver.FlushValid | sel_repeat_read.c:85-109 | after the flush no buffered packet is the expected one |
| Receiver.FlushShape | sel_repeat_read.c:85-109 | the flush delivers a prefix of the buffer of m packets and sends m + 1 ACKs |
| Receiver.FlushReplies | sel_repeat_read.c:85-109 | each ACK, mid-flush too, carries the next expected number and 31 minus the packets still buffered |
| Receiver.AnswersExactly | sel_repeat_read.c:76-117 | a valid packet draws one ACK for each packet it lets the receiver write, each with its number and window, and none when it is early, buffered or outside the window |
| Receiver.RejectedAnswers | sel_repeat_read.c:57-75 | any bytes that are no valid packet change nothing, and draw a NACK if and only if they are four bytes whose number is in the window |
| Receiver.ReplyOnTheWire | sel_repeat_read.c:157-193 | the eight bytes of an ACK and of a NACK |
| Receiver.DamageIsHarmless | linksim/link_sim.c:141-149 | a cut packet changes nothing and draws one NACK naming it when in the window; one with its last byte inverted changes nothing and draws nothing |
| ReceiveLoop.Reader.Receive | sel_repeat_read.c:54-118 | one pass of the array receiver has exactly the modelled new state and replies |
| ReceiveLoop.Reader.HandleExpected | sel_repeat_read.c:76-109 | writing, unbuffering and flushing; the freeing branch is never taken |
| ReceiveLoop.Reader.FlushLoop | sel_repeat_read.c:85-109 | the in-place flush loop equals the flush on values and leaves NULLs in front |
| ReceiveLoop.Reader.InsertPkt | sel_repeat_read.c:200-232 | the in-place sorted insertion, window size included, never losing a packet |
| ReceiveLoop.Reader.RemoveFromBuffer | sel_repeat_read.c:131-142 | a match frees the packet, counts it out of the window, and leaves its pointer in place |
| ReceiveLoop.Reader.SendReply | sel_repeat_read.c:157-193 | an ACK or NACK with the current window size is encoded and written |
| ReceiveLoop.Refresh | sel_repeat_read.c:238-255 | the leading NULLs move to the end |
| ReceiveLoop.ShiftIn | sel_repeat_read.c:217-226 | the packet goes to its slot, the rest moves up by one |
| ReceiveLoop.RefreshDropsNulls | sel_repeat_read.c:117 | refresh after a flush restores packets first, NULLs last |
| SeqNum.CompareIsOffset | sel_repeat_read.c:261-270 | the comparison is the difference of the circular distances from the last acknowledged number |
| SeqNum.NextNumber | sel_repeat_write.c:187 | the counter's step takes the number of packet k to that of packet k + 1, for every k |
| SeqNum.AckPositionExact | sel_repeat_write.c:91-106 | the position of an ACK for packet a in a window that starts at s is a - s - 1, across every wrap-around |
| SeqNum.NackPositionExact | sel_repeat_write.c:91-106 | the position of a NACK for packet k is k - s |
| SeqNum.AckPositionOutside | sel_repeat_write.c:91-106 | an ACK beyond the next packet has position a - s - 257, before the window |
| SeqNum.NackPositionOutside | sel_repeat_write.c:91-106 | a NACK for a packet not sent yet has position k - s - 256, before the window |
| Sender.AckBeyondCrashes | sel_repeat_write.c:221-238 | an ACK with any other number than those of packets base .. n makes the sender index outside its window |
| Sender.NackBeyondCrashes | sel_repeat_write.c:247-262 | so does a NACK with any other number than those of packets base .. n - 1 |
| Sender.RepliesAct | sel_repeat_write.c:205-276 | an encoded ACK or NACK has the effect of its fields, a DATA packet none |
| Sender.GarbageIgnored | sel_repeat_write.c:214 | what does not decode to an ACK or NACK changes nothing and sends nothing |
| Sender.AckDropsPrefix | sel_repeat_write.c:221-243 | an ACK for a leaves exactly packets a .. n - 1; a duplicate leaves the window as it is; the exit is taken exactly when it empties after end of file |
| Sender.LaterAckSubsumes | sel_repeat_write.c:221-243 | two ACKs in order have the effect of the later one |
| Sender.NackResends | sel_repeat_write.c:247-270 | a NACK resends the packet it names and changes only the advertised window |
| SendLoop.ModifyBuffer | sel_repeat_write.c:67-89 | the in-place shift: kept entries first, NULLs behind, the rest untouched |
| SendLoop.Writer.SendChunk | sel_repeat_write.c:169-203 | a chunk read becomes the next DATA packet, the last window entry and one datagram; the empty chunk ends the input |
| SendLoop.Writer.ResendExpired | sel_repeat_write.c:134-149 | exactly the expired entries are written, in window order |
| SendLoop.Writer.HandleReply | sel_repeat_write.c:205-276 | the new sender state and the datagrams written for a reply, which is a crash where the position lies outside the window |
| Codec.RoundTrip | packet_implem.c:31-179 | every sendable packet decodes from its encoding, whatever the structure held; at most 520 bytes, a multiple of 4 |
| Codec.StatusExactly | packet_implem.c:31-134 | for every status, the exact condition on the bytes under which decoding returns it |
| Codec.DataOnTheWire | packet_implem.c:136-179 | the bytes of a DATA packet: type 1 and window 0, number, length and CRC in network order, payload padded with zeros |
| Codec.DecodeSound | packet_implem.c:31-134 | an accepted datagram has size 8 + length + padding, length at most 512, matching CRC and the header's fields |
| Codec.ReencodeExact | packet_implem.c:31-179 | re-encoding an accepted datagram gives it back if and only if its padding is zero |
| Codec.NonzeroPaddingAccepted | packet_implem.c:92-133 | for every CRC some accepted datagram has non-zero padding |
| Codec.CutIsUnconsistent | packet_implem.c:34-54 | an encoding cut to four bytes decodes to E_UNCONSISTENT with its true number |
| Codec.InvertedIsCrcError | packet_implem.c:106-125 | an encoding with its last byte inverted decodes to E_CRC, for every CRC |
| Codec.DecodeIgnoresOld | packet_implem.c:31-134 | uninitialised fields change neither status nor number nor an accepted packet |
| Codec.HeaderReportedExactly | packet_implem.c:39-49 | when each header field is found in the structure after decoding |
| Codec.SignExtensionHarmless | packet_implem.c:46-49 | the sign extension changes the computed length only where both values are rejected |
| PktStruct.Pkt.Encode | packet_implem.c:136-179 | the buffer holds the wire format, nothing behind it changes; E_NOMEM exactly when the capacity modulo 65536 is too small |
| PktStruct.Pkt.Decode | packet_implem.c:31-134 | status and structure are those of the decoding function |
| PktStruct.Pkt.DecodeHeader | packet_implem.c:39-49 | shifts and masks on signed bytes read the header fields |
| PktStruct.ReadWord | packet_implem.c:108-118 | the shift-and-or loop reads the big-endian CRC |
| PktStruct.Pkt.SetPayload | packet_implem.c:255-277 | payload copied and padded with null bytes, or E_LENGTH and no change |
| PktStruct.Pkt.SetType | packet_implem.c:212-221 | only the three packet types are stored |
| PktStruct.Pkt.SetWindow | packet_implem.c:223-231 | only windows up to 31 are stored |
| PktStruct.Pkt.SetLength | packet_implem.c:239-247 | only lengths up to 512 are stored |
| Heap.MinQueue.Push | linksim/min_queue.c:82-114 | the multiset gains the element, the heap order holds, at most Level(n) levels are crossed |
| Heap.MinQueue.Pop | linksim/min_queue.c:132-153 | the root and only the root is removed, the heap order holds, at most Level(n) levels are crossed |
| Heap.MinQueue.Peek | linksim/min_queue.c:155-160 | the element returned is minimal for the compare function |
| Heap.MinQueue.HasChild | linksim/min_queue.c:117-130 | the smaller child, with 0 meaning none, right at the root too |
| Heap.StepUp | linksim/min_queue.c:104-110 | a heapify-up swap moves the only violation one level up |
| Heap.StepDown | linksim/min_queue.c:143-152 | a heapify-down swap moves the only violation one level down |
| Heap.RootIsMinimal | linksim/min_queue.c:155-160 | no element of a heap is below the root, for any strict weak order |
| Heap.LevelIsLogarithmic | linksim/min_queue.h:30-32 | Level(n) is floor(log2 n) + 1 |
| LinkSim.Link.DeliverDelayed | linksim/link_sim.c:103-123 | exactly the expired slots are sent, in (sec, usec) order, before all that stay; a failed write leaves its slot and the rest queued; the link goes on unless a write that was due failed for good |
| LinkSim.Link.SimulateLink | linksim/link_sim.c:134-185 | a datagram is dropped, or damaged at most once and then sent at once or queued with its due time |
| LinkSim.Link.GetQueueTimeout | linksim/link_sim.c:261-280 | none for an empty queue; otherwise the time until the head is due, but 1 ms if it is due already or within the second the skipped borrow loses; always positive |
| LinkSim.Link.ProcessIncoming | linksim/link_sim.c:188-243 | reverse traffic is relayed unaltered, strangers are ignored, short data ends the link, forward traffic is dropped, damaged, sent or queued as SimulateLink says |
| LinkSim.TimevalDiff | linksim/link_sim.c:75-86 | the exact difference, one second short exactly when the borrow is skipped |
| LinkSim.DeliveryTiming | linksim/link_sim.c:168-171 | a slot goes out strictly after its due time if its microseconds did not overflow, and never more than 998999 us early |
| LinkSim.NeverEarlyExactly | linksim/link_sim.c:168-171 | a slot is never sent before it is due if and only if its microseconds did not overflow |
| LinkSim.EarlyBoundIsTight | linksim/link_sim.c:168-171 | the 998999 us are reached |

## Left out

- Sockets, address resolution, waiting for the first client, `select`, option parsing and the `main` functions: they appear only as the choice of the next action.
- Clocks and the five-second test: any window entry may be resent at any time.
- Random draws, rates and the jitter formula: every outcome and every delay from 0 to 9999 ms is possible; a jitter of zero with a delay divides by zero in the C code.
- Allocation failure, freeing, leaks and failing reads; a new packet structure starts zeroed, which `Codec.DecodeIgnoresOld` shows cannot be noticed.
- Aliasing of packet pointers: the arrays hold packet values, so a freed packet that is still pointed to shows only as the result of `RemoveFromBuffer`.
- The polynomial of zlib's `crc32`.
- Big-endian hosts, where the byte-swapping calls are the identity.
- Loss or reordering of replies: the link relays them as they come.
- The chat program in chatUDP and the printing helpers.
- Safety.TransferIsSafe: on a delaying link it assumes that no datagram is mistaken, because the invariant fails there exactly when one is (`Safety.SoundExactly`).
- SendLoop.Writer.HandleReply: where the C code indexes outside its window array it only records the crash; what the code then reads or overwrites is not modelled. `Safety.RepliesAddressWindow` proves it cannot happen while nothing is mistaken.
- The delaying link as a class: `Protocol` lets any datagram in flight come next, which covers every order the delay heap can produce, without a proof that ties the heap's order to single deliveries.
- PktStruct.Pkt.Encode: requires a buffer of the full size, because the C code writes before it tests the capacity.
