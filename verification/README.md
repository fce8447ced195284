# H.264 transport, verified

A model, in Dafny, of a small real-time H.264 sender and receiver and of the data structures under them, with
proofs of what they promise.

The transport path, in both directions:

- An encoded frame is an Annex B byte stream. The parser cuts it into NAL units at its start codes (`AnnexB`).
- The packetizer puts short NAL units together into STAP-A packets and cuts long ones into FU-A packets, in the
  formats of sections 5.7.1 and 5.8 of RFC 6184 (`PacketPlan`, `PacketPayload`, `Packetizer`). How long a fragment
  gets is the business of the splitter (`Splitter`).
- Each packet gets a 7-byte header of its own format (`NonRtpPackets`, resting on the integer codecs of `ByteRw`) and
  a place in one long byte stream of offsets (`SendStreams`).
- The receiver collects packets by timestamp, orders them by offset, recognizes a full frame by its packet count, and
  puts the NAL units together again (`Reassembly`, `RecvFrames`, `RecvStreams`). `Acceptance` says which payloads it
  takes, whoever sent them.
- `FrameRoundTrip`, `SenderRuns`, `StreamRun` and `EndToEnd` connect the two ends: what was encoded and sent is what
  is delivered, whatever order the packets arrive in, exactly if no NAL unit stays alone in an aggregation group.
  `DeliveryOrder` says when a frame is delivered and when frames overtake each other, `Repeats` what repeated datagrams
  do.

Beside it:

- `HeapOrder`, `MinHeaps`, `TaskQueues`, `TaskQueueRuns`: an intrusive min-heap, the timed task queue on it, and the
  interleaved runs of its threads under a compare-and-swap lock and a 32-bit `Clock`.
- `Buffers`, `CowBuffers`, `CowRuns`: a growable byte buffer, copy-on-write handles that share buffers by reference
  count, and whole runs of operations on such handles.
- `Ssim`, `SsimIndexes`: structural similarity of two pictures from a rolling buffer of block sums.
- `Unwrappers`: wrap-around counters turned into growing ones.

Classes and methods follow the source statement by statement where it updates fields, arrays and maps in place. Each
is proved against a function or a predicate on values, and the theorems are about these: reference notions such as
"some split meets the capacities", "the bytes of independent handles", "the sums over the 64 pixels of a window" or
"the nearest number with this remainder", none of which looks like the code.

## Findings

What the code does where its comments, its parameters or a reader would say otherwise. Each is a theorem, with the
exact condition where there is one.

- The packetizer's constructor drops the limits it is given; 1200 bytes and no reductions are always in force
  (`NonRtpPacketizerH264.constructor`).
- A NAL unit of `cap - 3` to `cap` bytes is too short to be fragmented and too long to be aggregated, and ends in a
  failed check. With the limits in force these are 1197 to 1200 bytes (`OutcomeFrom`, `DeployedOutcome`).
- A NAL unit alone in its aggregation group is sent raw, and its frame does not arrive (`ArrivesExactly`). That is so
  for every frame that is one NAL unit of 1 to 1196 bytes (`SmallFrameIsLost`).
- The reduction for a packet that is first and last at once is applied to frames of one NAL unit only; an aggregate that
  makes up a whole frame can exceed it (`OnlyPacketExactly`, `OnlyPacketCanExceed`).
- After a refusal the packet count stays what it was while the queue is emptied. The two disagree exactly if, without
  aggregation, some NAL unit is longer than 1200 bytes and the first is not, as with NAL units of 1 and 1201 bytes
  (`NonRtpPacketizerH264.constructor`, `SingleNaluOutcome`, `ShortThenLong`).
- A frame that is whole is delivered before an older one of which nothing has arrived yet (`CompleteAscends`), and a
  repeated datagram is counted as a packet of its frame: unless the repeats of each frame are a multiple of 256, some
  frame is lost, cut short, doubled or held back (`RepeatsExactly`).
- A key frame shows the group number of the images before it; the next group opens with the image behind it, where the
  header's comment lets it open with the key frame (`GroupOpensBehindKeyFrame`).
- A frame whose packet count shows as 0, as it does for 256 packets, is never full (`NoCountNeverFull`).
- Once six frames were packetized, `SendPacket` sends nothing any more, not even what is queued (`LeavesExactly`,
  `SixStay`).
- Deadlines and the clock have 32 bits, and are compared as they are. A delayed task that is due after the clock has
  wrapped can run early, in a turn that read the clock before (`EarlyExactly`); when the clock wraps before a due task
  was taken out, that task stays until the clock has come round to its deadline (`OverdueExactly`, `OverdueIsWrapped`).
- Appending a copy-on-write handle to itself copies from freed memory if it is the only owner and outgrows its capacity
  (`AppendBuffer`, `MakeRoom`; `SetThenAppendSelf` is such a run). No other append does.
- A copy-on-write handle without a buffer and one with an empty buffer compare unequal (`EqualsComparesViews`), and
  appending nothing to the former, and only that, leaves it against its own consistency check (`AppendData`).
- An unwrapper is said never to return a negative number; after `UpdateLast` with a negative one it can, and then the
  8- and 16-bit ones differ from the 32-bit one (`NonNegativeExactly`, `ArithmeticsAgree`, `NegativeResult`).
- A payload type of 128 or more is written but not read back (`WireRoundTrip`).
- The similarity of pictures whose width in blocks is odd reads one block beyond the width, and so beyond the end of
  pictures without a margin; the result does not depend on it (`LastIsRead`, `TightExactly`, `SimilarityOfAlike`).
- Reading a negative number of 4 or more bytes into a wider integer shifts an int by its width or more
  (`SignedRoundTrip`).

## Reading guide

`dafny verify dfyconfig.toml` checks everything. Start from `EndToEnd.Transport`, `PacketPlan.OutcomeFrom`,
`Splitter.SplitIsBest`, `DeliveryOrder.AscendsExactly`, `CowRuns.Execute`, `Ssim.SimilarityRange`,
`TaskQueueRuns.RunsKeepInv`, `TaskQueueRuns.EarlyExactly`, `Unwrappers.RunIsExact` and `AnnexB.WriteThenParse`, and read
backwards.

Bytes are integers from 0 to 255; masks and shifts are written as arithmetic, and `H264.MasksAreArithmetic` and the
bitwise or of `ByteRw` say why. A `CHECK` that would end the program is an outcome of its own; a `DCHECK` is a
precondition, or, where whole runs are concerned, the end of the run. Ghost fields (`pending`, `queue`, `contents`,
`Memory`) record what the concrete fields stand for and are tied to them by invariants.

## Model

| member | source | states |
|---|---|---|
| `Splitter.SplitAboutEqually` | packetizer/non_rtp.cc:15-87 | returns the empty list exactly when no list of positive parts adds up to the payload and meets the first, last, single and middle capacities; otherwise the result is such a list, no such list is shorter, and the spare room of its packets differs by at most one unless an end packet is down to one byte |
| `Splitter.SplitIsBest` | packetizer/non_rtp.cc:15-87 | the same four facts about the splitting function the methods implement: sound, complete, minimal, about equal |
| `Splitter.FillPackets` | packetizer/non_rtp.cc:53-86 | the loop, with its running size and its clamps, yields the planned sizes from any plan |
| `Splitter.LoopStep` | packetizer/non_rtp.cc:59-84 | from any state of the loop, with the plan or its rest still to be filled, the bytes that the clamps of one turn choose lead to such a state again, whatever has been filled so far |
| `Splitter.ChosenSplit` | packetizer/non_rtp.cc:37-86 | whenever the payload has a byte for every packet, the division with its extra bytes gives an admissible, about equal split of exactly the chosen number of packets |
| `Splitter.NumPacketsIsLeast` | packetizer/non_rtp.cc:37-45 | the rounded-up quotient, raised to 2, is the least number of packets whose capacities hold payload and reductions |
| `Splitter.AdmissibleBounds` | packetizer/non_rtp.cc:37-52 | any admissible split in two or more packets has at least as many bytes as packets and leaves room for both reductions |
| `Splitter.MultiPacketSplit` | packetizer/non_rtp.cc:53-86 | following the plan packet by packet meets every capacity and uses up the payload |
| `Splitter.TailSplits` | packetizer/non_rtp.cc:59-84 | from any state the loop can reach after the first packet, the rest is split within the capacities |
| `PacketPlan.OutcomeFrom` | packetizer/non_rtp_h264.cc:68-99 | in non-interleaved mode generation succeeds exactly when every NAL unit is outside the gap `cap-3 <= len <= cap` and, if longer than its capacity, can be fragmented at all; it ends in the failing check exactly when some NAL unit is in the gap and all before it are packetizable |
| `PacketPlan.DeployedOutcome` | packetizer/non_rtp_h264.cc:34-48 | with the limits actually in force (1200, no reductions) generation fails its check exactly when some NAL unit has 1197 to 1200 bytes, and never refuses |
| `PacketPlan.SingleNaluOutcome` | packetizer/non_rtp_h264.cc:100-123 | without aggregation generation is refused exactly if some NAL unit is too long, and never fails a check; it has queued one packet for each NAL unit before the first such one |
| `PacketPlan.RefusedAfterPackets` | packetizer/non_rtp_h264.cc:43-47 | with the limits in force, and in either mode, a refusal comes after packets were queued exactly if, without aggregation, some NAL unit has more than 1200 bytes and the first has not |
| `PacketPlan.ShortThenLong` | packetizer/non_rtp_h264.cc:43-47 | NAL units of 1 and of 1201 bytes are such a frame |
| `PacketPlan.AggregationIsMaximal` | packetizer/non_rtp_h264.cc:182-217 | a group ends where it must: a prefix of NAL units fits the packet, headers and last reduction included, exactly if the group takes all of it |
| `PacketPlan.GroupMembers` | packetizer/non_rtp_h264.cc:198-215 | a group is empty exactly when its first NAL unit is in the gap, and no later member is in the gap or too long |
| `PacketPlan.FeasibleIsFragmentable` | packetizer/non_rtp_h264.cc:124-168 | fragmentation refuses exactly the NAL units that cannot be cut into two or more parts which, with two bytes of header each, keep the maximum and the reductions of their place in the frame; the parts it chooses are such a cut, and no such cut has fewer |
| `PacketPlan.RewrittenLimits` | packetizer/non_rtp_h264.cc:128-147 | the limits rewritten for the splitter admit exactly these cuts, for every position in the frame |
| `PacketPayload.FragmentsAreMany` | packetizer/non_rtp_h264.cc:78-92 | at every position the dispatch test and the rewritten single-packet reduction agree: a fragmented NAL unit yields at least two parts, which add up to its bytes behind the header |
| `PacketPayload.FuaPacketsOfTile` | packetizer/non_rtp_h264.cc:149-168 | the fragments cut the NAL unit after its header into adjacent non-empty pieces, the first marked as start only and the last as end only |
| `PacketPayload.FewestFragments` | packetizer/non_rtp_h264.cc:149-166 | the packets queued for a fragmented NAL unit are as few as any cut that keeps the packetizer's own limits has |
| `PacketPayload.StartAndEndBits` | packetizer/non_rtp_h264.cc:253-261 | in the payload bytes: the first payload alone has bit 7 of its second byte set, the last alone bit 6, none bit 5; type 28 and the NRI of the NAL unit in the first byte, its type in the second |
| `PacketPayload.AggregateHeader` | packetizer/non_rtp_h264.cc:227-228 | the first byte of an aggregation payload has type 24 and the F and NRI bits of its first NAL unit |
| `PacketPayload.PlanCompletes` | packetizer/non_rtp_h264.cc:68-123 | whatever the mode and the limits, the packets complete exactly the NAL units, in order: none lost, doubled or swapped |
| `PacketPayload.PlanFits` | packetizer/non_rtp_h264.cc:78-92 | every payload fits the maximum, and the first and the last packet of a frame their reductions, FU-A and STAP-A headers included; the packet of a frame of one NAL unit that needs only one respects the reduction for a single packet |
| `PacketPayload.OnlyPacketExactly` | packetizer/non_rtp.h:17-23 | the only packet of any generated frame respects the reduction meant for a packet that is first and last at once if and only if the frame has one NAL unit or the aggregate of all is small enough |
| `PacketPayload.OnlyPacketCanExceed` | packetizer/non_rtp_h264.cc:170-194 | with limits (100, 0, 0, 50), any two NAL units of 30 bytes go out in one packet of 65 |
| `PacketPayload.OnlyPacketIsAggregate` | packetizer/non_rtp_h264.cc:170-218 | a frame of several NAL units that goes out in one packet is the aggregate of all of them |
| `PacketPayload.AggregateFits` | packetizer/non_rtp_h264.cc:170-218 | the payload of a STAP-A packet, length fields included, stays within the maximum and the first and last reductions of its position; for the single reduction see OnlyPacketExactly |
| `PacketPayload.StapABodySize` | packetizer/non_rtp_h264.cc:219-247 | the aggregation payload has the size that the grouping loop reckoned with |
| `PacketPayload.FragmentsFit` | packetizer/non_rtp_h264.cc:124-169 | every FU-A packet of a NAL unit, with its two header bytes, stays within the limits of its position |
| `Packetizer.NonRtpPacketizerH264.constructor` | packetizer/non_rtp_h264.cc:34-48 | the limits passed in are not kept; on success the queue holds the planned packets; on refusal it is emptied while the packet count and the input queue keep what they had, so that a positive count stands beside an empty queue exactly if, without aggregation, some NAL unit is longer than 1200 bytes and the first is not |
| `Packetizer.NonRtpPacketizerH264.GeneratePacket` | packetizer/non_rtp_h264.cc:68-99 | the queue filled in place holds the units of the planned packets, one count per packet, and the outcome is the planned one |
| `Packetizer.NonRtpPacketizerH264.PacketizeAt` | packetizer/non_rtp_h264.cc:70-96 | one turn: which packets are queued, which NAL unit comes next, which outcome |
| `Packetizer.NonRtpPacketizerH264.PacketizeSingleNalu` | packetizer/non_rtp_h264.cc:100-123 | one unit, first and last at once, or refusal when the NAL unit exceeds its capacity |
| `Packetizer.NonRtpPacketizerH264.PacketizeFuA` | packetizer/non_rtp_h264.cc:124-169 | queues the fragments of the plan, or refuses |
| `Packetizer.NonRtpPacketizerH264.FragmentLimits` | packetizer/non_rtp_h264.cc:128-147 | the limits rewritten for the position of the NAL unit |
| `Packetizer.NonRtpPacketizerH264.PushFragments` | packetizer/non_rtp_h264.cc:156-166 | the loop with its moving offset queues the planned fragments |
| `Packetizer.NonRtpPacketizerH264.PacketizeStapA` | packetizer/non_rtp_h264.cc:170-218 | queues one group, its last unit marked, and returns the index after it |
| `Packetizer.NonRtpPacketizerH264.CollectGroup` | packetizer/non_rtp_h264.cc:178-214 | the greedy loop stops at the index of the plan |
| `Packetizer.NonRtpPacketizerH264.NextPacket` | packetizer/non_rtp_h264.cc:49-67 | succeeds exactly while packets are left; appends exactly the payload of the first of them to the packet handed in and keeps queue, input queue and counter in step, so that as many calls succeed as packets were counted and then both queues are empty |
| `Packetizer.NonRtpPacketizerH264.SendFront` | packetizer/non_rtp_h264.cc:53-64 | each kind of packet reaches its own branch: no fragment goes out through the branch for whole NAL units |
| `Packetizer.NonRtpPacketizerH264.NextAggregatePacket` | packetizer/non_rtp_h264.cc:219-247 | the STAP-A payload: header from the first NAL unit, then length and bytes of each |
| `Packetizer.NonRtpPacketizerH264.NextFragmentPacket` | packetizer/non_rtp_h264.cc:248-271 | the FU-A payload; the NAL unit leaves the input queue with its last fragment |
| `Packetizer.RawInFront` | packetizer/non_rtp_h264.cc:53-59 | a unit that is first and last at once stands for a whole raw packet: a single NAL unit or a group of one |
| `Packetizer.GroupInFront` | packetizer/non_rtp_h264.cc:60-61 | an aggregate unit in front starts a group of at least two |
| `Packetizer.FragmentInFront` | packetizer/non_rtp_h264.cc:62-64 | any other unit in front is one FU-A packet |
| `H264.MasksAreArithmetic` | packetizer/non_rtp_h264.cc:12-16 | the masks and bitwise ors on header bytes are the arithmetic used here |
| `NonRtpPackets.WireRoundTrip` | packetizer/non_rtp_packet.cc:23-88 | header and payload, whatever bit 7 of the buffer held, are read back unchanged if and only if the payload type has 7 bits |
| `NonRtpPackets.NonRtpPacket.WriteHeader` | packetizer/non_rtp_packet.cc:27-42 | the four setters together write the seven header bytes, joining the type to the top bit that the buffer held, and nothing else |
| `NonRtpPackets.NonRtpPacket.SetPayloadType` | packetizer/non_rtp_packet.cc:27-30 | joins the type to bit 7 of byte 0 and writes nothing else |
| `NonRtpPackets.TypeByteExactly` | packetizer/non_rtp_packet.cc:27-30 | the byte written shows the type in seven bits and the old top bit in the eighth; a type with that bit set stays as it is |
| `NonRtpPackets.NonRtpPacket.SetTimestamp` | packetizer/non_rtp_packet.cc:31-34 | writes bytes 1 to 4, big-endian, only |
| `NonRtpPackets.NonRtpPacket.AllocatePayload` | packetizer/non_rtp_packet.cc:52-55 | makes room exactly if the packet has it, keeping the header |
| `NonRtpPackets.NonRtpPacket.SetPayloadSize` | packetizer/non_rtp_packet.cc:56-64 | changes the size exactly if the buffer holds header and payload |
| `NonRtpPackets.NonRtpPacket.Parse` | packetizer/non_rtp_packet.cc:65-88 | refuses exactly wires shorter than a header, and otherwise holds header and payload |
| `ByteRw.ReadBigEndian` | base/byte_rw.h:87-92 | the generic loop of shifts and bitwise ors reads the positional value of any number of bytes |
| `ByteRw.ReadLittleEndian` | base/byte_rw.h:94-99 | the same for the other byte order |
| `ByteRw.WriteBigEndian` | base/byte_rw.h:178-183 | the generic loop writes the low bytes of the value and nothing else |
| `ByteRw.WriteLittleEndian` | base/byte_rw.h:185-190 | the same for the other byte order |
| `ByteRw.BigRoundTrip` | base/byte_rw.h:87-183 | what was written in n bytes reads back as the value modulo 2^(8n) |
| `ByteRw.LittleRoundTrip` | base/byte_rw.h:94-190 | the same for the other byte order |
| `ByteRw.BigWriteAfterRead` | base/byte_rw.h:87-183 | writing what was read restores the bytes |
| `ByteRw.LittleWriteAfterRead` | base/byte_rw.h:94-190 | the same for the other byte order |
| `ByteRw.OrAdds` | base/byte_rw.h:87-99 | the bitwise or of the loops, defined bit by bit, is addition where the bits do not overlap |
| `ByteRw.OrdersMirror` | base/byte_rw.h:178-190 | the two byte orders are mirror images |
| `ByteRw.TwoByteReads` | base/byte_rw.h:275-286 | the two-byte specializations read what the generic loops read |
| `ByteRw.FourByteReads` | base/byte_rw.h:306-325 | the four-byte specializations read what the generic loops read |
| `ByteRw.EightByteReads` | base/byte_rw.h:349-369 | the eight-byte specializations read what the generic loops read |
| `ByteRw.SpecializedWrites` | base/byte_rw.h:289-384 | the specialized big-endian writers write what the generic loop writes |
| `ByteRw.SpecializedLittleWrites` | base/byte_rw.h:297-396 | and so do the little-endian ones |
| `ByteRw.HeaderReaders` | packetizer/non_rtp_packet.cc:82 | the codecs used for packet headers and length fields are instances of the generic ones, reading |
| `ByteRw.HeaderWriters` | packetizer/non_rtp_packet.cc:33 | and writing |
| `ByteRw.SignExtensionIsCorrect` | base/byte_rw.h:104-164 | reading bytes into a signed integer of any width gives their two's complement value wherever the source is defined: for a whole word, for at most 3 bytes, and for any number of bytes of a non-negative value |
| `ByteRw.ExtendedValue` | base/byte_rw.h:152-164 | the sign bit of the bytes read decides whether the word is filled with ones, and where the result lies |
| `ByteRw.SignedRoundTrip` | base/byte_rw.h:195-219 | a signed value that fits the bytes is read back as written, in both byte orders, wherever reading is defined, and it is undefined exactly for negative values in 4 or more bytes that are not the whole word |
| `RecvFrames.RecvFrame.OnNewPacket` | stream/rtc_recv_stream.cc:64-73 | the first packet fixes the frame's size and timestamp; a second packet at an offset does not replace the first, yet is counted |
| `RecvFrames.FirstPacketDecides` | stream/rtc_recv_stream.cc:64-70 | type, count and time are those of the first packet; while no packet has shown a count, the next one decides |
| `RecvFrames.AddOldPacket` | stream/rtc_recv_stream.cc:71-72 | a packet at an offset already there changes nothing but the count, which wraps at 256 |
| `RecvFrames.NoCountNeverFull` | stream/rtc_recv_stream.cc:74-82 | a frame whose packets show a count of 0 is never full |
| `StreamRun.FullFrameDelivers` | stream/rtc_recv_stream.cc:74-111 | a frame held is taken for full exactly when every packet of the frame sent has arrived, and is then delivered with its packets in stream order |
| `RecvFrames.RecvFrame.GetDelivableSize` | stream/rtc_recv_stream.cc:91-111 | parses the packets in offset order, stopping at the first that fails; size 0 if one fails |
| `RecvFrames.RecvFrame.SumDeliverable` | stream/rtc_recv_stream.cc:102-108 | start codes and lengths of all NAL units, plus the stripped header of fragmented ones |
| `RecvFrames.RecvFrame.ParserStapAToRecvNalu` | stream/rtc_recv_stream.cc:112-142 | the offset-advancing loop; a length past the end is recorded as it is, and only reading a length or a header past the end is an overread |
| `RecvFrames.RecvFrame.ParserFuAToRecvNalu` | stream/rtc_recv_stream.cc:143-198 | first fragments open a NAL unit, others extend the last one of the same timestamp; the start code length by the cases of the source |
| `RecvFrames.RecvFrame.ParserPacketToRecvNalu` | stream/rtc_recv_stream.cc:199-209 | only types 24 and 28 are parsed |
| `RecvFrames.InOrderOf` | stream/rtc_recv_stream.cc:94 | the order of the map is the order of the offsets, in whatever order the packets came |
| `Reassembly.ParseAppend` | stream/rtc_recv_stream.cc:91-100 | parsing packet by packet is parsing the list |
| `FrameRoundTrip.ArrivesExactly` | stream/rtc_recv_stream.cc:91-209 | for any limits up to 65536 and NAL units of any type: parsing the payloads of a generated frame yields its NAL units in order, with types and bytes, if and only if grouping, followed over the lengths from group start to group start, leaves none of them alone |
| `FrameRoundTrip.FrameArrives` | stream/rtc_recv_stream.cc:91-111 | parsing what was generated yields the NAL units in order; NAL unit i has a start code of 4 bytes exactly if it was aggregated and is SPS or PPS, or was fragmented, is the first and is not SEI; the size delivered is the total length, 3 for each NAL unit and 1 more for each of these |
| `FrameRoundTrip.ReceivedSize` | stream/rtc_recv_stream.cc:112-196 | start codes and size of every frame without a lone NAL unit, told by its NAL units alone |
| `Acceptance.FrameExactly` | stream/rtc_recv_stream.cc:91-111 | any payloads, from any sender: a frame is accepted if and only if every payload is an aggregate with no length and no first byte missing, or a fragment of two bytes or more that starts a NAL unit or has some payload of two bytes or more before it; it is rejected, rather than read beyond its end, if and only if the first payload that is neither is of another type |
| `Acceptance.AggregateExactly` | stream/rtc_recv_stream.cc:112-142 | any aggregate is read from cut to cut, each cut two bytes and a length behind the one before; the unit in between has the type of its first byte, the length as it was given and the bytes there are |
| `Acceptance.FragmentExactly` | stream/rtc_recv_stream.cc:143-196 | a fragment with the start bit adds a NAL unit, any other goes to the end of the last one |
| `Acceptance.StrayFragment` | stream/rtc_recv_stream.cc:143-196 | a fragment without a second byte or without a NAL unit before it is read beyond the end, one behind a NAL unit of another time is rejected |
| `FrameRoundTrip.LoneNaluIsRejected` | stream/rtc_recv_stream.cc:199-209 | if no NAL unit shows the type of an aggregate or a fragment itself, the receiver accepts the frame if and only if none stays alone |
| `FrameRoundTrip.SmallFrameIsLost` | packetizer/non_rtp_h264.cc:54-59 | with the limits in force every frame of one NAL unit of 1 to 1196 bytes is generated and does not arrive |
| `FrameRoundTrip.AggregatedExactly` | packetizer/non_rtp_h264.cc:195-217 | the lengths tell which packets are groups of one |
| `FrameRoundTrip.GatheredFromPacket` | stream/rtc_recv_stream.cc:112-209 | whatever type a payload shows, at least its first byte never ends up in a NAL unit |
| `PacketPlan.AloneExactly` | packetizer/non_rtp_h264.cc:198-215 | a NAL unit stays alone in its group exactly if it is outside the gap and is the last or, with the next one, too large |
| `FrameRoundTrip.FuHeaderRecoverable` | packetizer/non_rtp_h264.cc:253-261 | the NAL header is `(indicator & 0xE0) + (fu_header & 0x1F)` in every fragment |
| `FrameRoundTrip.ParseAggregate` | stream/rtc_recv_stream.cc:112-142 | parsing a STAP-A payload gives back its NAL units |
| `FrameRoundTrip.ParseFragments` | stream/rtc_recv_stream.cc:143-198 | parsing the fragments of a NAL unit in order gives it back as one |
| `RecvStreams.RTCRecvStream.OnNewData` | stream/rtc_recv_stream.cc:218-265 | files the packet under its timestamp, drops what does not parse, then delivers; the new frames and deliveries are functions of the old ones |
| `RecvStreams.AcceptTouches` | stream/rtc_recv_stream.cc:218-262 | a datagram of fewer than 7 bytes changes nothing; any other changes the frame with the timestamp in its bytes 1 to 4 and no other |
| `RecvStreams.RTCRecvStream.CheckDeliverable` | stream/rtc_recv_stream.cc:266-288 | delivers in timestamp order as long as the oldest frame is full, and leaves the rest |
| `RecvStreams.RTCRecvStream.DeliverFront` | stream/rtc_recv_stream.cc:271-281 | one delivery removes exactly the frame delivered |
| `StreamRun.Receive` | stream/rtc_recv_stream.cc:218-288 | a run of datagrams through the stream object is the run of the functions the theorems speak of |
| `StreamRun.RunKeepsInv` | stream/rtc_recv_stream.cc:218-288 | after every prefix of any schedule of distinct packets, each frame sent is held with exactly the packets that arrived, or was delivered; nothing else is |
| `StreamRun.DeliveriesKeepInv` | stream/rtc_recv_stream.cc:266-288 | delivering keeps that, whatever frames are full |
| `StreamRun.NothingLeft` | stream/rtc_recv_stream.cc:266-288 | once every packet has arrived, in any order, no frame is held back |
| `StreamRun.CompleteRun` | stream/rtc_recv_stream.cc:218-288 | and the deliveries are the sent frames with their packets in stream order |
| `DeliveryOrder.DeliveredExactly` | stream/rtc_recv_stream.cc:266-288 | over any schedule, a frame has been delivered if and only if after some arrival it was whole and so was every older frame of which any packet had arrived |
| `DeliveryOrder.AscendsExactly` | stream/rtc_recv_stream.cc:266-288 | over any schedule, deliveries come in the order of timestamps if and only if no frame that is delivered was overtaken: a newer one was whole, with all older ones heard of, before any of its packets arrived |
| `DeliveryOrder.CompleteAscends` | stream/rtc_recv_stream.cc:266-288 | when every packet arrives, in order if and only if nothing was overtaken |
| `DeliveryOrder.DrainAscends` | stream/rtc_recv_stream.cc:266-281 | what one arrival delivers comes in the order of timestamps |
| `Repeats.RepeatsExactly` | stream/rtc_recv_stream.cc:66-82 | when every packet arrives, some perhaps repeatedly: without repeats every frame is delivered once and whole and none is left; if that happens, the repeats of each frame are a multiple of 256; so with fewer than 256 a frame it happens if and only if there are none |
| `Repeats.RunBalances` | stream/rtc_recv_stream.cc:218-288 | conservation, over any run with repeats: the arrivals of a frame are, modulo 256, its deliveries times its packets plus what is counted of it in the frame held |
| `SendStreams.RTCSendStream.PacketizeImage` | stream/rtc_send_stream.cc:62-131 | the packets of an image are queued at the end of the stream in order, tiling it without a gap, each with the header of the image and its count; behind it the group number grows if it was a key frame and not the first image |
| `SendStreams.RTCSendStream.QueuePackets` | stream/rtc_send_stream.cc:104-122 | as many packets as were counted are queued, and the packetizer is then empty |
| `SendStreams.RTCSendStream.HasDataToSend` | stream/rtc_send_stream.cc:48-50 | true exactly if a packet is queued |
| `SendStreams.RTCSendStream.SendPacket` | stream/rtc_send_stream.cc:132-150 | sends everything queued in stream order; from the sixth frame on, nothing any more |
| `SendStreams.RTCSendStream.SendFirst` | stream/rtc_send_stream.cc:137-147 | the packet with the least offset is the next one of the stream |
| `SendStreams.SendableIsGenerated` | stream/rtc_send_stream.cc:95-99 | an image without NAL units that are empty or of 1197 to 1200 bytes is packetized |
| `SendStreams.TileBounds` | stream/rtc_send_stream.cc:113-117 | queued packets lie between the offset sent and the offset queued, each after the one before |
| `EndToEnd.Transport` | stream/rtc_send_stream.cc:29-36 | drives both objects: for any calls of PacketizeImage and SendPacket and any order in which the network delivers what was sent, the receiver ends up holding nothing, with one delivery for each image that left and no other; such an image arrives, its NAL units in order with types and bytes, if and only if it has no lone NAL unit; and if it was written from a canonical list, it arrives as that list under the same condition on the list |
| `EndToEnd.TransportRoundTrip` | stream/rtc_send_stream.cc:62-150 | the same about the frames sent and every schedule of arrivals of their packets |
| `EndToEnd.OrderIsSchedule` | stream/rtc_send_stream.cc:136-148 | any reordering of the datagrams sent is such a schedule |
| `SenderRuns.Run` | stream/rtc_send_stream.cc:62-150 | after any calls, what was sent and what is still queued are the packets of the images, in stream order without a gap, and the images gone are a prefix; every datagram, as the receiver reads it, shows type 96 exactly for a key frame and 97 otherwise, the time and the number of packets of its image, and as its group the number of key frames between the first image and this one, modulo 256 |
| `SenderRuns.GroupOpensBehindKeyFrame` | packetizer/non_rtp_packet.h:15-16 | the group shown changes from an image to the next if and only if the former is a key frame and not the first image: a key frame is in the group before it |
| `SenderRuns.LeavesExactly` | stream/rtc_send_stream.cc:132-150 | an image leaves if and only if SendPacket is called after it was packetized and while at most five images were |
| `SenderRuns.SixStay` | stream/rtc_send_stream.cc:133-135 | when six images are packetized before the first send, none ever leaves, whatever comes after |
| `EndToEnd.DeliveredOnce` | stream/rtc_recv_stream.cc:271-281 | each frame is delivered exactly once |
| `EndToEnd.TransmittedFrame` | stream/rtc_send_stream.cc:104-121 | what the sender queues for an image is a frame whose delivery yields the NAL units of the image exactly if none is alone |
| `EndToEnd.EncodedFrameArrives` | h264parser/h264_parser.cc:13-74 | whatever canonical list of NAL units the data of an image was written from: deliveries that report the image hold exactly these NAL units, types and bytes in order, if and only if grouping over their lengths leaves none alone |
| `AnnexB.H264Parser.LocateNalu` | h264parser/h264_parser.cc:36-74 | moves to the start code and gives the sizes of the next NAL unit; fails at a bare start code at the end |
| `AnnexB.H264Parser.AdvanceToNextNalu` | h264parser/h264_parser.cc:13-35 | yields the next NAL unit and moves past it, or ends |
| `AnnexB.FindStartCode` | h264parser/h264_parser.cc:75-122 | the skipping search with its backtrack finds the first start code, 3 or 4 bytes long, or none; on failure the offset is where the search stopped |
| `AnnexB.SkipTo` | h264parser/h264_parser.cc:84-93 | skipping to the next byte 1 misses no start code |
| `AnnexB.ParseAll` | stream/rtc_send_stream.cc:79-86 | the parsing loop yields all NAL units of the stream |
| `AnnexB.WriteThenParse` | tools/dropper.cc:92-110 | parsing what was written gives the NAL units back if and only if no NAL unit holds a start code or ends in a zero byte that the next start code would absorb |
| `AnnexB.ParseOfWrite` | h264parser/h264_parser.cc:13-122 | the same with its condition, as an equation |
| `AnnexB.ParseThenWrite` | h264parser/h264_parser.cc:13-122 | for any stream: writing what was parsed reproduces it from its first start code on, less a bare start code at the end |
| `AnnexB.ParseDecomposes` | h264parser/h264_parser.cc:13-122 | any stream is bytes without a start code, the parsed NAL units as written, and possibly a bare start code; the parsed list is canonical |
| `AnnexB.CalculateFrameSize` | tools/dropper.cc:39-47 | adds up start code sizes and lengths, whatever the start code sizes say |
| `AnnexB.SizeOfWritten` | tools/dropper.cc:92-110 | that is the length of what is written, for start codes of 3 and 4 bytes |
| `AnnexB.WriteFrame` | tools/dropper.cc:92-110 | copies exactly that into the buffer; gives up exactly at a start code size other than 3 and 4 |
| `MinHeaps.MinHeap.Push` | base/min_heap.h:83-91 | the event is added and nothing else changes; heap order, back-indices and distinctness hold again |
| `MinHeaps.MinHeap.Pop` | base/min_heap.h:93-104 | returns an event with the least deadline and removes exactly it; null exactly when empty |
| `MinHeaps.MinHeap.Erase` | base/min_heap.h:112-128 | removes exactly the event named, at any position, root and last included; refuses exactly the events that have left the heap |
| `MinHeaps.MinHeap.Reserve` | base/min_heap.h:130-145 | capacity doubles from 8 on, or is what was needed; the contents stay |
| `MinHeaps.MinHeap.ShiftUp` | base/min_heap.h:147-158 | the hole-moving loop, in place, computes the function below |
| `MinHeaps.MinHeap.ShiftDown` | base/min_heap.h:160-174 | likewise downwards, with the unusual index arithmetic of the source |
| `HeapOrder.UpIsHeap` | base/min_heap.h:147-158 | moving a hole up restores heap order |
| `HeapOrder.DownIsHeap` | base/min_heap.h:160-174 | moving a hole down restores heap order |
| `HeapOrder.RootIsLeast` | base/min_heap.h:93-104 | in a heap nothing is due before the root |
| `HeapOrder.ErasedIsHeap` | base/min_heap.h:112-128 | erasing at any position leaves a heap, whichever way the last element has to move |
| `HeapOrder.ErasedIsGone` | base/min_heap.h:112-128 | and exactly that element is gone: as a multiset, and from a heap without duplicates altogether |
| `HeapOrder.PushedIsHeap` | base/min_heap.h:83-91 | pushing leaves a heap with one element more |
| `TaskQueues.TaskQueue.Drain` | base/task_queue.cc:53-69 | a turn takes out exactly the events whose deadline the reading of the clock has reached, in deadline order, and leaves exactly the others |
| `TaskQueues.TaskQueue.PostDelayedTask` | base/task_queue.cc:85-93 | adds one event whose deadline is the reading of the clock plus the delay, cut to 32 bits |
| `TaskQueues.TaskQueue.PostTask` | base/task_queue.cc:80-84 | posts an event whose deadline is the reading itself |
| `TaskQueues.TaskQueue.Clear` | base/task_queue.cc:28-34 | empties the heap |
| `TaskQueueRuns.RunsKeepInv` | base/task_queue.cc:48-93 | for any number of posting threads and the worker, in every state of every run: mutual exclusion, a heap that is in order but for what the thread inside is doing to it, conservation of events, each posted once, deadlines kept by the readings |
| `TaskQueueRuns.StepShapes` | base/min_heap.h:83-174 | every half of a push or a pop leaves the sequence of events in order, in order around its root, or in order but for the last one |
| `TaskQueueRuns.PopIsErased` | base/min_heap.h:93-104 | the two halves of a pop are the erasure of the root in the heap proved above |
| `TaskQueueRuns.TopIsEarliest` | base/task_queue.cc:58-60 | the event on top, which the worker looks at, has the least deadline |
| `TaskQueueRuns.LockProtectsHeap` | base/lock.h:2-36 | the lock word is 1 exactly while one thread is inside, and whenever it is 0 the sequence of events is a heap |
| `TaskQueueRuns.NoTaskTwice` | base/task_queue.cc:48-79 | no task runs twice or unposted, and posted = carried by threads + in the heap + drained but not yet run + run |
| `TaskQueueRuns.TurnInOrder` | base/task_queue.cc:70-76 | of two tasks run in the same turn, the one run first has no later deadline |
| `TaskQueueRuns.PostedNow` | base/task_queue.cc:85-95 | an event bears the time at which its post read the clock, and a delay of 32 bits |
| `TaskQueueRuns.EarlyExactly` | base/task_queue.cc:53-63 | an event can be run before it is due, in some run, if and only if it has a delay and is due after the 32-bit clock has wrapped |
| `TaskQueueRuns.EarlyIsWrapped` | base/task_queue.cc:85-93 | no event without a delay, and none due before the clock wraps, ever runs early, in any run |
| `TaskQueueRuns.OverdueExactly` | base/task_queue.cc:57-67 | an event can be left in the heap by a turn that began when it was due, in some run, if and only if the clock does not show 0 when it is due |
| `TaskQueueRuns.OverdueIsWrapped` | base/task_queue.cc:57-67 | that happens only when the clock has wrapped since and not yet come round to the deadline again |
| `TaskQueueRuns.DrainSplits` | base/task_queue.cc:57-68 | what a turn takes out and what it leaves is told apart by the readings at the due time and at the start of the turn |
| `Clock.DeadlineIsReading` | base/base_time.cc:61-75 | the deadline kept is what the clock shows at the due time |
| `TaskQueueRuns.StepConserves` | base/task_queue.cc:48-93 | no step of any thread loses or doubles an event |
| `TaskQueueRuns.StepExcludes` | base/lock.h:18-23 | every step keeps mutual exclusion |
| `Buffers.Buffer.AppendData` | base/buffer.h:258-266 | the contents become old contents and new bytes; size, capacity and bytes copied move as the growth rule says |
| `Buffers.Buffer.CopyIn` | base/buffer.h:263 | copying from an array, which may be the one copied into, adds its first bytes to the contents |
| `Buffers.Buffer.SetData` | base/buffer.h:204-212 | the contents become the new bytes, with the capacity rule of an append |
| `Buffers.Buffer.SetSize` | base/buffer.h:320-327 | keeps what fits of the contents |
| `Buffers.Buffer.EnsureCapacityWithHeadroom` | base/buffer.h:355-375 | keeps the contents, grows to max(needed, 1.5 times) only when needed, and has a new array exactly then |
| `Buffers.Buffer.Release` | base/atomic_ops.h:163-169 | the release that drops the count to 0 frees the buffer, no other |
| `Buffers.AppendingIsLinear` | base/buffer.h:355-375 | over any run of appends to an empty buffer reallocations copy at most 4 times the final size, rounding of odd capacities included |
| `Buffers.AppendAll` | base/buffer.h:258-266 | a run of appends through the object: the contents are all that was appended, in order, at that cost |
| `Buffers.AppendsKeepAmortized` | base/buffer.h:258-266 | from any amortized state on: at most 3 times the capacity and 4 times the size |
| `Buffers.WithoutHeadroomIsQuadratic` | base/buffer.h:361-367 | growing byte by byte without the headroom copies k(k-1)/2 bytes |
| `CowRuns.Execute` | base/copy_on_write_buffer.h:84-229 | for any list of operations on any number of handles, appends to oneself included: every handle shows at every moment what a handle with bytes of its own would show, and the memory invariant holds; the run stops only at an operation that fails a check, or at the one that AppendBuffer shows to read an array no longer there |
| `CowRuns.SetThenAppendSelf` | base/copy_on_write_buffer.h:207-209 | bytes set in a new handle, then the handle appended to itself: the array read is no longer there, whatever the bytes |
| `CowRuns.Step` | base/copy_on_write_buffer.h:84-229 | one operation does to the views what it does to independent values, and keeps the invariant |
| `CowRuns.ChangeThrough` | base/copy_on_write_buffer.h:138-220 | a change through one handle is seen through that handle only |
| `CowRuns.Check` | base/copy_on_write_buffer.h:140 | the checks of the source, evaluated on the handles, are those of the views |
| `CowBuffers.CopyOnWriteBuffer.Repoint` | base/scoped_refptr.h:55-63 | after any re-pointing every count is the number of handles, and a buffer is freed exactly when it has none |
| `CowBuffers.CopyOnWriteBuffer.CloneDataIfReferenced` | base/copy_on_write_buffer.cc:102-110 | afterwards the handle is the only owner and shows what it showed; nothing is copied if it was, and otherwise the copy has the capacity asked for |
| `CowBuffers.CopyOnWriteBuffer.Assign` | base/copy_on_write_buffer.h:116-123 | shares the other's buffer; assigning to itself changes nothing |
| `CowBuffers.CopyOnWriteBuffer.Move` | base/copy_on_write_buffer.h:125-130 | takes the other's buffer and leaves it null; moving to itself changes nothing |
| `CowBuffers.CopyOnWriteBuffer.Swap` | base/copy_on_write_buffer.h:227-229 | exchanges the buffers, no count changes |
| `CowBuffers.CopyOnWriteBuffer.CopyOf` | base/copy_on_write_buffer.cc:21-22 | the new handle shares the buffer |
| `CowBuffers.CopyOnWriteBuffer.Destroy` | base/scoped_refptr.h:35-38 | the handle is gone and its buffer freed if it was the last |
| `CowBuffers.CopyOnWriteBuffer.SetData` | base/copy_on_write_buffer.h:153-163 | all three cases: null, shared, owned |
| `CowBuffers.CopyOnWriteBuffer.AppendData` | base/copy_on_write_buffer.h:185-200 | the handle shows old and new bytes, all others what they showed; it is consistent afterwards exactly unless it had no buffer and nothing was appended |
| `CowBuffers.CopyOnWriteBuffer.AppendBuffer` | base/copy_on_write_buffer.h:207-209 | likewise with the bytes of any handle. They are read, after cloning and growing, from the array they were in before; that array is still there exactly unless the handle is appended to itself, is the only owner and has too little room. Where it is there, the handle shows its own bytes and those |
| `CowBuffers.CopyOnWriteBuffer.MakeRoom` | base/copy_on_write_buffer.h:193-195 | cloning and growing, before anything is copied: the array of the appended handle is held by a buffer that is not freed exactly unless it is the sole owner's own and was outgrown; no handle shows anything else |
| `CowBuffers.CopyOnWriteBuffer.GrowOwn` | base/buffer.h:355-375 | a sole owner keeps its array exactly if the capacity suffices; otherwise no buffer holds the old one any more |
| `CowBuffers.CopyOnWriteBuffer.OtherOwner` | base/atomic_ops.h:177 | a count other than one means some other handle has the same buffer |
| `CowBuffers.CopyOnWriteBuffer.SetSize` | base/copy_on_write_buffer.cc:53-71 | keeps what fits, in all cases |
| `CowBuffers.CopyOnWriteBuffer.EnsureCapacity` | base/copy_on_write_buffer.cc:73-88 | only a handle without a buffer changes what it shows |
| `CowBuffers.CopyOnWriteBuffer.Clear` | base/copy_on_write_buffer.cc:90-100 | empties this handle only, and its capacity stays |
| `CowBuffers.CopyOnWriteBuffer.CapacityFor` | base/copy_on_write_buffer.h:185-200 | what SetData, AppendData and SetSize leave of capacity: never less than before or than needed, no change while that suffices, and otherwise what is needed, or three halves of what there was if the owner is alone |
| `CowBuffers.CopyOnWriteBuffer.Write` | base/copy_on_write_buffer.h:138-141 | writing through operator[] changes one byte of one handle |
| `CowBuffers.CopyOnWriteBuffer.EqualsComparesViews` | base/copy_on_write_buffer.cc:44-51 | operator== holds exactly for equal views; a handle without a buffer differs from one with an empty buffer |
| `CowBuffers.CopyOnWriteBuffer.Exclusive` | base/atomic_ops.h:177 | a count of one means no other handle sees the buffer or its array |
| `CowBuffers.OwnersMove` | base/scoped_refptr.h:55-63 | what moving one handle does to the number of owners of any buffer |
| `CowBuffers.CopyOnWriteBuffer.TargetIsLive` | base/copy_on_write_buffer.h:237 | the buffer of a live handle is never freed and always consistent |
| `Ssim.PixelSsimWxh` | tools/psnr.c:67-91 | the two swapped row buffers and the groups of four give the mean of the indices of all (w-1)(h-1) windows, each summed directly over its 8x8 pixels and counted once, for any size of picture all of whose bytes read are there; not a number where there are no windows |
| `Ssim.ReadableExactly` | tools/psnr.c:84-85 | that requirement is exact: it holds if and only if every byte the loops read is within the pictures |
| `Ssim.LastIsRead` | tools/psnr.c:84-85 | byte 4 Even(w) - 1 + (4h - 1) stride is read, for an odd number of blocks the last of a block beyond the width |
| `Ssim.ReadsEndThere` | tools/psnr.c:25-35 | and none behind it |
| `Ssim.TightExactly` | tools/psnr.c:84-85 | pictures without a margin are read within their bounds if and only if their number of blocks in a row is even |
| `Ssim.SimilarityOfAlike` | tools/psnr.c:67-91 | the result depends on the w by h blocks alone, not on what is read beyond |
| `Ssim.SimilarityRange` | tools/psnr.c:67-91 | the mean is in (-1, 1], and 1 if and only if the pictures agree on every pixel compared |
| `Ssim.Roll` | tools/psnr.c:81-86 | swapping before each refill leaves block rows y and y-1 in the two buffers |
| `Ssim.FillRow` | tools/psnr.c:84-85 | filling two blocks at a time covers the row, odd widths included |
| `Ssim.SumRow` | tools/psnr.c:87-88 | groups of at most four visit every window of the row exactly once |
| `Ssim.SsimEnd4` | tools/psnr.c:55-65 | adds the indices of adjacent windows |
| `Ssim.Core4x4x2` | tools/psnr.c:17-43 | writes the sums of two adjacent 4x4 blocks and nothing else |
| `Ssim.BlockSums` | tools/psnr.c:25-35 | the sums over the 16 pixels of a block |
| `Ssim.WindowIsFourBlocks` | tools/psnr.c:60-63 | the four block sums added are the direct sums over the 8x8 window |
| `Ssim.WindowVariance` | tools/psnr.c:49-50 | the variance term is never negative and bounds twice the covariance, by the Cauchy-Schwarz inequality |
| `Ssim.RectSquares` | tools/psnr.c:49-50 | that inequality for the sums and the differences of any rectangle of pixels |
| `Ssim.IntermediatesFit` | tools/psnr.c:49-52 | every integer intermediate of the index fits a 32-bit int |
| `Ssim.IndexRange` | tools/psnr.c:45-53 | the divisor is positive and the exact quotient lies in (-1, 1] |
| `Ssim.IndexIsOne` | tools/psnr.c:45-53 | and is 1 if and only if the 64 pixels agree |
| `Ssim.NoWindows` | tools/psnr.c:79-90 | where the source divides by 0 the sum is 0 too |
| `Unwrappers.Unwrapper.UnwrapWithoutUpdate` | base/wrapper.h:34-53 | in promoted and in wrapping arithmetic, from any last value, the branches compute the specified value |
| `Unwrappers.Unwrapper.Unwrap` | base/wrapper.h:61-65 | returns that value, remembers it, and tells exactly when it is not negative |
| `Unwrappers.UnwrapIsNearest` | base/wrapper.h:34-53 | the result is the non-negative number with the given remainder that is nearest to the last value, ties going up exactly if the wrapped value is greater; there is only one such number |
| `Unwrappers.NonNegativeExactly` | base/wrapper.h:23-24 | the result is not negative if and only if the last value is not, or is at most the range below 0 and the value is less than it, cropped, and, in promoted arithmetic, newer |
| `Unwrappers.UnwrapIsCongruent` | base/wrapper.h:34-53 | from any last value, the result wraps back to the value |
| `Unwrappers.FromNegative` | base/wrapper.h:34-53 | from a negative last value the result is the next candidate upwards or, for an older and smaller value in promoted arithmetic, the one just below |
| `Unwrappers.ArithmeticsAgree` | base/wrapper.h:16-20 | 8- and 16-bit types, promoted before subtracting, and 32-bit ones, wrapping, agree in IsNewer always, and in the step taken if and only if the last value is not negative or the value is newer or not less than it, cropped |
| `Unwrappers.NegativeResult` | base/wrapper.h:56-58 | from a last value of -1, 8 and 16 bits give a negative result and 32 bits do not; 8 bits need not |
| `Unwrappers.StepIsExact` | base/wrapper.h:34-53 | a move is followed if and only if it is shorter than half the range, exactly half and in the direction of the tie rule, or upwards and within the first range |
| `Unwrappers.RunIsExact` | base/wrapper.h:61-65 | a run of non-negative numbers is recovered from their remainders if and only if every move is followed |
| `Unwrappers.SmallMovesAreExact` | base/wrapper.h:61-65 | in particular if it starts in range and every move is shorter than half the range |
| `Ssim.SimilarityIsSymmetric` | tools/psnr.c:45-91 | exchanging the pictures changes nothing |
| `Ssim.AddPixel` | tools/psnr.c:28-34 | one turn of the innermost loop adds the sums of that pixel |
| `Ssim.WindowIndex` | tools/psnr.c:45-53 | the index of a window, with its range and its condition for 1 |
| `SsimIndexes.ConstantsAreRounded` | tools/psnr.c:47-48 | 416 and 235963 are the two constants, rounded to the nearest integer |
| `SsimIndexes.IndexExactly` | tools/psnr.c:45-53 | the index of any window from its 64 pairs of pixels: means, and sums of products of differences over all pairs of pixels, with the constants 416 and 235963 |
| `SsimIndexes.UniformIndex` | tools/psnr.c:45-53 | for windows of one value each, u and v, it is (8192uv + 416) / (4096(uu + vv) + 416) |
| `SsimIndexes.EqualSumsIndex` | tools/psnr.c:45-53 | for equally bright windows it is (2K + 235963) / (V + 235963), with 2K and V summed over pairs of pixels |
| `Packetizer.NonRtpPacketizerH264.NextRawPacket` | packetizer/non_rtp_h264.cc:54-59 | the whole NAL unit is the payload, and leaves both queues |
| `Packetizer.NonRtpPacketizerH264.CopyAggregatedUnits` | packetizer/non_rtp_h264.cc:229-245 | the loop over the units of a group copies length and bytes of each and stops at its last |
| `Packetizer.NonRtpPacketizerH264.WriteFragment` | packetizer/non_rtp_h264.cc:253-267 | indicator, FU header and bytes of a fragment |
| `Packetizer.NonRtpPacketizerH264.SplitFragment` | packetizer/non_rtp_h264.cc:149-152 | the parts are those of the splitter under the rewritten limits |
| `NonRtpPackets.NonRtpPacket.SetGroupId` | packetizer/non_rtp_packet.cc:35-38 | writes byte 5 only |
| `NonRtpPackets.NonRtpPacket.SetPacketsPerFrame` | packetizer/non_rtp_packet.cc:39-42 | writes byte 6 only |
| `RecvStreams.RTCRecvStream.OpenFrame` | stream/rtc_recv_stream.cc:241-255 | a frame is opened for a timestamp not seen, others stay |
| `RecvStreams.RTCRecvStream.AddToFrame` | stream/rtc_recv_stream.cc:248-250 | the packet goes to the frame of its timestamp, others stay |
| `SendStreams.RTCSendStream.NextWire` | stream/rtc_send_stream.cc:104-113 | header and payload of the next packet, as the receiver will read them |
| `SendStreams.RTCSendStream.Enqueue` | stream/rtc_send_stream.cc:114-117 | the packet is filed at the end of the stream |
| `MinHeaps.MinHeap.Top` | base/min_heap.h:80-81 | null, or an element with the least deadline |
| `MinHeaps.MinHeap.ContentsDistinct` | base/min_heap.h:153-157 | back-indices make the elements distinct |
| `TaskQueues.TaskQueue.PopDue` | base/task_queue.cc:58-67 | takes out the earliest event if it is due, and otherwise nothing |
| `Buffers.Buffer.EnsureCapacity` | base/buffer.h:332-336 | grows to exactly what is asked for, keeping the contents |
| `Buffers.Grown` | base/buffer.h:355-367 | unchanged while it suffices; otherwise what is needed or, with headroom, three halves of the old capacity, rounded down, if that is more |
| `ByteRw.BigIsBounded` | base/byte_rw.h:87-92 | n bytes show a number below 2^(8n), so no shift of the loops leaves the word |
| `StreamRun.AcceptKeepsInv` | stream/rtc_recv_stream.cc:241-256 | filing any packet of a schedule keeps the invariant of runs |
| `AnnexB.FirstNaluIs` | h264parser/h264_parser.cc:13-74 | one step of the parser splits off bytes without a start code, a start code and a NAL unit up to the next |

## Left out

- The encoder, camera capture, decoder, bitmap and thumbnail tools, logging, file output and command lines.
- The image queue between the encoder's thread and the sender's, with its lock: an image reaches `PacketizeImage` as a parameter.
- Clocks and threads: the time of a drain or a post is a parameter that never goes back and that the clock shows 32 bits of, and threads are the steps of `TaskQueueRuns`; spinning at the lock is the absence of a step.
- `AtomicLock` as a class: its compare-and-swap is the enabling condition of the entering and leaving steps.
- Liveness: that a spinning thread gets the lock, and that the worker comes round, depends on the scheduler.
- TaskQueues.TaskQueue.Drain: the source deletes an event and then pops it; here it is popped and then given up.
- MinHeaps.MinHeap.Reserve: allocation always succeeds, and the count of elements has no upper bound.
- MinHeaps.MinHeap.Erase: an event is erased that is in this heap or has been in one; the source sets the index of an event when it is first pushed and not before.
- FrameRoundTrip.ArrivesExactly: aggregation packets of more than 65536 bytes, whose length fields would wrap, are excluded; the deployed limit is 1200.
- StreamRun.CompleteRun: duplicates are excluded, see Repeats.RepeatsExactly for these; frames with equal timestamps are one frame to the receiver.
- Repeats.RepeatsExactly: which runs with 256 or more repeats of one frame still deliver everything once and whole depends on when these arrive, and is left open.
- EndToEnd.Transport: images that leave have at most 255 packets, the count being one byte on the wire, and distinct capture times; images that would end the sender in a failed check are excluded.
- SendStreams.RTCSendStream.PacketizeImage: the number of NAL units of an image, 16 bits in the source, is not cut.
- RecvStreams.RTCRecvStream.OnNewData: the log line, with its unwrapped group number and its own scan of the NAL unit types, is not written; that scan, and the look at the first byte of an empty payload, read past the end of short packets.
- RecvFrames.RecvFrame.GetDelivableSize: the sum has no 32-bit wrap. Packets are values in the frame's map rather than objects it deletes.
- The bound below which the receiver drops offsets, which nothing ever raises above 0.
- The original start codes: the receiver chooses 3 or 4 bytes by a rule of its own, which is modelled as it is and does not recover the sender's.
- The marker bit of the packet header, which is read and never used.
- Splitter.SplitAboutEqually: lengths and limits do not wrap at 32 bits.
- Packetizer.NonRtpPacketizerH264.constructor: fragments are byte sequences rather than pointers into the frame, and none is empty: for an empty one the source takes the byte behind it for its header. Limits have reductions from 0 up to below the maximum.
- AnnexB.FindStartCode: the stream is a sequence and a position rather than a pointer.
- Buffers: the `ZeroOnFree` variant, element types other than bytes, and the setter callbacks.
- CowRuns.Execute: what copying from freed memory gives, where appending a handle to itself does that, what follows an append that breaks the consistency of a handle, and the new bytes of `SetSize` are left open.
- CowBuffers: handles are used by one thread; the atomicity of the count does not matter then.
- Ssim.PixelSsimWxh: real arithmetic where the source rounds to single precision; peak signal-to-noise ratio is not modelled.
- ByteRw.SignExtensionIsCorrect: what a shift of a 32-bit int by its width or more gives, for negative numbers of 4 or more bytes in a wider integer, is left open.
- Unwrappers.Unwrapper.Unwrap: the 64-bit result does not wrap.
- The one-byte specializations of the codecs, which only add easy members.
