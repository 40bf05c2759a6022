# gr-ata in Dafny

A model of the three parts of gr-ata in which data can silently end up in the wrong place, with proofs
of where it does end up.

- **The SNAP source** (`lib/snap_source_impl.cc`) turns packets of 16 time samples by 256 channels,
  some of which are lost, into a gap-free stream of time vectors. `SnapSource.dfy` has it as a class:
  the receive ring, the frame buffers written in place, the vector and tag queues, the sync timestamp.
  Its buffers, counters and queues are proved to be functions of the packets taken off the ring and of
  how much was delivered (`Reassembly.dfy`), and these are proved to be the intended stream
  (`ReassemblyTheorems.dfy`): cell by cell the packet's sample if it was received, and zero otherwise.
- **The SNAP synchronizer** (`lib/SNAPSynchronizerV3_impl.cc`) drops items from lagging streams until
  all heads carry the same timestamp, then forwards all streams in lock step (`Synchronizer.dfy`,
  `Alignment.dfy`). `EndToEnd.dfy` puts N sources and the synchronizer together as a state machine
  under any schedule: what is forwarded is aligned, down to the payload bytes, and clean streams can
  always be synchronized.
- **The correlator layout code** (`apps/observation/read_correlated_data.py`): triangular matrices,
  reordering by baseline, and the output array (`Triangle.dfy`, `Correlator.dfy`, `Reorder.dfy`,
  `OutputArray.dfy`).

How the parts fit. `SnapFormat` has packets, channel ranges and sample decoding. `Reassembly` defines
the queued vectors, tags, frame buffer and loss counts after a sequence of packets. `SourceRuns` adds
`work` calls and sync messages; `SnapSource.Work` is proved to make exactly those steps for every
interleaving with the receive thread. `NetRing` is the ring, `NetFeed` and `PcapFeed` are its two producers.
`FrameLayout`, `LossAccounting` and `Reports` are about geometry, conservation and the reported counts.
The synchronizer's call is one function, `Synchronizer.Decide`: `GeneralWork` is proved to compute it,
and `Alignment` and `EndToEnd` are built on it. A `Lane` is one of the three byte streams that can be
built from a packet: packed X and Y, unpacked X, unpacked Y.

What turned out not to hold, exactly when it does, and an input at which it fails (most of it in
`Shortfalls.dfy`):

- One-packet mode: the tags are gap-free if and only if each packet is later than its predecessor, on
  its grid of 16 with at most `MAX_MISSED_SETS` timestamps missing in between, and no packet stamped
  zero is followed by anything but 16 (`TagsGapFreeIff`; fails at `OffGridTagsAt`).
- Multi-packet mode: a vector carries its own timestamp if and only if its frame was lost; a received
  frame is tagged with the timestamp of the packet that closes it (`MultiPacketTag`; `WrongTagAt`).
- Multi-packet mode: a gap-free stream is queued in full if and only if it does not start at
  timestamp zero; otherwise its packets stamped zero are treated as packets of the first positive
  timestamp (`MultiPacketCompleteIff`; `StreamFromZeroAt`).
- The number of timestamps filled in is the number counted as missing if and only if the jump is 16 to
  31, or longer, on the grid of 16 and within the cap. A jump below 16 wraps the count around, one
  beyond the cap is counted and not filled, and a longer one off the grid fills in one more than is
  counted (`FillMatchesCountIff`; `FillMissesCountAt`).
- The loop that fills in ends if and only if the new timestamp is not above the largest value its 64-bit
  counter can take, which on the grid of 16 is always so (`FillLoopEndsIff`; `FillLoopEndlessAt`).
- A call reports its 32-bit missing count only if that is positive. What the calls of a run report adds
  up to the loss if and only if no call overflows, in one-packet mode for any packets and in multi-packet
  mode without repeated packets (`ReportsAddUpIff`; `ReportOverflowsAt`, a loss of 2^31 of which nothing
  is reported). With repeated packets a count can be negative and the reports be too many: if no call
  overflows they add up if and only if no count is negative (`ReportsAddUp`; `RepeatedPacketAt`). In
  timestamps: what was reported and what arrived is what was sent if and only if no call spans 2^31 more
  packets than it receives, and, with repeated packets, none receives more than were sent
  (`RunConservesOnePacket`, `RunConservesMultiPacket`).
- A zero sync message after a nonzero one leaves tags and vectors in step if no tag would have been queued
  and nothing was delivered in between, or the queue was empty before and is empty now; on gap-free
  packets, in both modes, only then (`ZeroMessageInStepIff`; `MissingTagsAt`, where the next call pops a
  tag from an empty queue). Packets that go back in time can be in step otherwise (`StaleTagsMatchAt`).
- At the end of a capture everything was delivered if and only if the call that emptied the ring asked for
  all that was queued (`AllDeliveredIff`; `CaptureEndsEarlyAt`).
- A packet's bytes are all written inside the frame buffer if and only if its channel is in the
  accepted range (`InBoundsIffAccepted`); the network path queues other packets too (`OutOfRangeAt`). It
  queues what a capture would if and only if there are none of them (`SameAsCaptureIff`).
- The synchronizer puts copied tags where their items are if and only if there are none, or nothing was
  written before and the tagged items come first (`CopiedInPlaceIff`; `MisplacedTagsAt`).
- Reordering twice gives the data back if and only if nothing but zeros follows the last square
  (`ReorderTwice`; `TailIsLostAt`).

## Model

| member | source | states |
|---|---|---|
| SnapFormat.Configure | lib/snap_source_impl.cc:173-210 | for any two 16-bit channel ids: a whole number of 256-channel packets is accepted and fixes vector length and last packet id, every range that ends before it starts passes the remainder test too, everything else is refused |
| SnapFormat.NibbleValue | lib/snap_source_impl.h:558-570 | a half byte decodes to the number from -7 to 7 with the same four bits, 1000 to zero; I is the high half, Q the low |
| SnapFormat.BuildLut | lib/snap_source_impl.cc:311-319 | the lookup table agrees with the arithmetic decoder on all 16 entries |
| Reassembly.QueueLengths | lib/snap_source_impl.cc:724-749 | one tag per vector, in whole blocks of 16, the same for every output |
| Reassembly.VectorLengths | lib/snap_source_impl.cc:728-743 | every queued vector has the output item size |
| Reassembly.QueuesGrow | lib/snap_source_impl.cc:738-747 | more packets only append to the vectors and tags |
| ReassemblyTheorems.CellIsPayload | lib/snap_source_impl.cc:676-710 | byte m of time row t is payload byte 32 * (m / 2) + 2 * t + m % 2 in packed mode, and the number its high or low half stands for in unpacked mode |
| ReassemblyTheorems.ReceivedSampleQueued | lib/snap_source_impl.cc:663-748 | both modes: every queued byte that one received packet is responsible for is that packet's payload byte, or the number its half stands for |
| ReassemblyTheorems.LostSampleQueuedAsZero | lib/snap_source_impl.cc:844-898 | both modes: every queued byte no packet was received for is zero |
| ReassemblyTheorems.OnePacketReassembly | lib/snap_source_impl.cc:818-872 | one-packet mode, gap-free packets: vector k of everything queued is row k % 16 of timestamp first + 16 * (k / 16), received samples or zeros, up to the last packet |
| ReassemblyTheorems.TagsGapFreeIff | lib/snap_source_impl.cc:834-872 | one-packet mode: the tags count up by 16 per block without a gap if and only if consecutive packets can be bridged |
| ReassemblyTheorems.RowsAreAsTagged | lib/snap_source_impl.cc:834-872 | one-packet mode, every packet later than the one before, gaps of any size and any grid: every queued vector is the row of the timestamp it is tagged with, and each block of 16 is later than the one before |
| ReassemblyTheorems.TaggedIffCovered | lib/snap_source_impl.cc:834-872 | one-packet mode, any packets: a timestamp appears among the tags if and only if it was received or is filled in between two consecutive packets |
| ReassemblyTheorems.BufferHoldsCurrentFrame | lib/snap_source_impl.cc:873-897 | multi-packet mode, timestamps that never go back, gaps of any size: the frame buffer holds exactly the packets of the current timestamp, zero elsewhere |
| ReassemblyTheorems.MultiPacketReassembly | lib/snap_source_impl.cc:822-898 | multi-packet mode: everything queued is the frames first, first + 16, ..., last - 16, each cell received or zero |
| ReassemblyTheorems.MultiPacketTag | lib/snap_source_impl.cc:824-857 | multi-packet mode: a received frame is tagged with the next received timestamp, a lost one with its own |
| ReassemblyTheorems.MultiPacketTagIffLost | lib/snap_source_impl.cc:824-857 | so the tag is the vector's own timestamp if and only if the frame was lost |
| Shortfalls.FillMatchesCountIff | lib/snap_source_impl.cc:837-844 | for all timestamps l < s: as many are filled in as are counted missing if and only if the jump is 16 to 31, or longer, on the grid and within the cap |
| Shortfalls.FillMissesCountAt | lib/snap_source_impl.cc:837-844 | a jump below 16, a gap beyond the cap and a jump off the grid at which they differ, and one off the grid at which they do not |
| Shortfalls.CapInNumbers | lib/snap_source_impl.cc:843-859 | a gap of 20000 timestamps is filled in, one of 20001 is not: two packets leave 20002 blocks queued, or 2 |
| Shortfalls.FillLoopEndsIff | lib/snap_source_impl.cc:844 | some value of the 64-bit loop counter reaches the new timestamp if and only if that is at most the largest counter value |
| Shortfalls.FillEndsOnGrid | lib/snap_source_impl.cc:844 | on the grid of 16 it does, for every 64-bit timestamp |
| Shortfalls.FillLoopEndlessAt | lib/snap_source_impl.cc:837-844 | from 2^64 - 40 to 2^64 - 1 one timestamp is missing and the loop never ends |
| Shortfalls.ZeroFrameMerges | lib/snap_source_impl.cc:822-897 | multi-packet mode: packets stamped zero leave queue and buffer as if stamped with the next timestamp |
| Shortfalls.MultiPacketCompleteIff | lib/snap_source_impl.cc:886-893 | multi-packet mode: a stream without gaps is queued in full if and only if it does not start at timestamp zero; if it does, what is queued is, cell by cell, the stream with the first positive timestamp in place of zero |
| Shortfalls.OffGridTagsAt | lib/snap_source_impl.cc:837-872 | one-packet mode: a packet 24 after another breaks the count of the tags |
| Shortfalls.WrongTagAt | lib/snap_source_impl.cc:824-827 | multi-packet mode: the frame of timestamp 16 is queued under tag 32 |
| Shortfalls.StreamFromZeroAt | lib/snap_source_impl.cc:822-893 | multi-packet mode: of timestamps 0, 16, 32 only one frame is queued |
| FrameLayout.WriteIndexInBounds | lib/snap_source_impl.cc:663-680 | every write for a channel block is in bounds, and different places never meet |
| FrameLayout.EveryByteHasAPlace | lib/snap_source_impl.cc:210-216 | every byte of the frame buffer belongs to exactly one block, time row and byte |
| FrameLayout.PacketPlaces | lib/snap_source_impl.cc:663-669 | the packet of a channel block is accepted and writes exactly the bytes of that block |
| FrameLayout.InBoundsIffAccepted | lib/snap_source_impl.cc:660-672 | all bytes of a packet are written inside the buffer if and only if its channel is in the accepted range, on a block boundary or not |
| FrameLayout.QueueOrderIrrelevant | lib/snap_source_impl.cc:822-898 | multi-packet mode: two gap-free arrangements of the same packets, on block boundaries and one per block and timestamp, give the same queued vectors, tags and frame buffer |
| FrameLayout.PackedAndUnpackedAgree | lib/snap_source_impl.cc:665-713 | on the same packets the unpacked X and Y vectors are the nibble decode of the even and odd bytes of the packed ones, zero-filled and partial frames included |
| FrameLayout.DeliveredAgree | lib/snap_source_impl.cc:919-947 | over any run two sources that differ only in output format deliver the same tags and vectors that are the nibble decode of the packed ones |
| LossAccounting.OnePacketLoss | lib/snap_source_impl.cc:834-841 | one-packet mode: packets counted missing plus packets received are all timestamps from first to last, beyond the fill cap too |
| LossAccounting.MultiPacketLoss | lib/snap_source_impl.cc:829-841 | multi-packet mode: packets counted missing plus packets received in closed frames are packets_per_frame per timestamp |
| SourceRuns.AlwaysInStep | lib/snap_source_impl.cc:927-948 | unless a message withdraws a sync timestamp, tags and vectors stay in step over every run while tags are in use, so no tag is popped from an empty queue |
| Shortfalls.ZeroMessageInStepIff | lib/snap_source_impl.cc:264-274 | after a zero sync message that follows a nonzero one: in step if no tag would have been queued and nothing was delivered in between, or the queue was empty before and is empty now, for any packets; and only then on gap-free packets, in both modes |
| Shortfalls.StaleTagsMatchAt | lib/snap_source_impl.cc:746-747 | two packets repeated later, with which stale and fresh tags are the same |
| Shortfalls.MissingTagsAt | lib/snap_source_impl.cc:933-935 | a run of three events after which the next call pops a tag from an empty queue |
| SourceRuns.BatchingIndependence | lib/snap_source_impl.cc:818-949 | however a run is split into calls of any size, delivered vectors followed by queued ones are the vector stream of the packets taken |
| SourceRuns.DeliveredTags | lib/snap_source_impl.cc:927-947 | before any sync timestamp each delivered item carries its vector's tag |
| SourceRuns.SyncFreezesTags | lib/snap_source_impl.cc:927-948 | from a nonzero sync timestamp until it is withdrawn no tag is pushed or popped and all items are untagged |
| SourceRuns.AllDeliveredIff | lib/snap_source_impl.cc:1205-1210 | a run that ends with a call has delivered everything queued from the packets taken if and only if that call asked for all that was queued |
| Shortfalls.CaptureEndsEarlyAt | lib/snap_source_impl.cc:1205-1210 | a capture of two packets of which half the vectors are never delivered |
| Reports.CountsAddUp | lib/snap_source_impl.cc:816-841 | for any packets and calls the missing counts add up to the loss of the whole stream modulo 2^32, and to the loss itself if no call overflows |
| Reports.ReportsAddUp | lib/snap_source_impl.cc:816-952 | for any packets, if no call overflows, the counts reported, which are the positive ones, add up to at least the loss, and to exactly that if and only if no count is negative |
| Reports.ReportsAddUpIff | lib/snap_source_impl.cc:816-952 | one-packet mode with any packets, multi-packet mode without repeated packets: what is reported never exceeds the loss and adds up to it if and only if no call overflows |
| Shortfalls.ReportOverflowsAt | lib/snap_source_impl.cc:816-952 | one call that loses 2^31 packets, counts a negative number and reports nothing |
| Shortfalls.RepeatedPacketAt | lib/snap_source_impl.h:452-464 | a repeated packet in a frame of two: the count is -1, nothing is reported, and 0 reported and 3 received are not the 2 sent |
| Reports.RunConservesOnePacket | lib/snap_source_impl.cc:834-841 | over a whole run, one-packet mode: reported missing plus received are all timestamps from first to last, if and only if no call spans 2^31 more timestamps than it receives packets |
| Reports.RunConservesMultiPacket | lib/snap_source_impl.cc:829-952 | over a whole run, multi-packet mode: reported missing plus received in closed frames are all packets before the open frame, without repeated packets if and only if no call overflows; with them at least as many if none overflows, and exactly as many if and only if also no call receives more than were sent |
| SourceRuns.ResidualBound | lib/snap_source_impl.cc:818-912 | with requests of whole blocks every queue length and return value is a multiple of 16, and at most 16 vectors per fillable timestamp stay queued, whatever the packets |
| SourceRuns.ResidualBoundInNumbers | lib/snap_source_impl.cc:843-849 | at most 320000 vectors stay queued on the grid, 320016 off it |
| NetRing.PushKeeps | lib/snap_source_impl.cc:1448-1453 | a push keeps the ring a suffix of the packets pushed, also when it overwrites |
| NetRing.PopKeeps | lib/snap_source_impl.h:493-499 | a pop continues the in-order subsequence of packets taken |
| NetRing.TakeTakes | lib/snap_source_impl.h:493-499 | a take that the count allows moves the front packet off the ring and uses up one of the count |
| NetRing.CountCounts | lib/snap_source_impl.cc:767 | a count allows as many takes as there are packets on the ring |
| NetRing.InterleavingIsSafe | lib/snap_source_impl.cc:767-820 | under every interleaving of pushes with a consumer that counts once, no empty ring is read and the packets taken are an in-order subsequence of those pushed |
| NetRing.CallIsRun | lib/snap_source_impl.cc:767-820 | at any point of any run, a count and k takes with pushes in between end in the ring, the packets taken and the packets pushed that the call is specified with |
| NetRing.LosslessIffNeverFull | lib/snap_source_impl.cc:461-462 | no packet is lost if and only if the ring was never full when one arrived |
| NetRing.TakenInOrder | lib/snap_source_impl.cc:818-820 | a call with room for all arrivals takes the oldest packets in order and keeps all others |
| NetRing.ArrivedSoFar | lib/snap_source_impl.cc:818-820 | every arrival listed for a take is pushed before it |
| SnapSource.AddMissed | lib/snap_source_impl.cc:841 | the unsigned 64-bit arithmetic on the int count is addition cut down to 32 bits |
| SnapSource.SnapSource.constructor | lib/snap_source_impl.cc:437-462 | a new source has zeroed buffers, empty queues and no timestamp |
| SnapSource.SnapSource.Receive | lib/snap_source_impl.cc:1523-1540 | any packet goes on the ring, of the channel range or not, overwriting the oldest when full |
| Shortfalls.OutOfRangeAt | lib/snap_source_impl.cc:1523-1540 | a packet outside the channel range is put on the ring, and the call that takes it has no defined effect |
| NetFeed.NetReceiver.MmsgReceive | lib/snap_source_impl.cc:1488-1540 | of any batches received exactly the packets from the first of the start channel on are pushed, in order, out of range or not |
| NetFeed.AlignmentStays | lib/snap_source_impl.cc:1491-1508 | once the start channel was found every further packet is queued |
| NetFeed.NetReceiver.SameAsCaptureIff | lib/snap_source_impl.cc:1523-1540 | the network queues what a capture of the same packets would if and only if none from the start channel on is out of range |
| SnapSource.SnapSource.HandleSyncMsg | lib/snap_source_impl.cc:264-274 | a sync message sets the sync timestamp, one without a number changes nothing |
| SnapSource.SnapSource.CopyVoltData | lib/snap_source_impl.cc:643-713 | the packet is laid over its 512 bytes of each of the 16 rows, in both modes, and nothing else changes |
| SnapSource.SnapSource.QueueVoltageData | lib/snap_source_impl.cc:724-749 | the 16 rows are queued in order, with tags only before a sync timestamp |
| SnapSource.SnapSource.FillMissing | lib/snap_source_impl.cc:844-859 | 16 zero vectors and tags per missing timestamp, in 64-bit arithmetic, whenever the loop ends |
| SnapSource.SnapSource.BridgeGap | lib/snap_source_impl.cc:835-865 | counts what is missing and fills it in up to the cap, whenever the loop ends |
| SnapSource.SnapSource.ProcessPacket | lib/snap_source_impl.cc:822-898 | one packet takes buffers, queues, counters and loss count from the state of the packets before it to that of the packets with it |
| SnapSource.SnapSource.FillLocalBuffer | lib/snap_source_impl.h:493-499 | takes the front packet off a ring that is not empty |
| SnapSource.SnapSource.DeliverItems | lib/snap_source_impl.cc:904-949 | delivers the front of the queues, a tag each before a sync timestamp |
| SnapSource.SnapSource.NotifyMissed | lib/snap_source_impl.h:452-464 | a positive count is reported if reporting is on, any other is not |
| SnapSource.SnapSource.TakePackets | lib/snap_source_impl.cc:818-902 | takes packets only within the count and only while fewer than the requested vectors are queued, for every interleaving with the receive thread |
| SnapSource.SnapSource.Work | lib/snap_source_impl.cc:751-955 | every call with a defined effect is exactly one step of the run model: state, both outputs, tags, the missing count reported, and what is left on the ring |
| SnapSource.DefinedInStep | lib/snap_source_impl.cc:767-949 | a call has a defined effect whenever the queues are in step, the packets are of the channel range and their timestamps on one grid of 16, whatever arrives when |
| PcapFeed.NextRecord | lib/snap_source_impl.cc:1384-1414 | the accepted stream grows by a record exactly if it matches, the reader is aligned or becomes so, and the channel is in range |
| PcapFeed.PcapReader.constructor | lib/snap_source_impl.cc:428-434 | the queue minimum is a sixteenth and the reload size a quarter of the number of channels |
| PcapFeed.PcapReader.RingNeverFull | lib/snap_source_impl.cc:428-434 | the ring never holds more than 20479 packets, far below its capacity, for every legal channel range |
| PcapFeed.PcapReader.Take | lib/snap_source_impl.h:493-499 | packets are taken in the order of the accepted stream |
| PcapFeed.PcapReader.QueuePcapData | lib/snap_source_impl.cc:1335-1471 | a refill with any interleaved consumption pushes exactly the accepted packets of what it reads, loses none, stops at 64 matches per 256 channels if the file has them, or at its end, which it then repeats or marks as done, and leaves at most 5 * min - 1 packets |
| PcapFeed.EveryPass | lib/snap_source_impl.cc:1458-1462 | a repeated file delivers its first pass from the start channel on and every packet in range of every later pass |
| PcapFeed.PcapReader.ReadRecord | lib/snap_source_impl.cc:1384-1454 | one record keeps the ring equal to the accepted stream not yet taken |
| PcapFeed.PcapReader.Synchronize | lib/snap_source_impl.h:358-390 | alignment is achieved exactly by a packet of the start channel |
| PcapFeed.PcapReader.WholeFileDelivered | lib/snap_source_impl.cc:1458-1467 | at the end of the file with an empty ring exactly the accepted packets were delivered |
| Synchronizer.MaxIsLargest | lib/SNAPSynchronizerV3_impl.cc:149-151 | the highest tag is one of the tags and none is above it |
| Synchronizer.SnapSynchronizer.GeneralWork | lib/SNAPSynchronizerV3_impl.cc:88-201 | one call is one step of the alignment model: latch, items consumed and forwarded, sync message; synchronized, it produces and consumes a full window of every input, and copies items and tags |
| Synchronizer.CopiedInPlaceIff | lib/SNAPSynchronizerV3_impl.cc:102-110 | the copied tags stay with their items if and only if there are none, or nothing was written before and the tagged items come first |
| Synchronizer.MisplacedTagsAt | lib/SNAPSynchronizerV3_impl.cc:102-110 | the tags of a second window of 16 land at offsets 0 to 15 |
| Synchronizer.SnapSynchronizer.ReadHeads | lib/SNAPSynchronizerV3_impl.cc:124-152 | tag list, highest tag and whether all head tags agree |
| Synchronizer.SnapSynchronizer.Drop | lib/SNAPSynchronizerV3_impl.cc:186-196 | drops the distance to the highest tag, at most the window |
| Synchronizer.SnapSynchronizer.Forward | lib/SNAPSynchronizerV3_impl.cc:97-110 | copies a full window of every input, and the j-th tag found in it to output offset j |
| Alignment.HeadsWhileCatchingUp | lib/SNAPSynchronizerV3_impl.cc:120-152 | while unsynchronized the highest head never moves, no head overtakes it, and the heads agree exactly when every lag has been dropped |
| Alignment.CatchUpStep | lib/SNAPSynchronizerV3_impl.cc:185-199 | one call drops the next stretch of every lag |
| Alignment.LatchTime | lib/SNAPSynchronizerV3_impl.cc:117-199 | the synchronizer latches on exactly the call before which enough items were requested to cover the largest lag |
| Alignment.LossIsOwnLag | lib/SNAPSynchronizerV3_impl.cc:94-199 | some call latches; since then every stream has lost exactly the distance from its first timestamp to the largest, and forwarded all that was asked for from that call on |
| Alignment.LeastCommonTimestamp | lib/SNAPSynchronizerV3_impl.cc:174-178 | the timestamp forwarded from is the least one present in every stream |
| Alignment.OffGridNeverLatches | lib/SNAPSynchronizerV3_impl.cc:120-152 | streams not on a common grid of 16 are never synchronized |
| Alignment.ConvergesIffSameGrid | lib/SNAPSynchronizerV3_impl.cc:117-199 | after (largest lag) / 16 + 1 calls of any sizes the streams are synchronized if and only if they share a grid of 16 |
| EndToEnd.HandshakeAlways | lib/SNAPSynchronizerV3_impl.cc:118-183 | for any packets and schedule: queues in step, every item before the latch tagged, no source stops tagging before the latch, nothing forwarded before it, and each output is the stretch of its source's stream before the read position |
| EndToEnd.StepsAreSafe | lib/SNAPSynchronizerV3_impl.cc:130-135 | every step the scheduler can make finds the tags the code relies on |
| EndToEnd.AlignedOutput | lib/SNAPSynchronizerV3_impl.cc:94-116 | N one-packet sources with gap-free packets on one grid, any schedule: item k of every output is row k % 16 of sample number S + 16 * (k / 16), S the largest first timestamp, received or zeros, and all outputs have the same length |
| EndToEnd.AlignedSample | lib/SNAPSynchronizerV3_impl.cc:94-116 | down to the payload: every byte forwarded is that of its antenna's packet of the sample number of its item, or the number its half stands for, and zero if that packet was lost |
| EndToEnd.SourceDelivers | lib/snap_source_impl.cc:818-949 | every call of a source under any schedule takes its packets, and what the synchronizer has received grows by what was asked for or all that is queued |
| EndToEnd.WindowForwarded | lib/SNAPSynchronizerV3_impl.cc:94-199 | a call that finds or makes the inputs synchronized moves exactly a window of every input to its output, any other call nothing |
| EndToEnd.MessageArrives | lib/snap_source_impl.cc:264-274 | the sync message on its way becomes the sync timestamp of its source |
| EndToEnd.LatchesFromHere | lib/SNAPSynchronizerV3_impl.cc:117-199 | from any reachable clean state in which every source has handed over its lag and one more block, calls for 16 items latch and forward |
| EndToEnd.SomeRunLatches | lib/SNAPSynchronizerV3_impl.cc:117-199 | any number of clean streams that reach the largest first timestamp: some schedule synchronizes them and forwards 16 items of each |
| EndToEnd.LatchesWhenCaughtUp | lib/SNAPSynchronizerV3_impl.cc:117-199 | sources and synchronizer together: a scheduled call latches if and only if enough items were asked for before it to cover the largest lag |
| EndToEnd.MessagePostedOnce | lib/SNAPSynchronizerV3_impl.cc:154-175 | for any packets and schedule one sync message is posted, by the call that latches, and every source receives it once |
| EndToEnd.MessageNamesFirstTimestamp | lib/SNAPSynchronizerV3_impl.cc:174-175 | in a clean run it names the first forwarded timestamp, which becomes the sync timestamp of every source that has received it |
| Triangle.TriClosed | apps/observation/read_correlated_data.py:75 | the recursive triangle numbers are n * (n + 1) / 2 |
| Triangle.PairsDistinct | apps/observation/read_correlated_data.py:75 | pairs of n antennas have distinct numbers below n * (n + 1) / 2 |
| Triangle.EveryNumberIsAPair | apps/observation/read_correlated_data.py:75 | every such number belongs to a pair |
| Triangle.AntennaArrays | apps/observation/read_correlated_data.py:421-426 | row t * B + i * (i + 1) / 2 + j of the antenna arrays is the pair (i, j) |
| Triangle.BaselineNames | apps/observation/read_correlated_data.py:488 | the baseline list has the same pair at the same number |
| Correlator.FullIndexDistinct | apps/observation/read_correlated_data.py:79-80 | entries of the full matrix have distinct indices in range |
| Correlator.TriIndexDistinct | apps/observation/read_correlated_data.py:75-78 | entries of the lower triangle have distinct indices in range |
| Correlator.EveryTriIndexUsed | apps/observation/read_correlated_data.py:75-78 | every index of the triangular array belongs to an entry |
| Correlator.CodeIndices | apps/observation/read_correlated_data.py:75-80 | the layouts: [f][i][j][p][q] and its mirror [f][j][i][q][p] in the full matrix, [f][pair][p][q] in the triangular array |
| Correlator.ExtractMatrix | apps/observation/read_correlated_data.py:70-82 | whenever the array has every value that is read: every entry off the diagonal is the triangular array's entry for its stations, the diagonal stays zero |
| Correlator.ReadsFitIff | apps/observation/read_correlated_data.py:73-79 | which is so if and only if the array lacks no more than its last diagonal square |
| Correlator.ExtractedValues | apps/observation/read_correlated_data.py:79-82 | entry by entry contents, and equality of [f,i,j,p,q] and [f,j,i,q,p] for all indices |
| Reorder.SourceInverse | apps/observation/read_correlated_data.py:104-107 | the index mapping stays in range and is inverted by swapping frequency and baseline counts |
| Reorder.ReorderedSquare | apps/observation/read_correlated_data.py:104-107 | value i of frequency f and baseline b moves from [f][b] to [b][f] |
| Reorder.ReorderTwice | apps/observation/read_correlated_data.py:93-111 | reordering and reordering back gives the data if and only if only zeros follow the last square |
| Reorder.TailIsLostAt | apps/observation/read_correlated_data.py:93-111 | two values of which the second does not come back |
| Reorder.ReorderIsInvertible | apps/observation/read_correlated_data.py:93-111 | data of exactly the right length comes back unchanged |
| Reorder.ReorderFreqPerBaseline | apps/observation/read_correlated_data.py:93-111 | the three loops compute that reordering |
| OutputArray.AnyOrder | apps/observation/read_correlated_data.py:84-91 | running the per-baseline loop for all baselines in any order gives the sequential result |
| OutputArray.ReorderInnerLoop | apps/observation/read_correlated_data.py:86-91 | one run fills in its baseline and leaves every other entry alone |
| OutputArray.PlaceBlock | apps/observation/read_correlated_data.py:533-541 | a reordered block goes to its rows in polarization order XX, YY, XY, YX, all other rows unchanged |
| OutputArray.FillArray | apps/observation/read_correlated_data.py:412-557 | row t * B + b at (f, q) is block t's sample [f][b][perm(q)], for all whole blocks of the file, for two or more polarizations, in an array sized by bytes_per_block whose further rows and columns stay zero |
| OutputArray.SampleInFile | apps/observation/read_correlated_data.py:533-541 | the four columns hold values 0, 3, 1 and 2 of the square at t * samples_per_block + (f * B + b) * npol^2 |
| OutputArray.EverySamplePlaced | apps/observation/read_correlated_data.py:533-541 | with blocks of the exact size the first four samples of every square of the file are placed, all there are for two polarizations |
| OutputArray.SamplesPlacedOnce | apps/observation/read_correlated_data.py:533-541 | and no sample twice |

## Left out

- AlignedOutput: covers one-packet sources; in multi-packet mode the tags name the wrong frames (MultiPacketTag), so equal tags do not mean equal timestamps.
- OnePacketReassembly: gaps beyond MAX_MISSED_SETS are covered by RowsAreAsTagged; about packets that go back in time or repeat a timestamp only the queue, ring, tag and loss results speak, because the code restarts its count there.
- Work: speaks of calls that write only inside their buffers, end, and pop no tag that is not there (`CallDefined`); InBoundsIffAccepted, FillLoopEndsIff and ZeroMessageInStepIff say when one does not. The signed addition of lib/snap_source_impl.cc:831 is taken to wrap around as the conversion in line 841 does; C++ leaves its overflow undefined.
- ExtractMatrix: indices are exact integers; the Python code computes them in floating point, which is exact below 2^53. Values are only moved, so single-precision rounding does not appear. Index errors are excluded by exact preconditions, also in FillArray.
- The counters of packets in a frame and of items are unbounded; only the missing count and the timestamp arithmetic are modelled in their machine widths.
- Packet headers are records; the big-endian field layout and the Ethernet, IPv4 and UDP header walk are one match test.
- Sockets, multicast, threads, sleeping and waiting, logging and memory management. The waiting loop before the packet loop amounts to the count taken after it.
- Spectrometer mode, which `work` never reaches, and the test entry points.
- The sync header message of the source.
- Coordinates, Julian dates, delay correction, flags and UVFITS writing in the observation script, and the remaining scripts and flowgraphs.
