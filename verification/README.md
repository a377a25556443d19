# OS-VideoSDR: verified model of the packet path

OS-VideoSDR carries raw video from an FPGA board to a PC. On the board, programmable logic
writes encrypted packets into a ring in DDR and two threads drain it to the network; a software
path cuts, numbers, encrypts and sends frames. On the PC, receivers parse, authenticate, check
nonces and reassemble frames, or record them. This project models the hardest parts of that path
in Dafny and proves what they promise. `dafny verify dfyconfig.toml` checks all of it.

## What is proved

**Ring drain** (`RingIndex`, `DrainProtocol`, `DrainSafety`, `DrainStart`, `DrainTheorems`,
`DrainLimit`, `SendShared`). A step system at the grain of single accesses to shared state, over any number of
workers, with the 32- and 64-bit masked arithmetic of the code. On every interleaving in which
each completion reads back a backlog of at most half the ring: no slot of a claimed batch is
overwritten, each completed batch is on the wire exactly once with exactly the packets published
into it, batches are claimed in publication order, the 64-bit bitmap never aliases, the release
frontier is the least incomplete batch, the pushed consume index is monotone, and no state is
stuck. A session begins at the batch boundary under the packets published when start-up read the
produce index, and no earlier packet reaches the wire. The half-ring bound is exact: after a read-back, slots stay intact on every continuation whose
later read-backs keep the bound if and only if this one does, and a concrete run of two workers
without it puts a batch on the wire that nobody published. The source calls its half-ring comparison wrap-safe; the model follows
the code.

**Descriptor ring** (`SlotRing`, `SlotRingFifo`, `RingBackend`). Every interleaving of one
`ring_push` and one `ring_pop`, with payload bytes, descriptor, flag and index as separate stores,
refines a bounded FIFO whose linearization points are the two flag stores.

**GHASH** (`Gf128`, `Gf128Words`, `Ghash`, `GhashLength`). The shift-and-xor loop computes the
field product of section 6.3 of NIST SP 800-38D, proved commutative, associative, distributive,
with identity, and equal to polynomial multiplication modulo the GCM polynomial. The Horner loop
equals the power sum of section 6.4. The fixed length block makes the monitor agree with section
7.1 for every key exactly on ciphertexts of 76 blocks; today's 1,408-octet slots carry 85 blocks.

**Replay window** (`NonceWindow`). The pruned set decides like one that never forgets if and only
if the reorder window is not positive or not wider than the replay window.

**Packets and frames** (`Bytes`, `PacketSchema`, `Validation`, `Reassembly`,
`ReassemblyTheorems`, `FrameRuns`). Header and datagram codecs are mutually inverse; the bounded,
insertion-ordered frame table delivers exact frames and only ever loses its oldest entry.

**End to end** (`FrameSender`, `FrameReceiver`, `WireFormats`, `EndToEnd`). Among arbitrary other
traffic and in either nonce mode, a frame's next datagram returns the whole frame if it brings the
last missing segment, and nothing otherwise. The sender's datagrams in any order give back exactly
the frame that was cut, if and only if no segment is longer than 1,400 octets or exactly 1,352
octets long (whose datagram would have the size of a transport slot). What any string of octets
contributes is stated by its octets, as is the layout of the header and of the sender's datagrams;
no two segments are sealed under one nonce exactly until the counter wraps. A 1,408-octet datagram that
starts with the magic is not always dropped: what it contributes is given exactly, and a sender
datagram of 1,328 octets padded with 24 zeros comes through. In strict mode the nonces of the pushed
segments rise over every run; otherwise every copy of a datagram is pushed.

**Capture tools** (`Raster`, `FrameTable`, `Recorder`, `RecorderPictures`, `Capture`). With one
segment count per frame no run of the recorder fails; every frame buffer is the screen it was opened
on under exactly the segments received for that frame since, and every written picture is that of the
largest frame id received. The counting receiver holds the eight largest ids that have arrived on any
run; without repeated segments such a frame's entry holds all its packets, is complete exactly when
all its segments have arrived, and its buffer is then the frame. With a repeat at completion a
segment is missing.

Authenticated encryption is a pair of functions with the hypothesis that opening undoes sealing,
text keeps its length and tags have 16 octets. Clocks, socket outcomes and the writer's moves are
parameters or steps of the environment. Where comments in `pc/runtime/main_rx.py` (lines 200-203)
speak of 1,280-octet slots with 40 octets of padding, the model follows the constants 1,408 and 24.

## Model

| member | source | states |
|---|---|---|
| RingIndex.ClampLaw | pynq/ps_shim/src/tx_shim.cpp:618-628 | the pushed index is the frontier iff the backlog is at most half the ring, and the produce index for every larger backlog |
| RingIndex.ReleaseStopsAtFirstClear | pynq/ps_shim/src/tx_shim.cpp:613-617 | the release loop stops at the first clear flag, clears exactly the flags it passes and moves at most 64 batches |
| RingIndex.FullTestIsExact | docs/PLAN_2026-08-24_phase_B_exact.md:123-124 | the writer's drop test holds exactly one slot short of a full ring |
| RingIndex.SetFlagInWindow | pynq/ps_shim/src/tx_shim.cpp:613 | within 64 batches, setting one batch's bit changes no other batch's bit |
| RingIndex.DiffIsDistance | pynq/ps_shim/src/tx_shim.cpp:545 | the masked 32-bit difference is the true distance within one ring |
| DrainSafety.StepKeepsInv | pynq/ps_shim/src/tx_shim.cpp:541-645 | every step of writer and workers keeps the whole protocol invariant |
| DrainSafety.RunKeepsInv | pynq/ps_shim/src/tx_shim.cpp:526-649 | the invariant holds along every bounded run |
| DrainStart.AlignThenStart | pynq/ps_shim/src/tx_shim.cpp:792-840 | start-up puts both counters and the consume index at the batch boundary at or below the produce index it read |
| DrainStart.StalePacketsAreSkipped | pynq/ps_shim/src/tx_shim.cpp:784-795 | over every bounded run the session began at that boundary and no earlier packet is on the wire |
| DrainTheorems.FrontierIsLeastIncomplete | pynq/ps_shim/src/tx_shim.cpp:612-617 | the release batch is the least incomplete one, claim minus release is at most 63, and each of the 64 bits means complete and unreleased |
| DrainTheorems.ClaimedSlotsNeverOverwritten | pynq/ps_shim/src/tx_shim.cpp:477-478 | no step changes a slot of a claimed, unreleased batch; it holds the published packets |
| DrainTheorems.EveryBatchSentExactlyOnce | pynq/ps_shim/src/tx_shim.cpp:566-609 | completed batches are on the wire exactly once with exactly their published packets, and nothing else is |
| DrainTheorems.ClaimsInPublicationOrder | pynq/ps_shim/src/tx_shim.cpp:541-564 | a claim takes the next batch in order, fully published and held by nobody else |
| DrainTheorems.ConsumeIsMonotone | pynq/ps_shim/src/tx_shim.cpp:619-640 | the absolute consume index never moves back and never passes produce |
| DrainTheorems.WriterDropsIffFull | docs/PLAN_2026-08-24_phase_B_exact.md:123-124 | in every reachable state the writer drops iff 2,047 slots above the consume index are in use, and can store otherwise |
| DrainTheorems.NeverStuck | pynq/ps_shim/src/tx_shim.cpp:619-622 | in every reachable state the lock owner can move, a holder can send or complete, and with the lock free the writer can store, every worker can claim, or one holds a batch |
| DrainLimit.ReuseIsSafeIffHalfRing | pynq/ps_shim/src/tx_shim.cpp:624-628 | after a read-back, slots stay intact on every continuation whose later read-backs see at most half a ring, iff this one does |
| DrainLimit.WrongBatchSentAboveHalfRing | pynq/ps_shim/src/tx_shim.cpp:624-640 | above half a ring, a held batch can be sent with contents that were not published into it |
| DrainLimit.UnboundedRunSendsWrongBatch | pynq/ps_shim/src/tx_shim.cpp:541-645 | a concrete run of two workers from start-up that sends a wrong batch |
| SendShared.Shared.constructor | pynq/ps_shim/src/tx_shim.cpp:792-841 | start-up takes the batch boundary at or below the writer's produce index |
| SendShared.Shared.Claim | pynq/ps_shim/src/tx_shim.cpp:541-564 | claims the next batch exactly when 32 slots of it are published |
| SendShared.Shared.Complete | pynq/ps_shim/src/tx_shim.cpp:611-640 | sets the bit, releases complete batches and stores the clamped frontier |
| SendShared.ClaimIsLookAndDecide | pynq/ps_shim/src/tx_shim.cpp:541-564 | the claim section is the protocol's two claim steps run back to back |
| SendShared.CompleteIsThreeSteps | pynq/ps_shim/src/tx_shim.cpp:611-645 | the completion section is the protocol's three completion steps run back to back |
| SendShared.SendBatch | pynq/ps_shim/src/tx_shim.cpp:569-609 | whatever sends fail, a finished batch has sent its 32 slots in ring order across the wrap |
| SlotRing.SlotIsRemainder | pynq/ps_shim/src/ring_backend.c:469-487 | the slot of an absolute index is its remainder by the slot count |
| SlotRingFifo.StepKeepsInv | pynq/ps_shim/src/ring_backend.c:467-543 | every load and store of either side keeps the ring invariant, including that FULL slots are the cyclic interval of unfreed items |
| SlotRingFifo.StepRefinesFifo | pynq/ps_shim/src/ring_backend.c:467-543 | setting FULL enqueues with room, clearing it dequeues the head, every other step leaves the queue alone |
| SlotRingFifo.PopsAreAPrefixOfPushes | pynq/ps_shim/src/ring_backend.c:443-544 | completed pops return the pushed descriptors in order, without gap or repeat, at most slot_count pending |
| SlotRingFifo.FlagTestsAreExact | pynq/ps_shim/src/ring_backend.c:472-517 | a push finds its slot taken iff the queue is full and can go on iff it is not; a pop likewise for empty |
| SlotRingFifo.TakenDescriptorFits | pynq/ps_shim/src/ring_backend.c:522-525 | the corruption check of ring_pop never fires |
| SlotRingFifo.PayloadReadableUntilSlotReused | pynq/ps_shim/src/ring_backend.c:527-533 | a popped payload stays readable until the push slot_count places later begins to copy |
| RingBackend.Mapping.constructor | pynq/ps_shim/src/ring_backend.c:380-388 | a reset mapping is valid and empty |
| RingBackend.Mapping.Push | pynq/ps_shim/src/ring_backend.c:443-498 | too long, timed out exactly when full, or appended to the queue |
| RingBackend.Mapping.Pop | pynq/ps_shim/src/ring_backend.c:500-544 | timed out exactly when empty, or the head of the queue with its payload readable |
| Gf128.MulCommutative | pc/runtime/tag_ladder_monitor.py:22-28 | the field product is commutative |
| Gf128.MulAssociative | pc/runtime/tag_ladder_monitor.py:22-28 | the field product is associative |
| Gf128.MulDistributes | pc/runtime/tag_ladder_monitor.py:22-28 | it distributes over xor |
| Gf128.MulIdentity | pc/runtime/tag_ladder_monitor.py:22-28 | the block with only its first bit set is the identity |
| Gf128.MulIsPolynomialProduct | pc/runtime/tag_ladder_monitor.py:20-28 | it is polynomial multiplication modulo the GCM polynomial |
| Gf128Words.GfMul | pc/runtime/tag_ladder_monitor.py:22-28 | the 128-step integer loop computes the field product on all 128-bit words |
| Ghash.HornerIsSum | pc/runtime/tag_ladder_monitor.py:30-34 | the Horner form equals the xor of blocks times powers of the key |
| Ghash.Ghash | pc/runtime/tag_ladder_monitor.py:30-35 | the loop returns the octets of that sum with the fixed length block |
| GhashLength.SumOfDifference | pc/runtime/tag_ladder_monitor.py:30-35 | the xor of two hashes is the hash of the xor |
| GhashLength.TagDifferenceDependsOnDifference | pc/runtime/tag_ladder_monitor.py:30-35 | for one length the tag difference depends only on the ciphertext difference |
| GhashLength.ChunksJoin | pc/runtime/tag_ladder_monitor.py:74 | the blocks of a ciphertext join to it |
| GhashLength.ChunkAt | pc/runtime/tag_ladder_monitor.py:74 | block i is the octets from 16 i on, 16 of them except at the end, for every i below the ceiling of a sixteenth of the length |
| GhashLength.MonitorTag | pc/runtime/tag_ladder_monitor.py:74 | the monitor's call on a ciphertext computes the hash compared below |
| GhashLength.AgreesIffLengthMatches | pc/runtime/tag_ladder_monitor.py:34 | a hash with a fixed length block equals that of section 7.1 of NIST SP 800-38D for every key iff the length is the true one |
| GhashLength.MonitorAgreesIff76Blocks | pc/runtime/tag_ladder_monitor.py:34-74 | with the constant 9728 that is exactly the ciphertexts of 1,216 octets |
| NonceWindow.NonceValidator.constructor | pc/runtime/main_rx.py:76-85 | a fresh validator has seen nothing |
| NonceWindow.NonceValidator.ValidateAndTrack | pc/runtime/main_rx.py:87-117 | decision, high-water mark, tracked set after pruning and the three counters |
| NonceWindow.PruningIsInvisibleIff | pc/runtime/main_rx.py:94-115 | on all nonce sequences the pruned window decides like an unbounded one iff reorder is not positive or at most replay |
| NonceWindow.UnboundedNeverAcceptsTwice | pc/runtime/main_rx.py:93-96 | the unbounded window accepts no nonce twice |
| NonceWindow.ReplayAcceptedWhenWiderReorder | pc/runtime/main_rx.py:100-115 | with a wider reorder window some nonce is accepted twice |
| NonceWindow.TrackedSetIsBounded | pc/runtime/main_rx.py:108-115 | at most replay-window entries, none above latest, latest never decreases |
| NonceWindow.ReorderedArrivalsAccepted | pc/runtime/main_rx.py:98-103 | distinct unseen nonces within the reorder window are all accepted in any order |
| NonceWindow.ReorderedArrivalsTracked | pc/runtime/main_rx.py:108-115 | with equal windows, nonces arriving within one window in any order are all tracked afterwards |
| NonceWindow.StrictAcceptsRunningMaxima | pc/runtime/main_rx.py:98-106 | with reorder window 0 exactly the running maxima are accepted |
| NonceWindow.AboveIsAccepted | pc/runtime/main_rx.py:98-110 | a nonce above everything seen is accepted and becomes the latest |
| Bytes.EncodeDecode | pynq/runtime/main.py:51-54 | big-endian octets decode to the number that was encoded |
| Bytes.FirstOctetLeads | pynq/runtime/main.py:51-54 | the first octet is the most significant one |
| PacketSchema.UnpackOfPack | protocol/packet_schema.py:37-80 | unpacking a packed header gives it back, whatever follows |
| PacketSchema.PackOfUnpack | protocol/packet_schema.py:37-80 | packing an unpacked header gives the 40 octets back |
| PacketSchema.PackedLayout | protocol/packet_schema.py:37-54 | each of the 15 fields of a packed header stands at its octets |
| PacketSchema.UnpackedLayout | protocol/packet_schema.py:57-80 | each field of an unpacked header is read from those octets |
| PacketSchema.SplitOfBuild | protocol/packet_schema.py:83-107 | splitting a built datagram gives header, payload and tag back |
| PacketSchema.BuildOfSplit | protocol/packet_schema.py:83-107 | building from a split datagram gives the datagram back |
| PacketSchema.SplitSucceedsIffWellSized | protocol/packet_schema.py:94-103 | split succeeds exactly on datagrams that build produces |
| Validation.ValidateHeader | protocol/validation.py:17-39 | returns every violated rule in order, and none exactly for well-formed headers |
| Validation.IsFrameComplete | protocol/validation.py:52-64 | decides whether the ids are exactly 0 to count - 1 |
| Reassembly.FrameReassembler.constructor | pc/runtime/reassembly.py:19-21 | starts with an empty table |
| Reassembly.FrameReassembler.Push | pc/runtime/reassembly.py:23-41 | new table and output after one segment |
| Reassembly.FrameReassembler.EvictIfNeeded | pc/runtime/reassembly.py:46-49 | drops the earliest entries down to the limit |
| ReassemblyTheorems.PushCases | pc/runtime/reassembly.py:23-49 | where the entry ends up, what is returned and who is evicted, case by case |
| ReassemblyTheorems.PushKeepsInv | pc/runtime/reassembly.py:23-49 | at most max_active_frames entries, one per key, none complete |
| ReassemblyTheorems.TableStaysBounded | pc/runtime/reassembly.py:46-49 | the same along every run |
| ReassemblyTheorems.OnlyOldestIsEvicted | pc/runtime/reassembly.py:46-49 | at most the earliest inserted entry is lost, every other keeps state and turn |
| ReassemblyTheorems.ChangedCountStartsOver | pc/runtime/reassembly.py:27-32 | a segment with another segment count starts its frame over at the same place in line |
| ReassemblyTheorems.PendingSurvives | pc/runtime/reassembly.py:23-49 | a pending frame survives fewer than max_active_frames later openings and holds the first payload of each segment |
| ReassemblyTheorems.FrameIsDelivered | pc/runtime/reassembly.py:31-38 | the last missing segment returns all first payloads joined in order |
| FrameRuns.HeldRun | pc/runtime/reassembly.py:23-49 | among arbitrary other arrivals the table holds exactly the segments of a frame that have arrived |
| FrameRuns.OwnArrival | pc/runtime/reassembly.py:31-41 | the next segment delivers the frame iff it was the last missing one |
| FrameSender.SegmentFrame | pynq/runtime/main.py:46-48 | slices of the given size, joining back to the frame |
| FrameSender.SegmentsJoin | pynq/runtime/main.py:46-48 | the segments of a frame join to the frame |
| FrameSender.NonceTracker.constructor | pynq/runtime/main.py:107-110 | the first counter handed out is the initial one |
| FrameSender.NonceTracker.Next | pynq/runtime/main.py:112-118 | counts up and wraps to 1 past the maximum |
| FrameSender.CounterIsConsecutive | pynq/runtime/main.py:112-118 | until it wraps the counters are consecutive |
| FrameSender.NoncesDistinctIff | pynq/runtime/main.py:104-118 | the first k counters are pairwise distinct iff k is at most the maximum |
| FrameSender.NonceOctets | pynq/runtime/main.py:51-54 | the nonce is the prefix 1 and the big-endian counter, so counters can be read back |
| FrameSender.NonceOctetsDistinctIff | pynq/runtime/main.py:51-118 | the first k nonces are pairwise distinct octet strings iff k is at most the maximum |
| FrameSender.PacksIffPackable | pynq/runtime/main.py:350-365 | the sender's header packs iff every number fits its field |
| FrameSender.SendFrame | pynq/runtime/main.py:339-368 | sends segment i under the i-th next counter, up to the first header that does not pack |
| FrameReceiver.Strip | pc/runtime/main_rx.py:54-62 | succeeds exactly on 1,408 octets that end in 24 zeros |
| FrameReceiver.Receiver.constructor | pc/runtime/main_rx.py:171-190 | starts with an empty window and table; reorder window 0 in strict mode and the replay window otherwise, eight active frames |
| FrameReceiver.Receiver.ReceiveFrames | pc/runtime/main_rx.py:193-290 | the loop's state and frames after the datagrams it used, and when it stops |
| FrameReceiver.Receiver.OnDatagram | pc/runtime/main_rx.py:200-283 | state and output after one datagram |
| FrameReceiver.Receiver.Handle | pc/runtime/main_rx.py:240-283 | validation, nonce check and what follows |
| FrameReceiver.Receiver.Open | pc/runtime/main_rx.py:256-283 | key check, decryption and reassembly |
| WireFormats.ReceivedIsPush | pc/runtime/main_rx.py:193-283 | one datagram is either counted as dropped or pushed, never both |
| WireFormats.EveryDatagram | pc/runtime/main_rx.py:204-279 | what any string of octets contributes, read off the octets: stripping, both formats, header rules, key and decryption |
| WireFormats.SentDatagramArrives | pc/runtime/main_rx.py:204-279 | a sender datagram becomes exactly its segment iff that has at most 1,400 and not 1,352 octets |
| WireFormats.SentOctets | pynq/runtime/main.py:350-368 | the octets of a sender datagram: header layout, constants, and the segment sealed under prefix 1 and the nonce octets of its own header |
| WireFormats.MagicSlotParsesIff | pc/runtime/main_rx.py:204-238 | when a slot that starts with the magic parses |
| WireFormats.MagicSlotContents | pc/runtime/main_rx.py:204-279 | what such a slot contributes: an authentic zero-padded datagram of 1,328 octets, or nothing |
| WireFormats.PaddedDatagramArrives | pc/runtime/main_rx.py:204-279 | such slots exist and come through |
| WireFormats.PlSlotArrives | pc/runtime/main_rx.py:204-232 | an FPGA slot contributes its payload, except that one whose nonce begins with the magic octets is read as a padded software datagram |
| WireFormats.PlDatagramArrives | pc/runtime/main_rx.py:200-232 | an unpadded FPGA datagram of any payload length contributes its payload, with the magic prefix and the slot size as stated exceptions |
| EndToEnd.RunPushesArrivals | pc/runtime/main_rx.py:193-283 | over a run the table sees the admitted segments and every other datagram is counted as dropped |
| EndToEnd.WindowOverRun | pc/runtime/main_rx.py:175-246 | over a run the window is that of the well-formed nonces in order, late ones judged by the replay window, or by 0 in strict mode |
| EndToEnd.LateArrivalsAccepted | pc/runtime/main_rx.py:68-74 | outside strict mode, distinct unseen nonces within one replay window are accepted and remembered in any order |
| EndToEnd.NoNonceAcceptedTwice | pc/runtime/main_rx.py:68-74 | a fresh receiver accepts no nonce twice in either mode |
| EndToEnd.StrictNeverPushesTwice | pc/runtime/main_rx.py:245-252 | in strict mode the nonces of pushed segments rise over every run |
| EndToEnd.EveryCopyIsPushed | pc/runtime/main_rx.py:245-254 | outside strict mode every copy of a datagram is pushed |
| EndToEnd.EveryCopyIsDelivered | pc/runtime/main_rx.py:245-283 | so a one-segment frame is delivered once per copy |
| EndToEnd.FrameComesThrough | pc/runtime/main_rx.py:193-283 | among other traffic, a datagram of an incomplete frame returns the frame iff it brings the last missing segment |
| EndToEnd.AnyOrderDelivers | pc/runtime/main_rx.py:204-283 | a frame's datagrams in any order return nothing before the last and then the frame iff all segments are acceptable |
| EndToEnd.PlanIsTransfer | pynq/runtime/main.py:341-368 | what the send loop plans is what is delivered in these runs |
| EndToEnd.PlannedNoncesDifferIff | pynq/runtime/main.py:345-368 | the nonce octets of a frame's datagrams are pairwise distinct iff the counter can count the segments |
| EndToEnd.InOrderRises | pynq/runtime/main.py:345-368 | sent in order without wrapping, the nonces rise as strict mode asks |
| EndToEnd.FrameRoundTrip | pynq/runtime/main.py:339-368 | from cutting a frame to its delivery, exactly the same frame |
| Raster.OctetLaw | pc/runtime/rx_record.py:119-122 | every octet is the one that arrived last for its place or was inherited; the buffer grows only by its last segment |
| Raster.CountIsSize | pc/runtime/rx_record.py:139 | the sum of the flags is the number of distinct segments |
| FrameTable.KeptIsUnique | pc/runtime/rx_record.py:110-114 | removing the smallest ids down to a size leaves one choice |
| FrameTable.KeptIff | pc/runtime/rx_lossless.py:113-115 | an id is kept iff fewer than that many ids are larger |
| FrameTable.LargestIsKept | pc/runtime/rx_record.py:110-114 | eviction never removes the largest id |
| Recorder.CompletenessInRange | pc/runtime/rx_record.py:138-139 | completeness lies in [0, 1] and is 1 iff every segment arrived |
| Recorder.OpeningEvicts | pc/runtime/rx_record.py:110-118 | a new frame joins the eight largest ids that were there |
| Recorder.TakeKeepsInv | pc/runtime/rx_record.py:108-122 | a packet keeps the table invariant and never lowers the newest id |
| Recorder.WriteKeepsInv | pc/runtime/rx_record.py:127-139 | a tick keeps the invariant |
| Recorder.RunKeepsInv | pc/runtime/rx_record.py:83-139 | with one segment count per frame no run fails, and the invariant holds after every run |
| Recorder.Recorder.constructor | pc/runtime/rx_record.py:71-78 | starts without frames and with a black picture |
| Recorder.Recorder.OnPacket | pc/runtime/rx_record.py:102-122 | malformed, taken, or an out-of-range flag store, each exactly when |
| Recorder.Recorder.OnSegment | pc/runtime/rx_record.py:108-122 | patches the frame in place, opening and evicting as needed |
| Recorder.Recorder.Open | pc/runtime/rx_record.py:110-118 | a new buffer is a copy of the last written picture; the smallest ids are evicted first |
| Recorder.Recorder.WriteNewest | pc/runtime/rx_record.py:127-139 | writes the largest id's picture and makes it the one to inherit |
| RecorderPictures.WrittenPicture | pc/runtime/rx_record.py:128-136 | what each octet of a written picture is |
| RecorderPictures.LifeIsHistory | pc/runtime/rx_record.py:108-122 | every entry was opened by a packet of its frame, has stayed since, and is the picture of that moment under exactly the visible segments received since |
| RecorderPictures.NewestIsLargestReceived | pc/runtime/rx_record.py:110-118 | a packet's frame is in the table right after it, and the largest id in the table is the largest received |
| RecorderPictures.InheritsScreen | pc/runtime/rx_record.py:115-136 | what a new frame inherits is the last written picture, black before the first |
| RecorderPictures.PicturesComeFromPackets | pc/runtime/rx_record.py:108-136 | each written picture shows the largest id received; each octet is the latest of that frame for its place since it was opened, or else the octet on screen when it was opened |
| RecorderPictures.EveryRun | pc/runtime/rx_record.py:83-139 | every run with one segment count per frame succeeds; its tables and pictures are as in the rows above, with at most nine frames, two buffer lengths, ids that never decrease and shares in [0, 1] |
| Capture.CounterAgainstSet | pc/runtime/rx_lossless.py:119-126 | the counter never lags behind the set test, and agrees at completion iff no segment repeated |
| Capture.BlockLaw | pc/runtime/rx_lossless.py:116-117 | each block holds the payload that came last for its segment or zeros |
| Capture.CompleteBuffer | pc/runtime/rx_lossless.py:116-126 | complete without a repeat, the buffer is the segments joined |
| Capture.EarlyCompletion | pc/runtime/rx_lossless.py:118-126 | complete with a repeat, some segment never came and its block is zero |
| Capture.RepeatCompletesEarly | pc/runtime/rx_lossless.py:118-126 | a concrete run that completes without segment 1 |
| Capture.TakeKeepsInv | pc/runtime/rx_lossless.py:104-126 | without repeats no completed entry is ever reallocated |
| Capture.TableIsLargestIds | pc/runtime/rx_lossless.py:104-115 | on every run the table holds exactly the eight largest ids that have arrived |
| Capture.EntryIsHistory | pc/runtime/rx_lossless.py:104-126 | without repeats the entry of a frame in the table holds every packet of that frame, in order |
| Capture.EveryRun | pc/runtime/rx_lossless.py:63-126 | on every run without repeats: which frames are in the table, that their entries hold all their packets, that they are complete iff all their segments have arrived, and that the buffer is then the frame |
| Capture.Receiver.constructor | pc/runtime/rx_lossless.py:54-61 | starts empty |
| Capture.Receiver.OnPacket | pc/runtime/rx_lossless.py:96-126 | counted as bad or taken, exactly by the header conditions |
| Capture.Receiver.OnSegment | pc/runtime/rx_lossless.py:104-126 | new table and counters after one packet |
| Capture.Receiver.Allocate | pc/runtime/rx_lossless.py:111-115 | enters the entry, then deletes the smallest ids, possibly its own |

## Left out

- Sockets, UDP GSO, XRT buffers, `/dev/mem`, cache maintenance, thread pinning: a send is a step that succeeds or fails, and a failed send puts nothing on the wire.
- ARM memory ordering and cache coherence: accesses are sequentially consistent, and the produce mirror in the control block equals the writer's index.
- The FPGA logic beyond the writer's drop rule.
- AES and the `cryptography` library: only the sealing and opening functions and their hypothesis appear.
- Irreducibility of the GCM polynomial: products are compared with polynomial multiplication, inverses are not considered.
- The batch counters of the sender are unbounded numbers; only their masked use is cut to 64 and 32 bits.
- Timeouts, sleeping and wall-clock pacing: polls are counted, and the recorder's tick is an event.
- `ring_map_size`, file and device handling and the layout checks of `ring_open`, and argument checks of `ring_push` and `ring_pop`: easy members only.
- `drop_frame` of the reassembler, nonce and window predicates of `protocol/validation.py` that the receiver does not call.
- Counter statistics of `rx_lossless.py` before line 96, and the decryption step of both capture tools: packets enter the model with their header and payload.
- `rx_display.py`, `rx_snapshot.py`, the copy of the GHASH code in `freq_sweep.py`, `aes_gcm_dma.py`, `tx_daemon.py` and other register plumbing: no further property.
- Display, video encoding, HDMI capture, configuration and argument parsing.
- Capture.Receiver.OnSegment: the entry list that Python shares between the table and a local variable is a value here, written back only while its frame is in the table.
- RingBackend.Mapping.Push: the other side does not move during the call; interleavings are the subject of SlotRingFifo.
- RingBackend.Mapping.Pop: likewise for a single caller.
