# Verified models of the market-data engine

Five connected parts of the engine, modelled in Dafny and proved over every input, every run or every
reachable state. Each part has a small specification on values and the imperative objects of the source that
refine it; the whole-run theorems are lemmas about the specification.

- **Sequencing, recovery and merge** (`SequenceTracker`, `Sequencer`, `RecoveryStore`, `DeterministicMerger`,
  `PipelineModel`, `PipelineSafety`, `PipelineConservation`, `PipelineDeterminism`, `PipelineRecovery`,
  `Pipeline`, `AbArbiter`, `Sharded`). The tag ring refines a window of numbers; the pipeline refines five
  lanes, one per venue. Main results: in every run the pending maps agree with the rings and published sequences
  increase (`EveryRunIsSafe`); every event is accounted for (`EveryRunBalances`); what is published, the merged
  stream and its checksum do not depend on arrival order, repetition or the drains in between
  (`SameEventsSamePublication`, `ArrivalOrderIsIrrelevant`); the number wanted next is recovered if and only if
  its lookup finds it (`EveryRunRecoversTheNext`); and the A/B arbiter delivers exactly the first arrivals, from
  whichever feed, if and only if each comes right after its predecessor (`ArbitrationDeliversTheFirsts`).
- **Order books** (`BookModel`, `OrderTable`, `PriceLevels`, `OrderBookEngine`, `SlabModel`,
  `IntrusiveOrderBook`, `BooksAgree`, `Nbbo`). The hash-table book and the slab book both refine one list of
  live orders in arrival order; `ReplayBoth` and `SnapshotsEqual` are the agreement of the two on every
  well-formed tape. The slab book keeps true best prices and its key index on every tape with fresh ids,
  whatever it refuses (`ReplayFresh`). What both show is the highest bid and the lowest ask
  (`TopShowsBestPrices`). The NBBO replay, which skips events that move no top, ends with the quotes of all
  books.
- **The SPMC seqlock ring** (`SeqlockRing`), as interleaved steps of one writer and any number of readers,
  each step touching one version or one word.
- **Journal, CRC-32 and MoldUDP64** (`Bytes`, `Crc32`, `EventChecksum`, `JournalFormat`, `Journal`, `MoldUdp`).
  Writers and reader, packer and framer undo each other; truncation and corruption cost exactly what they
  must. CRC chaining is that of section 8 of RFC 1952; framing is the "Downstream Packet" section of the
  MoldUDP64 Protocol Specification.
- **The simulated matching engine** (`Matching`): price-time priority within a fill budget, and conservation
  of every order's quantity.

Some predicates are written `forall u {:trigger Unsealed(u)} :: Unsealed(u) ==> ...`. This changes nothing
about what they mean, since `Unsealed` is always true; it keeps their contents out of proofs that only pass
them on.

## What turned out not to hold

Each of these is the code as it stands, with a lemma that names the input and one that says exactly when the
property does hold.

- A store that keeps arrival order is searched by halving, so recovery can miss an event it holds
  (`LookupCanMiss`). A store without repeated numbers gives every event it holds if and only if it is sorted
  (`FindsAllIffSorted`).
- The pipeline does count an inconsistency when an in-order release runs off the end of the 64-bit range, and
  only then (`InconsistencyIsTheWrap`, `WrapCountsAnInconsistency`). Published streams stay increasing and
  behind the next number wanted, and maps equal to rings, if and only if none was counted
  (`EveryRunIsSafe`); and none is counted below the last number (`BelowWrapIsConsistent`).
- An event refused as too far ahead takes earlier ones with it, so order does matter outside the gap window
  (`TooFarAheadLosesEvents`); it comes back itself when its successor arrives, if and only if the window is not
  0 and the store keeps two events (`RefusedIsRecoveredIff`). A run refuses nothing and counts no inconsistency
  if and only if no event arrives further ahead of its venue's least missing number than the window and no venue
  receives all of 1 .. 2^64 - 1 (`QuietIffWithinWindow`); then it also reinjects nothing
  (`NothingIsReinjected`).
- Events the arbiter keeps aside are never delivered, then or later, from either feed
  (`KeptAsideIsNeverDelivered`). All first arrivals are delivered without a skip if and only if each comes
  right after its predecessor, that is, if nothing was kept aside or skipped
  (`ArbitrationDeliversTheFirsts`); two lossy copies of a source give it back if and only if no event was
  dropped by both (`ArbitrationRestoresTheSource`).
- The arbiter's replay of an event kept aside is dead code until the 64-bit range wraps (`NothingReplays`) and
  not after it (`ReplaysAfterTheWrap`): a wrap leads to a replay, short of a second wrap, if and only if it
  leaves something kept aside (`ReplaysIffSomethingIsLeft`).
- A gap window of 2^64 - 1 makes the ring size wrap to two slots (`SequenceTracker.constructor`), where
  remembering 4 displaces 2 (`TwoSlotsForget`); a ring larger than the window forgets nothing (`RingIsWindow`).
- A forced advance to a number that is itself buffered leaves a stale tag, and nothing else does
  (`SequenceTracker.ForceAdvance`); three calls lead there (`ForcedOntoBuffered`).
- Order keys of different venues collide from ids of 2^56 on (`LargeIdsCollide`): keys tell all orders with
  ids below a bound apart if and only if the bound is at most 2^56 (`KeysDifferExactlyBelow`).
- A put into the order table fails also when no slot is empty, however many tombstones there are (`PutOrder`).
  One order per home slot, put and erased, leads there with an empty table (`Saturate`), and no new key enters
  it ever again (`RunSaturated`).
- A cancel misses an order whose id has been bound to another symbol since (`RebindingHidesAnOrder`). It takes
  all that rests of its id while no two resting orders share an id and each is bound to its own symbol
  (`SimMatchingEngine.Cancel`): a binding keeps this if and only if the id rests on no other symbol, a submission
  if and only if the id does not rest yet, cancels and prints always; so it holds while every id is bound and
  submitted once (`RunEachOnce`).
- The checksum of a record covers its payload alone: a changed number or timestamp is read as if it were right
  (`CorruptionMisreadsOneRecord`), and a changed length loses all behind it (`CorruptionEndsReading`). A journal
  cut off and continued reads back whole if and only if its length shows that it was cut between two records
  (`ContinuedReadsBackIff`, `SessionAfterCut`).
- A sequence can be read off a slot's version if and only if it is below 2^63 (`VersionReadsBackIff`,
  `VersionsWrap`); a cursor placed at 2^63 - 1 reads a slot never written (`NeverWrittenCanBeRead`).
- A seqlock reader that fell behind without noticing never recovers (`LappedReadersStay`); six steps lead to
  one (`ReadersCanBeLapped`). A reader at rest behind the count it has seen can still succeed if and only if its
  slot shows the version it wants (`CompletesIffWanted`).
- A datagram that takes 65536 messages or more wraps its 16-bit count: messages are lost if and only if the
  message limit, the input and the byte limit let that many in (`NothingLostIffCountFits`). An input that does
  it is in `SmallMessagesOverflow`; limits exclude it on every input if and only if they allow fewer than
  65536 messages or fewer bytes than so many one-byte messages take (`LimitsAreSafeIffNoOverflow`).

## Model

| member | source | states |
|---|---|---|
| SequenceTracking.SequenceTracker.constructor | src/phase2/sequence_tracker.cpp:15-17 | a new tracker wants 1 and remembers nothing, in a ring of at least two slots, larger than the gap window unless that is 2^64 - 1 |
| SequenceTracking.SequenceTracker.MarkBuffered | src/phase2/sequence_tracker.cpp:19-22 | remembering a number displaces exactly what shares its slot, which in a ring larger than the gap window is nothing |
| SequenceTracking.SequenceTracker.PopBuffered | src/phase2/sequence_tracker.cpp:24-31 | succeeds exactly when the slot holds the number, and then clears that slot only |
| SequenceTracking.SequenceTracker.OnSequence | src/phase2/sequence_tracker.cpp:33-74 | on a ring of any size next number, tags, status, counts and missing range are as stated, also across the 64-bit wrap; a ring larger than the gap window follows the abstract window |
| SequenceTracking.UpdateReports | src/phase2/sequence_tracker.cpp:35-76 | by plain comparisons with the number wanted next: old below it, in order at it, held up to a gap window beyond it, too far after that; what is missing runs from the number wanted to the one before; a release runs to the first hole, or through 2^64 - 1 |
| SequenceTracking.SequenceTracker.ReleaseRun | src/phase2/sequence_tracker.cpp:49-61 | an in-order number releases itself and the whole run behind it, up to the first hole |
| SequenceTracking.SequenceTracker.ForceAdvance | src/phase2/sequence_tracker.cpp:76-92 | both branches, on a ring of any size; on one larger than the gap window exactly the numbers below the new base are dropped; the tracker stays valid if and only if the new base was not buffered |
| SequenceTracking.ForcedOntoBuffered | src/phase2/sequence_tracker.cpp:76-92 | a new tracker, number 2, then forced to 2: the tag of 2 stays behind, for every gap window from 1 to 2^64 - 2 |
| SequenceTracking.SequenceTracker.ClearBelow | src/phase2/sequence_tracker.cpp:84-89 | clearing number by number leaves exactly the numbers from the new base on |
| SequenceTracking.LiveSlotsDiffer | src/phase2/sequence_tracker.cpp:15-22 | buffered numbers never share a slot |
| SequenceTracking.RingIsWindow | src/phase2/sequence_tracker.cpp:15-92 | a ring larger than the gap window does what the set of numbers does |
| SequenceTracking.TwoSlotsForget | src/phase2/sequence_tracker.cpp:15-22 | in a ring of two slots, remembering 4 forgets 2 |
| SequenceTracking.StepKeepsSummary | src/phase2/sequence_tracker.cpp:33-74 | the window of one step summarises one more received number, unless that completes the whole range: least missing, and what lies beyond |
| SequenceTracking.WindowIsLeastMissing | src/phase2/sequence_tracker.cpp:33-74 | over any run with no gap too large the next number is the least not received, exactly until all of 1 .. 2^64 - 1 are in; until then the released counts sum to one less |
| SequenceTracking.WrapsExactlyAtTheEnd | src/phase2/sequence_tracker.cpp:49-61 | the next number ever falls, back to 1, if and only if the release reaches 2^64 - 1 |
| GapSequencing.MultiVenueSequenceTracker.constructor | src/phase2/sequence_tracker.cpp:94-99 | one fresh tracker per venue, sharing no ring; valid for every gap window but 2^64 - 1 |
| GapSequencing.MultiVenueSequenceTracker.OnSequence | src/phase2/sequence_tracker.cpp:107-109 | one venue takes the step, all others keep their windows |
| GapSequencing.MultiVenueSequenceTracker.ForceAdvance | src/phase2/sequence_tracker.cpp:111-113 | one venue advances, all others keep their windows; validity is lost only by a buffered new base |
| GapSequencing.GapAwareSequencer.OnSequence | src/phase2/recovery.cpp:5-25 | a request is made exactly when numbers are missing, and only detected gaps are searched for |
| GapSequencing.GapAwareSequencer.ForceAdvance | src/phase2/recovery.cpp:27-29 | as for the trackers |
| GapSequencing.GapAwareSequencer.NextExpected | src/phase2/recovery.cpp:31-33 | the venue's next number |
| RecoveryStorage.ReplayRecoveryStore.RecordEvent | src/phase2/recovery_simulator.cpp:16-22 | the venue keeps its newest events up to the limit, the new one last, others are untouched |
| RecoveryStorage.ReplayRecoveryStore.EvictBefore | src/phase2/recovery_simulator.cpp:24-29 | old events leave from the front, stopping at the first that is not old |
| RecoveryStorage.EvictedKeeps | src/phase2/recovery_simulator.cpp:24-29 | eviction never loses an event at or above the mark and never invents one |
| RecoveryStorage.EvictedIsTail | src/phase2/recovery_simulator.cpp:24-29 | eviction leaves a tail of the store whose first event is at or above the mark; what is gone was below it |
| RecoveryStorage.ReplayRecoveryStore.LookupEvent | src/phase2/recovery_simulator.cpp:31-42 | the halving loop computes the lookup whose soundness is proved below, on any store |
| RecoveryStorage.LookupIsSound | src/phase2/recovery_simulator.cpp:31-42 | a hit is a stored event with that number, on any store; on a sorted store there is a hit if and only if there is such an event |
| RecoveryStorage.FindsAllIffSorted | src/phase2/recovery_simulator.cpp:31-42 | a store without repeated numbers gives every event it holds if and only if it is sorted |
| RecoveryStorage.LookupCanMiss | src/phase2/recovery_simulator.cpp:31-42 | two events recorded out of order: the second is stored and not found |
| RecoveryStorage.HitsAreGenuine | src/phase2/recovery_simulator.cpp:53-60 | whatever a request recovers was stored and lies in the missing range |
| RecoveryStorage.HitsAreExactly | src/phase2/recovery_simulator.cpp:53-60 | exactly the events that the lookup of some number from begin to end, both included, gives, in strictly ascending order, once each |
| RecoveryStorage.SortedStoreRecoversAll | src/phase2/recovery_simulator.cpp:53-60 | on a sorted store without repeated numbers these are all stored events of the range |
| RecoveryStorage.ReplayRecoverySimulator.RequestRecovery | src/phase2/recovery_simulator.cpp:44-61 | every request is counted; a detected gap with a store adds exactly the events that looking up the missing numbers, both ends included, gives, in strictly ascending order, once each; without a store, or for a span too large, nothing is added |
| RecoveryStorage.ReplayRecoverySimulator.DrainRecovered | src/phase2/recovery_simulator.cpp:63-67 | everything recovered is handed over once |
| DeterministicMerge.DeterministicMerger.Push | src/phase2/deterministic_merger.cpp:31-40 | never refuses; only the event's venue queue grows, at its end |
| DeterministicMerge.DeterministicMerger.PopNext | src/phase2/deterministic_merger.cpp:42-60 | takes the head of the merged stream, or reports empty exactly when all queues are; no queue front has a smaller exchange time than the event popped, nor the same time and a lower venue; exactly one queue lost its front |
| DeterministicMerge.LessEventOnFields | src/phase2/deterministic_merger.cpp:18-29 | earlier exchange time first, then lower venue, then lower sequence |
| DeterministicMerge.DeterministicMerger.QueuedCount | src/phase2/deterministic_merger.cpp:62-68 | the number of events not yet drained |
| DeterministicMerge.MergeKeepsEveryVenue | src/phase2/deterministic_merger.cpp:42-60 | the merged stream restricted to a venue is that venue's queue: nothing lost, invented or reordered |
| DeterministicMerge.MergeLength | src/phase2/deterministic_merger.cpp:62-68 | draining yields exactly as many events as are queued |
| DeterministicMerge.MergeIsOrdered | src/phase2/deterministic_merger.cpp:18-60 | ordered queues merge into an ordered stream |
| DeterministicMerge.MergeIsInTimeOrder | src/phase2/deterministic_merger.cpp:18-60 | if the exchange time never falls in any queue it never falls in the merged stream |
| DeterministicMerge.MergeBreaksTiesByVenue | src/phase2/deterministic_merger.cpp:18-60 | of two neighbours of the merged stream with equal times the lower venue comes first, if the later one was at a queue front |
| DeterministicMerge.MergeOfOrderedStream | src/phase2/deterministic_merger.cpp:18-60 | splitting an ordered stream by venue and merging it back is the identity |
| SequencingPipeline.Pipeline.constructor | src/phase2/pipeline.cpp:8-14 | a new pipeline is the start state, with a store of gap window + 64 events per venue, in 64 bits; valid for every gap window but 2^64 - 1 |
| SequencingPipeline.Pipeline.OnEvent | src/phase2/pipeline.cpp:16-28 | record, process and reinject refine one step of the lanes, of which the theorems of safety, conservation, determinism and recovery speak |
| SequencingPipeline.Pipeline.ReinjectOne | src/phase2/pipeline.cpp:20-27 | recovered events already held back are skipped, others processed and counted |
| SequencingPipeline.Pipeline.Finalize | src/phase2/pipeline.cpp:30-39 | the sink and the checksum receive the merge of all queues, which are then empty |
| SequencingPipeline.Pipeline.EvictPendingBefore | src/phase2/pipeline.cpp:47-50 | keeps the pending events from the mark on, and the count of evictions is exact |
| SequencingPipeline.Pipeline.ProcessEvent | src/phase2/pipeline.cpp:52-102 | every status branch leaves ring, pending map, store, queue and counters in step with the lane |
| SequencingPipeline.Pipeline.Refuse | src/phase2/pipeline.cpp:59-71 | a refusal advances the window and the pending map to the same base |
| SequencingPipeline.Pipeline.Hold | src/phase2/pipeline.cpp:74-78 | holding back keeps map and ring equal |
| SequencingPipeline.Pipeline.Release | src/phase2/pipeline.cpp:80-101 | the loop driven by the released count publishes exactly the held-back run |
| SequencingPipeline.Pipeline.PublishRun | src/phase2/pipeline.cpp:82-96 | published events are the run from the first number; an inconsistency is counted only for a number released at the wrap |
| SequencingPipeline.Pipeline.Publish | src/phase2/pipeline.cpp:104-110 | every published event is accepted; the overflow branch is unreachable |
| PipelineSafety.LaneStaysOk | src/phase2/pipeline.cpp:52-102 | unless a release runs off the range: held-back numbers stay inside the window, next never falls, and what is stored is published, next or held back |
| PipelineSafety.OnEventIsSafe | src/phase2/pipeline.cpp:16-28 | unless an inconsistency is counted, a reinjected event is in order or old: it opens no gap, forces no advance, and none is left over |
| PipelineSafety.EveryRunIsSafe | src/phase2/pipeline.cpp:16-110 | in a run of arrivals and drains maps equal rings and published numbers strictly increase per venue and stay below the next one wanted, if and only if no inconsistency was counted; the recovered queue is then empty |
| PipelineSafety.EveryRunShowsItsWrap | src/phase2/pipeline.cpp:80-101 | in every run events stay in their venue's lane, and once an inconsistency is counted 2^64 - 1 has been published |
| PipelineSafety.InconsistencyIsTheWrap | src/phase2/pipeline.cpp:82-91 | an inconsistency is counted if and only if an in-order release runs to 2^64 - 1 |
| PipelineSafety.BelowWrapIsConsistent | src/phase2/pipeline.cpp:82-91 | no run without the number 2^64 - 1 counts an inconsistency |
| PipelineSafety.WrapCountsAnInconsistency | src/phase2/pipeline.cpp:82-91 | the last number twice: refused, then counted as an inconsistency |
| PipelineConservation.EvictionSplits | src/phase2/pipeline.cpp:47-65 | evicted plus kept is what was pending |
| PipelineConservation.ReadyRunLeaves | src/phase2/pipeline.cpp:82-96 | released plus kept is what was pending |
| PipelineConservation.CountersMove | src/phase2/pipeline.cpp:52-102 | which counters one event moves, by plain comparisons with the number wanted next, and by how much queue and pending map change |
| PipelineConservation.EveryRunBalances | src/phase2/pipeline.cpp:16-110 | in every run: events in + reinjected = accepted + dropped + evicted + pending + overwritten; accepted = drained + queued; recovery requests = held back + refused |
| PipelineDeterminism.ArrivalsAreDeterministic | src/phase2/pipeline.cpp:16-110 | within the gap window, no venue complete, before any drain, each queue is exactly the contiguous prefix received, numbered 1, 2, 3, ..., as long as the least missing number says |
| PipelineDeterminism.RunsAreDeterministic | src/phase2/pipeline.cpp:16-110 | within the gap window, no venue complete, with drains anywhere: every venue has published exactly the contiguous prefix received, holds back exactly the rest, and nothing was refused or reinjected |
| PipelineDeterminism.QuietIffWithinWindow | src/phase2/pipeline.cpp:16-110 | a run refuses nothing and counts no inconsistency if and only if no event arrives beyond the window of what arrived before it and no venue receives the whole range |
| PipelineDeterminism.RefusedIffBeyondWindow | src/phase2/pipeline.cpp:59-71 | while no venue receives the whole range, a run refuses nothing as too far ahead if and only if no event arrives beyond the window of what arrived before it |
| PipelineDeterminism.NothingIsReinjected | src/phase2/pipeline.cpp:16-28 | a run without refusals reinjects nothing, drains anywhere |
| PipelineDeterminism.SameEventsSamePublication | src/phase2/pipeline.cpp:16-110 | two runs that receive the same events without refusals, in any order and repetition, drains anywhere, under any gap windows: each venue has published the same stream and holds back the same events |
| PipelineDeterminism.ArrivalOrderIsIrrelevant | src/phase2/pipeline.cpp:16-110 | two tapes of the same events that are not refused, in any order and repetition, under any gap windows, give the same merged stream and checksum after one drain |
| PipelineDeterminism.TooFarAheadLosesEvents | src/phase2/pipeline.cpp:59-71 | three events, last one first, with a window of 1: nothing comes out; in order all three do |
| PipelineRecovery.StoreLooksBack | src/phase2/pipeline.cpp:67-101 | an advance drops from the front of the store what lies more than 64 below the number wanted next, and nothing else |
| PipelineRecovery.NextIsRecoveredIff | src/phase2/pipeline.cpp:16-28 | when an arrival is held back, the number wanted next is published in the same call if and only if its lookup in the store finds it, and then it is the event found |
| PipelineRecovery.EveryRunRecoversTheNext | src/phase2/pipeline.cpp:16-28 | the same in every run, while no inconsistency is counted |
| PipelineRecovery.RefusedIsRecovered | src/phase2/pipeline.cpp:16-71 | an event refused as too far ahead is published when its successor arrives, together with the successor, for every window but 0 whose store keeps two events |
| PipelineRecovery.RefusedIsRecoveredIff | src/phase2/pipeline.cpp:16-71 | the refused event comes back with its successor if and only if the window is not 0 and the store, of gap window + 64 events in 64 bits, keeps at least two |
| PipelineRecovery.EveryRunRecoversTheRefused | src/phase2/pipeline.cpp:16-71 | it does in every run, whatever came before, while no inconsistency is counted |
| PipelineRecovery.RefusedComesBack | src/phase2/pipeline.cpp:16-71 | 1, 10, 11 with a window of 4: all three are published |
| AbArbitration.AbArbiter.constructor | src/phase2/ab_arbiter.cpp:14-16 | an idle arbiter has no recovery handler and wants 1 everywhere; valid for every gap window but 2^64 - 1 |
| AbArbitration.AbArbiter.OnEvent | src/phase2/ab_arbiter.cpp:14-69 | each arrival that replays nothing, past a wrap as before it, does to deliveries, windows, counters and what is kept aside what the arbiter on values says; accepted exactly when in order |
| AbArbitration.AbArbiter.Deliver | src/phase2/ab_arbiter.cpp:36-67 | one delivery, credited to one feed; exactly the events beyond the next number stay aside, sorted, each as often as before; other venues keep theirs |
| AbArbitration.AbArbiter.EraseReleased | src/phase2/ab_arbiter.cpp:47-67 | where no event has the next number, the sort and erase loop keeps exactly what lies beyond it, sorted and with its multiplicity |
| AbArbitration.AbArbiter.DrainReady | src/phase2/ab_arbiter.cpp:71-75 | deliveries are handed over once, in order |
| AbArbitration.MakeDualFeedRaceStream | src/phase2/ab_arbiter.cpp:77-122 | for any drops: the copies of the source in parity order, with exact drop counts |
| AbArbitration.EveryRunKeepsWindows | src/phase2/ab_arbiter.cpp:14-69 | in every run, past a wrap as before it: accepted = accepted from A + accepted from B, and what waits lies in the gap window |
| AbArbitration.EveryArrivalIsCounted | src/phase2/ab_arbiter.cpp:18-69 | in every run each arrival is delivered, dropped as old, kept aside or skipped to, exactly one of the four, and each delivery is credited to one feed |
| AbArbitration.EveryRunIsFair | src/phase2/ab_arbiter.cpp:14-75 | in every run that has not wrapped each venue's deliveries strictly increase and accepted = accepted from A + accepted from B |
| AbArbitration.KeptAsideIsNeverDelivered | src/phase2/ab_arbiter.cpp:24-67 | in every run that has not wrapped: the number of an event kept aside is not delivered, then or later, from either feed |
| AbArbitration.NothingReplays | src/phase2/ab_arbiter.cpp:58-64 | in every run that has not wrapped no event kept aside is met when its turn has come: the replay is dead code |
| AbArbitration.ReplaysAfterTheWrap | src/phase2/ab_arbiter.cpp:58-64 | 3, the last number twice, 1, 2: the wrap brings an event kept aside to its turn |
| AbArbitration.ReplaysIffSomethingIsLeft | src/phase2/ab_arbiter.cpp:58-64 | after the first wrap some continuation without a second one reaches the replay, if and only if the wrap leaves something kept aside |
| AbArbitration.ArbitrationDeliversTheFirsts | src/phase2/ab_arbiter.cpp:14-75 | for all interleavings of two feeds, short of the wrap: the deliveries are exactly the first arrivals, with no forced advance, if and only if each first arrival comes right after its predecessor, if and only if nothing is kept aside or skipped |
| AbArbitration.ArbitrationRestoresTheSource | src/phase2/ab_arbiter.cpp:14-116 | two lossy copies of a contiguous source are merged back into it, with no forced advance, if and only if no event was dropped by both |
| AbArbitration.CreditGoesToTheLeader | src/phase2/ab_arbiter.cpp:36-122 | in a race that loses nothing feed A is credited with the even events it keeps and those feed B drops, feed B with the rest |
| AbArbitration.LostEventIsNotDelivered | src/phase2/ab_arbiter.cpp:97-99 | an event dropped by both feeds is never delivered |
| ShardedReaggregation.ShardedReaggregator.Submit | include/mf/runtime/sharded_pipeline.hpp:84-104 | events are routed in submit order with a new ingest stamp; flag and checksum stay true of the routed sequence |
| ShardedReaggregation.ShardedReaggregator.UpdateIncrementalReaggregationCrc | include/mf/runtime/sharded_pipeline.hpp:193-202 | the flag survives exactly while the input is in order, and then the checksum covers all of it |
| ShardedReaggregation.IsDeterministicOrdered | include/mf/runtime/sharded_pipeline.hpp:184-191 | true if and only if no event is smaller than its predecessor |
| ShardedReaggregation.ShardedReaggregator.Finalize | include/mf/runtime/sharded_pipeline.hpp:120-148 | fast path or slow path, the result is the checksum of the merged stream; the fast path is taken exactly on ordered input |
| ShardedReaggregation.MergedCrc | include/mf/runtime/sharded_pipeline.hpp:140-147 | push all, pop all gives the checksum of the merge of the venue projections |
| ShardedReaggregation.DeterministicCrcForEvents | include/mf/runtime/sharded_pipeline.hpp:274-283 | the baseline is the checksum of a single pipeline's output |
| ShardedReaggregation.PipelineOfContiguousTape | include/mf/runtime/sharded_pipeline.hpp:274-283 | on a contiguously numbered tape the pipeline emits the merge of the tape's venue projections |
| ShardedReaggregation.ShardedAgreesWithPipeline | include/mf/runtime/sharded_pipeline.hpp:120-148 | on such tapes the re-aggregated checksum of the stamped events equals the single-pipeline checksum |
| Crc32.Crc32Update | src/core/crc32.cpp:5-15 | the nested loops compute the fold whose chaining and detection are proved below |
| Crc32.UpdateBit | src/core/crc32.cpp:9-12 | the masked exclusive-or is the conditional division step |
| Crc32.CrcChains | src/core/crc32.cpp:5-15 | feeding two runs through the seed equals feeding their concatenation |
| Crc32.CheckValue | src/core/crc32.cpp:5-15 | the bytes of "123456789" give 0xCBF43926 |
| Crc32.BitStepReversible | src/core/crc32.cpp:9-12 | each bit step is injective on 32-bit states |
| Crc32.ByteCorruptionDetected | src/core/crc32.cpp:5-15 | any change confined to one byte changes the CRC |
| EventChecksum.UpdateCrcFromBookEvent | include/mf/core/book_event_crc.hpp:15-24 | the chained updates are one checksum of the 42 bytes laid out below |
| EventChecksum.EventLayout | include/mf/core/book_event_crc.hpp:15-24 | the 42 bytes: each of the eight fields at its offset and in its byte order |
| EventChecksum.EventBytesEqualIff | include/mf/core/book_event_crc.hpp:15-24 | the bytes are equal if and only if all eight fields are |
| EventChecksum.OtherFieldsDoNotCount | include/mf/core/book_event_crc.hpp:15-24 | events that agree in the eight fields have the same checksum, whatever the others |
| EventChecksum.FieldByteChangesChecksum | include/mf/core/book_event_crc.hpp:15-24 | events that differ in one byte of one of the eight fields, or in venue or kind alone, have different checksums for every seed |
| ByteCodec.LittleEndianDigit | include/mf/core/book_event_crc.hpp:15-24 | byte i is the digit of weight 256 to the i |
| ByteCodec.BigEndianDigit | include/mf/core/types.hpp:46-55 | byte i from the end is the digit of weight 256 to the i |
| EventChecksum.StreamCrcOfOneMore | include/mf/core/book_event_crc.hpp:15-24 | the checksum of a stream extends event by event |
| BookModel.KeyOfSmallId | src/phase3/order_book_engine.cpp:27-30 | below 2^56 both venue and id can be read off the key |
| BookModel.KeysAreInjective | src/phase3/order_book_engine.cpp:27-30 | below 2^56 keys differ whenever venue or id does |
| BookModel.LargeIdsCollide | src/phase3/order_book_engine.cpp:27-30 | each id below 2^56 of one venue shares its key with an id 2^56 larger of another |
| BookModel.KeysDifferExactlyBelow | src/phase3/order_book_engine.cpp:27-30 | keys of all ids below a bound tell venue and id apart if and only if the bound is at most 2^56 |
| BookModel.DepthIsDetermined | src/phase3/order_book_engine.cpp:283-297 | the live orders admit only one full depth |
| BookModel.FrontIsBest | src/phase3/order_book_engine.cpp:41-54 | the front of a depth is the best price with the sum of its orders |
| BookModel.TopShowsBestPrices | src/phase3/order_book_engine.cpp:41-66 | the bid shown is the price of a live bid that no live bid exceeds, the ask that of a live ask that none is below, with the sums resting there; zeros if there is none |
| BookModel.SnapshotShowsOrders | src/phase3/order_book_engine.cpp:275-297 | bid prices strictly fall and ask prices strictly rise; each level is the sum of its live orders, and every live order is in a level |
| BookModel.ReductionOnOrders | src/phase3/order_book_engine.cpp:202-273 | an execution, cancel or deletion takes its quantity from the order referred to, which goes if none is left, none is named or it is deleted; all other orders stand |
| BookModel.ArrivalOnOrders | src/phase3/order_book_engine.cpp:202-273 | an arrival or replacement joins at the end with its venue, symbol, side, price and quantity; a replacement only when the order referred to has left |
| BookModel.StepKeepsGoodBook | src/phase3/order_book_engine.cpp:202-261 | well-formed events keep keys unique, quantities positive and venues matching keys |
| PriceLevels.LowerBound | src/phase3/order_book_engine.cpp:60-66 | halving finds where better prices end |
| PriceLevels.QtyAtPrice | src/phase3/order_book_engine.cpp:56-71 | the quantity shown for a price, zero if unlisted |
| PriceLevels.AddQty | src/phase3/order_book_engine.cpp:73-90 | one price gains the quantity, all others keep theirs, and the side stays sorted |
| PriceLevels.ReduceQty | src/phase3/order_book_engine.cpp:92-112 | one price loses the quantity down to zero, where its level disappears; all others keep theirs |
| OrderTables.OrderTable.constructor | src/phase3/order_book_engine.cpp:8-14 | a new table is the empty map, for any size and mixing function |
| OrderTables.OrderTable.FindOrder | src/phase3/order_book_engine.cpp:136-149 | found if and only if the map has the key, and then its entry, past tombstones and around the end |
| OrderTables.OrderTable.FindPlace | src/phase3/order_book_engine.cpp:159-179 | the key's own slot, else a free slot met by its probe, else none because no slot is empty |
| OrderTables.OrderTable.PutOrder | src/phase3/order_book_engine.cpp:151-182 | fails if and only if over half full, or the key is new and no slot is empty; a failure leaves the table unchanged, a success updates the map; no slot gets empty |
| OrderTables.OrderTable.EraseOrder | src/phase3/order_book_engine.cpp:184-200 | removes the key from the map and nothing else; no slot gets empty |
| OrderTables.OrderTable.CountIsSize | include/mf/phase3/order_book_engine.hpp:28 | the counter is the size of the map, and at most one more than half the slots |
| OrderTables.BuryKeepsTable | src/phase3/order_book_engine.cpp:184-200 | a tombstone breaks no probe path to another order |
| OrderTables.Saturate | src/phase3/order_book_engine.cpp:151-200 | one order for each home slot, put and erased, leaves a table that is empty and has no empty slot, for every size and every mixing function that reaches all slots |
| OrderTables.RunSaturated | src/phase3/order_book_engine.cpp:151-200 | over any puts and erases a table without an empty slot stays so and never takes a new key |
| HashBook.OrderBookEngine.OnEvent | src/phase3/order_book_engine.cpp:202-273 | on every tape the parts stay sound; on well-formed tapes with no drop the book follows the list of orders and reports its top (the highest live bid, the lowest live ask), change of top and queue ahead |
| HashBook.OrderBookEngine.Enter | src/phase3/order_book_engine.cpp:213-222 | an arrival adds to its level and to the table, other books untouched |
| HashBook.OrderBookEngine.ReduceOrder | src/phase3/order_book_engine.cpp:228-241 | an execution, cancel or delete reduces or removes the order referred to, and its level by the same quantity |
| HashBook.OrderBookEngine.DropReferenced | src/phase3/order_book_engine.cpp:243-251 | the first half of a replacement removes the order referred to |
| HashBook.OrderBookEngine.TopOfBook | src/phase3/order_book_engine.cpp:275-281 | on well-formed tapes the highest bid and the lowest ask over the live orders, with the sums resting there |
| HashBook.OrderBookEngine.Snapshot | src/phase3/order_book_engine.cpp:283-297 | on every tape bid prices strictly fall and ask prices strictly rise; on well-formed ones the full depth of the live orders: every level once, with the sum of its orders |
| HashBook.OrderBookEngine.LiveOrderCount | include/mf/phase3/order_book_engine.hpp:28 | on every tape the number of orders in the table; on well-formed ones of live orders |
| HashBook.OrderBookEngine.QuantitiesFit | src/phase3/order_book_engine.cpp:73-90 | while the tape is well-formed no level quantity gets past 64 bits in a table of up to 2^32 slots |
| HashBook.CoupledTop | src/phase3/order_book_engine.cpp:41-54 | fronts of the sorted sides are the top of the live orders |
| HashBook.CountIsLiveOrders | src/phase3/order_book_engine.cpp:151-200 | a table that holds the live orders has one entry for each |
| IntrusiveBook.IntrusiveOrderBook.constructor | src/phase3/intrusive_order_book.cpp:8-18 | all nodes blank and free, no orders |
| IntrusiveBook.IntrusiveOrderBook.OnEvent | src/phase3/intrusive_order_book.cpp:244-274 | on every tape the slab stays sound; while ids are fresh, whatever is refused or names a foreign symbol, the book holds the orders it should, and reports the highest live bid, the lowest live ask and whether the top changed; on well-formed tapes with no drop it follows the list of orders and reports queue ahead too |
| IntrusiveBook.SlabTakesIn | src/phase3/intrusive_order_book.cpp:150-274 | an arrival without id or side, or without a free node, changes nothing, any other joins at the end; a replacement takes the place of the order referred to, and its side if it names none |
| IntrusiveBook.IntrusiveOrderBook.QuantitiesFit | src/phase3/intrusive_order_book.cpp:150-222 | on every tape a level's quantity is the sum of its orders and fits 64 bits |
| IntrusiveBook.IntrusiveOrderBook.AddOrder | src/phase3/intrusive_order_book.cpp:150-186 | refused if and only if every node is taken; otherwise the order joins the end of its level's queue and the quantity ahead is the sum of that level |
| IntrusiveBook.IntrusiveOrderBook.TakeNode | src/phase3/intrusive_order_book.cpp:126-182 | the last free node is linked behind the tail |
| IntrusiveBook.IntrusiveOrderBook.ReduceOrder | src/phase3/intrusive_order_book.cpp:188-224 | the order of the key shrinks or leaves, on every tape; an unknown key changes nothing; while ids are fresh, exactly the order of the key is reduced |
| IntrusiveBook.IntrusiveOrderBook.UnlinkNode | src/phase3/intrusive_order_book.cpp:139-221 | neighbours are joined and the node is blank and free again |
| IntrusiveBook.IntrusiveOrderBook.ReplaceOrder | src/phase3/intrusive_order_book.cpp:226-242 | the order referred to is replaced by a new one at the end of its queue, taking its side if none is given; a drop shows only in the counter |
| IntrusiveBook.IntrusiveOrderBook.SnapshotTop | src/phase3/intrusive_order_book.cpp:37-54 | while ids are fresh, the cached best prices are the highest live bid and the lowest live ask, shown with the sums resting there |
| IntrusiveBook.IntrusiveOrderBook.Snapshot | src/phase3/intrusive_order_book.cpp:281-302 | on every tape bid prices strictly fall and ask prices strictly rise; while ids are fresh, the full depth of the live orders |
| IntrusiveBook.UpdateLevel | src/phase3/intrusive_order_book.cpp:92-102 | a level goes exactly when empty, and the cached best is searched again exactly when it was that level's |
| IntrusiveBook.RecomputeBest | src/phase3/intrusive_order_book.cpp:115-124 | the best non-empty level, in whatever order the levels are walked |
| IntrusiveBook.AddKeepsClean | src/phase3/intrusive_order_book.cpp:104-186 | after an arrival the cached best is the true best and every order is indexed by its key |
| IntrusiveBook.LeaveKeepsClean | src/phase3/intrusive_order_book.cpp:92-222 | after a removal the cached best is the true best and every order is indexed by its key |
| SlabModel.AddKeepsSound | src/phase3/intrusive_order_book.cpp:150-186 | appending a node keeps every queue linked in arrival order, every level its sum, every node free or queued |
| SlabModel.LeaveKeepsSound | src/phase3/intrusive_order_book.cpp:188-222 | unlinking a node keeps every queue linked in arrival order, every level its sum, every node free or queued |
| SlabModel.ShrinkKeepsSound | src/phase3/intrusive_order_book.cpp:204-207 | reducing an order in place keeps the queues and the sums |
| SlabModel.EveryNodeIsFreeOrQueued | src/phase3/intrusive_order_book.cpp:84-224 | each node is once on the free list or once on exactly its level's queue; free + live = capacity |
| SlabModel.RecomputedIsBest | src/phase3/intrusive_order_book.cpp:115-124 | the best over the levels is the best over the orders |
| BooksAgree.ApplyBoth | tests/test_phase3_intrusive_order_book.cpp:85-100 | one well-formed event keeps both books on the same list of orders, with equal reports |
| BooksAgree.ReplayBoth | tests/test_phase3_intrusive_order_book.cpp:85-100 | on every well-formed tape with no drop both books report the same top, change of top and queue ahead after every event |
| BooksAgree.ReplayFresh | src/phase3/intrusive_order_book.cpp:84-302 | on every tape with fresh ids the slab book holds exactly the orders of the tape that found a node, through refusals, foreign symbols and partial deletes |
| BooksAgree.SnapshotsEqual | tests/test_phase3_intrusive_order_book.cpp:85-100 | two books on the same orders give equal full-depth snapshots of every symbol and venue |
| BooksAgree.WellFormedTapesKeepGoodBooks | tests/test_phase3_intrusive_order_book.cpp:85-100 | after every well-formed tape each key names one order, on the venue it encodes |
| NbboConsolidation.Compute | src/phase3/nbbo_consolidator.cpp:17-41 | best bid and ask over the venues, lowest venue winning ties |
| NbboConsolidation.NbboIsDetermined | src/phase3/nbbo_consolidator.cpp:17-41 | the venues' tops admit only one such quote |
| NbboConsolidation.NbboConsolidator.UpdateAndCurrent | src/phase3/nbbo_consolidator.cpp:70-106 | one venue's entry is replaced, cached or not, a side without a quote keeping its sequence, and the quote is that of all venues |
| NbboConsolidation.NbboConsolidator.Update | src/phase3/nbbo_consolidator.cpp:60-68 | reports a change exactly when the quote differs |
| NbboConsolidation.NbboConsolidator.Current | src/phase3/nbbo_consolidator.cpp:112-118 | the quote of a symbol is always best over its venues, also for an unknown symbol |
| NbboConsolidation.ReplayToJournal | src/phase3/nbbo_journal_pipeline.cpp:35-71 | after any tape every symbol's quote is the best over the books themselves, although unmoved tops were skipped; the last journaled record is the current quote; records come from events in tape order, each with its event's symbol and timestamps, and none repeats the quote before it |
| NbboConsolidation.ReplayOne | src/phase3/nbbo_journal_pipeline.cpp:48-67 | the consolidator mirrors every book's top after each event, skipped or not; a record with the event's symbol and timestamps is written if and only if the quote changed |
| NbboConsolidation.MirroredIsBest | src/phase3/nbbo_consolidator.cpp:17-41 | a quote over mirrored tops is the best over the books |
| SeqlockRing.VersionRoundTrip | include/mf/core/spmc_seqlock_ring.hpp:112-122 | below 2^63 sequence and writing flag can be read off a version |
| SeqlockRing.VersionReadsBackIff | include/mf/core/spmc_seqlock_ring.hpp:112-122 | a sequence can be read off its version if and only if it is below 2^63 |
| SeqlockRing.VersionsWrap | include/mf/core/spmc_seqlock_ring.hpp:112-122 | versions repeat after 2^63 publications |
| SeqlockRing.WantedSlotIsWhole | include/mf/core/spmc_seqlock_ring.hpp:39-48 | a slot that shows the wanted version holds that whole item |
| SeqlockRing.WriteBeginKeepsInv | include/mf/core/spmc_seqlock_ring.hpp:42 | opening a slot disturbs no reader's claim |
| SeqlockRing.WriteWordKeepsInv | include/mf/core/spmc_seqlock_ring.hpp:43 | writing a word disturbs no reader's claim |
| SeqlockRing.WriteVersionKeepsInv | include/mf/core/spmc_seqlock_ring.hpp:44 | closing a slot makes it whole |
| SeqlockRing.ReadRecheckIsOk | include/mf/core/spmc_seqlock_ring.hpp:74-88 | an unchanged version means the copied words are the item of the cursor's sequence |
| SeqlockRing.EveryRunKeepsInv | include/mf/core/spmc_seqlock_ring.hpp:39-95 | the invariant holds in every interleaving of one writer and any readers |
| SeqlockRing.ReadersReceiveWhatWasPublished | include/mf/core/spmc_seqlock_ring.hpp:39-95 | wherever a cursor starts, every successful read is exactly the published item of its sequence, never torn, the marker of unwritten slots aside; sequences increase; next = start + successes + overruns; from the default cursor only what is published is read |
| SeqlockRing.NeverWrittenCanBeRead | include/mf/core/spmc_seqlock_ring.hpp:104-110 | a cursor at 2^63 - 1 reads a slot of an untouched ring |
| SeqlockRing.LappedForever | include/mf/core/spmc_seqlock_ring.hpp:52-60 | a lapped reader that has not caught up with the count it cached stays lapped under every step |
| SeqlockRing.LappedReadersStay | include/mf/core/spmc_seqlock_ring.hpp:52-95 | a lapped reader stays lapped and reads nothing more, over every continuation |
| SeqlockRing.ReadersCanBeLapped | include/mf/core/spmc_seqlock_ring.hpp:39-95 | a run of six steps from a new ring of one slot that leaves its reader lapped |
| SeqlockRing.CompletesIffWanted | include/mf/core/spmc_seqlock_ring.hpp:50-95 | a reader at rest behind the count it has seen can still succeed, by some continuation, if and only if its slot shows the version it wants |
| SeqlockRing.EveryRunKeepsNewest | include/mf/core/spmc_seqlock_ring.hpp:39-48 | in every interleaving the newest items, as many as the ring has slots and one less during a write, show their complete versions |
| SeqlockRing.OverrunSkipsTheOverwritten | include/mf/core/spmc_seqlock_ring.hpp:50-72 | a reader from the default position begins a read if and only if it is behind by no more than the ring holds; behind by more it is set exactly one ring behind the count it sees, charged with what lies between, none of which could still be read; what it is set to can be, if the count is fresh and no write is going on |
| SeqlockRing.TornTriesAreCounted | include/mf/core/spmc_seqlock_ring.hpp:65-95 | a try counts as torn exactly when it meets a version other than the complete one wanted, or the version changes while it copies |
| JournalFormat.CrcFieldRoundTrip | include/mf/journal/journal_format.hpp:21-26 | the four checksum bytes give the checksum back |
| JournalFormat.RecordOnBytes | src/journal/journal_writer.cpp:51-73 | 112 bytes: number and timestamp little-endian at 0 and 8, the length 88 at 16, checksum at 20, payload at 24 |
| JournalFormat.CrcFieldLayout | include/mf/journal/journal_format.hpp:21-26 | byte i of the checksum field is the digit of weight 256 to the i |
| JournalFormat.RecordReadsBack | src/journal/journal_reader.cpp:89-113 | a record read at its place is the record written, whatever follows |
| JournalFormat.RoundTrip | src/journal/journal_reader.cpp:76-120 | any records, written one after the other, are read back exactly, with no failure |
| JournalFormat.TruncationKeepsWholeRecords | src/journal/journal_reader.cpp:88-118 | cut anywhere, exactly the whole records are read, with an error if and only if a part of one remains |
| JournalFormat.ContinuedReadsBackIff | src/journal/journal_reader.cpp:88-118 | a journal cut off anywhere and continued gives its whole records first, and all the new ones without an error if and only if it was cut between two records |
| JournalFormat.CorruptionSkipsOneRecord | src/journal/journal_reader.cpp:88-114 | one changed byte of payload or checksum costs exactly that record and one failure; all others are read in order |
| JournalFormat.CorruptionMisreadsOneRecord | src/journal/journal_reader.cpp:89-113 | one changed byte of number or timestamp goes unnoticed: the record is given with another number or timestamp, all others as they were |
| JournalFormat.CorruptionEndsReading | src/journal/journal_reader.cpp:92-99 | one changed byte of the length ends the reading with one failure; what was before is read |
| Journal.JournalWriter.Open | src/journal/journal_writer.cpp:34-48 | succeeds exactly on a new file or one with the right header; continues its numbering; the previous file is flushed |
| Journal.JournalWriter.Append | src/journal/journal_writer.cpp:51-73 | file plus buffer grow by exactly the record, whether or not a flush comes first |
| Journal.JournalWriter.FlushActiveBuffer | src/journal/journal_writer.cpp:132-148 | however the writes are split, the file gains the buffer, whole and in order |
| Journal.JournalWriter.Flush | src/journal/journal_writer.cpp:75-82 | afterwards the file alone holds everything appended |
| Journal.JournalWriter.Close | src/journal/journal_writer.cpp:84-97 | nothing appended is lost on closing |
| Journal.CountedFromFile | src/journal/journal_writer.cpp:113-128 | the number found from the file size is one more than the records in it |
| Journal.LoggedNumbers | src/journal/journal_writer.cpp:65 | records are numbered consecutively |
| Journal.RunSession | src/journal/journal_writer.cpp:34-148 | one writer's life appends exactly its records, numbered on |
| Journal.RunSessions | src/journal/journal_writer.cpp:51-148 | any number of writers, buffer sizes and flush points leave one journal of 8 + 112 bytes for each record that reads back as all records, numbered 1, 2, 3, ... |
| Journal.SessionAfterCut | src/journal/journal_writer.cpp:113-130 | a writer on a cut journal numbers on behind its whole records; everything reads back if and only if the file length is a header and whole records |
| Journal.JournalReader.Open | src/journal/journal_reader.cpp:28-74 | accepts exactly files that start with "MFJN" and version 1, and names the reason otherwise |
| Journal.JournalReader.Next | src/journal/journal_reader.cpp:76-120 | returns the next intact record; none is skipped or repeated; failures and errors are exact |
| Journal.JournalReader.TryRecord | src/journal/journal_reader.cpp:88-114 | one turn of the loop: a record, a skip past a wrong checksum, or the end at a wrong length or an incomplete record; the reason and its offset are exact |
| Journal.JournalReader.ReadAll | src/journal/journal_reader.cpp:76-120 | reading until nothing comes gives all intact records; an error is set if and only if something was wrong |
| MoldUdp.WriteBe64 | include/mf/wire/itch_moldudp.hpp:33-37 | network byte order |
| MoldUdp.WriteBe16 | include/mf/wire/itch_moldudp.hpp:29-40 | reading back gives the number written |
| MoldUdp.WriteBe16Layout | include/mf/wire/itch_moldudp.hpp:29-32 | most significant byte first |
| MoldUdp.ReadBe | src/wire/framing.cpp:10-14 | the shifting loop is network byte order |
| MoldUdp.ItchMoldUdpFramer.PackDatagram | include/mf/wire/itch_moldudp.hpp:46-91 | header and the whole messages that fit; consumed covers exactly those bytes; a count that wraps to zero discards them |
| MoldUdp.HeaderLayout | include/mf/wire/itch_moldudp.hpp:57-61 | the session padded with spaces at 0, the sequence at 10 and the count at 18, most significant byte first |
| MoldUdp.FramedLayout | include/mf/wire/itch_moldudp.hpp:75-79 | a message follows its length, most significant byte first |
| MoldUdp.PackMessages | include/mf/wire/itch_moldudp.hpp:64-82 | the loop takes the longest run of messages within both limits |
| MoldUdp.SizeLimitHolds | include/mf/wire/itch_moldudp.hpp:71-74 | a datagram stays two bytes below the limit |
| MoldUdp.SplitIsUnique | include/mf/wire/itch_moldudp.hpp:64-82 | the input divides into messages in only one way |
| MoldUdp.Frame | src/wire/framing.cpp:35-52 | the slices of any datagram, malformed ones included |
| MoldUdp.FramesAreNumbered | src/wire/framing.cpp:35-52 | slice i of a datagram carries its first sequence plus i, in 64 bits |
| MoldUdp.FramesOfMessages | src/wire/framing.cpp:44-50 | packed messages come back as slices, as many as the header counts |
| MoldUdp.PackedFramesBack | src/wire/framing.cpp:35-52 | framing a packed datagram yields the first messages of the input with consecutive sequences |
| MoldUdp.NothingLostIffCountFits | include/mf/wire/itch_moldudp.hpp:64-90 | framing what is sent gives back all messages that fit, if and only if limits and input do not let 65536 messages in |
| MoldUdp.SmallMessagesOverflow | include/mf/wire/itch_moldudp.hpp:64-90 | for any limits that allow it, an input whose messages overflow the count |
| MoldUdp.LimitsAreSafeIffNoOverflow | include/mf/wire/itch_moldudp.hpp:64-90 | limits overflow the count on no input if and only if they allow fewer than 65536 messages, or fewer bytes than 65536 one-byte messages take |
| MoldUdp.PackAll | include/mf/wire/itch_moldudp.hpp:46-91 | under any limits that cannot overflow the count, repeated packing delivers a prefix of the messages, down to where nothing more fits, with no hole in the sequences between datagrams |
| Matching.SortOrders | src/phase4/sim_matching_engine.cpp:47-51 | an ordered permutation |
| Matching.RemoveOrder | src/phase4/sim_matching_engine.cpp:63-65 | exactly the orders of the id are gone, the rest in order |
| Matching.SimMatchingEngine.BindOrderSymbol | src/phase4/sim_matching_engine.cpp:28-33 | id 0 is never bound; binding keeps every resting order cancellable if and only if the id rests on no other symbol |
| Matching.SimMatchingEngine.Submit | src/phase4/sim_matching_engine.cpp:35-52 | a bound order with a quantity joins its side; in every book bids then stand by falling price, asks by rising price, and at one price by time; other submissions change nothing; every resting order stays cancellable if and only if the id did not rest yet |
| Matching.SimMatchingEngine.Cancel | src/phase4/sim_matching_engine.cpp:54-69 | nothing of the id is left on the symbol it is bound to, other ids and symbols stand as they were; while every resting order is bound to its own symbol, once per id, nothing of the id is left anywhere |
| Matching.SimMatchingEngine.OnMarketEvent | src/phase4/sim_matching_engine.cpp:111-131 | a trade, priced execution or cross trade fills exactly min(budget, eligible quantity) on the opposite side, in price-time order as below, and unbinds the ids filled up; other events change nothing |
| Matching.RunEachOnce | src/phase4/sim_matching_engine.cpp:28-131 | while every id is bound and submitted at most once, every resting order can be cancelled at any time |
| Matching.RebindingHidesAnOrder | src/phase4/sim_matching_engine.cpp:28-69 | bound, submitted, bound to another symbol, cancelled: the order still rests |
| Matching.RunFill | src/phase4/sim_matching_engine.cpp:71-109 | the loops that erase in place compute the fills and the remaining queue |
| Matching.FillsTheBudget | src/phase4/sim_matching_engine.cpp:71-109 | filled quantity is min(budget, eligible resting quantity) |
| Matching.FillsInPriority | src/phase4/sim_matching_engine.cpp:71-109 | fills go front to back, each order in full before the next is touched, only within its limit |
| Matching.SimMatchingEngine.EveryBookIsRanked | src/phase4/sim_matching_engine.cpp:14-26 | in every valid engine a bid in front of another has the higher price, or the same and no later time; asks likewise with the lower price |
| Matching.OrderedIsRanked | src/phase4/sim_matching_engine.cpp:14-26 | the sorting predicates are exactly this order on prices and times |
| Matching.PrintServes | src/phase4/sim_matching_engine.cpp:71-109 | fills carry the print's price and time and respect each order's limit; every order with a better price than a filled one, or the same price and an earlier time, is filled in full; if budget is left, so is every order within the limit; what is left of the last order stays in front of the untouched ones; exactly the ids of full fills are unbound |
| Matching.OnlyFilledAreTouched | src/phase4/sim_matching_engine.cpp:71-109 | orders behind the last filled one stand as they were |
| Matching.FillKeepsOrder | src/phase4/sim_matching_engine.cpp:71-109 | priority order and positive quantities survive a print |
| Matching.SubmitConserves | src/phase4/sim_matching_engine.cpp:35-52 | per symbol and id: submitted = filled + cancelled + resting, after a submission |
| Matching.CancelConserves | src/phase4/sim_matching_engine.cpp:54-69 | per symbol and id: submitted = filled + cancelled + resting, after a cancel |
| Matching.PrintConserves | src/phase4/sim_matching_engine.cpp:71-131 | per symbol and id: submitted = filled + cancelled + resting, after a print |

## Left out

Contracts weaker than the code they model:

- GapSequencing.MultiVenueSequenceTracker.OnSequence: starts from valid trackers, so not from the two-slot rings of gap window 2^64 - 1; the same holds of pipeline and arbiter.
- AbArbitration.AbArbiter.OnEvent: not for an arrival that replays an event kept aside, which changes the list that its caller is walking; `ReplaysIffSomethingIsLeft` says which runs get there.
- IntrusiveBook.IntrusiveOrderBook.constructor: at most 2^32 - 1 nodes, the range of the slab's indices.
- Journal.JournalWriter.constructor: a buffer holds at least one record; the source writes past a smaller one.
- Journal.RunSession: the same for its buffer, and the numbers of the records stay below 2^64; writes succeed.
- Journal.RunSessions: the same for all writers together.
- SeqlockRing.ReadersReceiveWhatWasPublished: fewer than 2^63 publications, from where on versions do not read back (`VersionReadsBackIff`); memory is sequentially consistent.
- SeqlockRing.OverrunSkipsTheOverwritten: cursors that start at the default position, as the source's do; one placed elsewhere may claim to have seen a count that never was.
- SeqlockRing.TornTriesAreCounted: cursors below the marker of unwritten slots, 2^63 - 1.
- ShardedReaggregation.PipelineOfContiguousTape: sequences below 2^64 - 1, as every contiguous tape of fewer than 2^64 - 1 events has.
- ShardedReaggregation.ShardedAgreesWithPipeline: the same.
- HashBook.OrderBookEngine.OnEvent: level quantities are unbounded numbers on tapes that are not well-formed (on others they fit, by `QuantitiesFit`), and the queue ahead is exact where the source uses a double.

Things modelled more generally than the code: the mixing function of the order table and its size are any;
`std::lower_bound` is halving, `std::sort` is any ordered permutation or repeated ordered insertion; unordered
maps are walked in any order; partial writes take any number of bytes; random feed drops are any drops; the
participation cap is any budget.

Not modelled:

- event fields that no modelled code reads (match id, previous quantity and price, participant); the image of an event in the journal is any 88 bytes
- the pointer caches of the books and the consolidator, apart from the consolidator's one valid entry; venue books are flattened into one ladder per venue, symbol and side
- the stored queue-ahead copy in the order table, which nothing reads
- resetting the MoldUDP64 framer's sequence; packing holds from any sequence
- 64-bit wrap-around of counters, including retry counts of the seqlock cursor
- the update of the consolidator without a sequence, which is the one with sequence 0
- the NBBO journal's file format and checksum, a duplicate of the book journal's; its records are values
- worker threads, rings, shard choice and latency counters of the sharded pipeline, and its local sequence counters
- opening, mapping, syncing and failing of files; a missing file is an input
- IEX and PITCH framing and the message parsers behind all framers: straight-line decoding
- the C++ memory model, AF_XDP, sockets, gRPC, huge pages and CPU pinning
- PnL, features, statistics and experiment runners: floating point or glue
