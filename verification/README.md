# Verified models of the node's algorithms and state machines

The repository is a peer-to-peer database node in Rust. Under its network and storage layers sit self-contained
algorithms and protocols, and this project models those and proves what they are for:

- **Image, OCR and audio post-processing**: the text detector from probability map to boxes in reading order
  (`TextDetection`, `FloodFill`, `BoxMerge`, `ReadingOrder`, `CircularText`), class-aware non-maximum suppression
  (`Nms`, `IouCells`), greedy CTC decoding (`Ctc`), and speech segments (`Vad`).
- **The expiring store**: a sled index into content-addressed blobs behind a two-tier cache (`BlobStore`) refines one
  plain map with deadlines (`PlainStore`), in which what is written is found (`StoredItems`).
- **The MQTT/gossip bridge**: one node's event loop (`Bridge`), and n nodes with brokers that echo and gossip that
  repeats: that nothing loops (`BridgeProtocol`), and that messages arrive (`BridgeDelivery`).
- **Resilience and allocation**: the circuit breaker (`CircuitBreaker`), the token bucket and the throttle
  (`TokenBucket`, `Bandwidth`), connection and operation limits (`ResourceManager`), and the pull scheduler
  (`Scheduler`, and at the grain of single map operations `SchedulerRace`).
- **Derived views**: the secondary index (`Indexing`), diverse peer selection (`PeerRegistry`), sorted-set queries
  (`SortedSet`), and time-series buckets (`TimeSeries`).

`Sequences` holds what they share: filtering, and a stable sort that stands for `sort_by` and `sort_by_key`.

Objects that the source updates in place are classes whose methods are proved against functions on values; the
theorems are about those functions, over all inputs, all runs or all interleavings. Clocks are parameters that never
go back. `f32` and `f64` are real numbers; `usize`, `u64` and `i64` wrap where the source can make them wrap.
`dafny verify dfyconfig.toml` checks everything.

Where the code does less than its comments or names say, the model follows the code, and a lemma says exactly what
holds:

- With refills and takes as atomic steps, a full token bucket keeps its nominal rate exactly if the interval is a whole
  number of milliseconds, the bucket holds at most one portion, or portions are empty
  (`TokenBucket.NominalRateExactly`). With single loads and stores, a take between the load and the store of a refill is
  forgotten, and a full bucket keeps the bound in every interleaving exactly if it holds at most one portion
  (`TokenBucket.InterleavedRateExactly`). The buckets of the throttle hold ten, so they keep it only if they do not
  refill at all (`Bandwidth.NewBucketKeepsBoundExactly`). What such takes can cost is bounded
  (`TokenBucket.InterleavedBound`), and without them the bound holds (`TokenBucket.UndisturbedBound`).
- VAD segments rebuild the speech mask exactly when no run is open at the end of the output, or the declared number of
  frames covers it (`Vad.SegmentsRebuildMask`).
- Time-series buckets contain their points exactly for non-negative times and for multiples of the bucket size
  (`TimeSeries.BucketContains`), because division truncates.
- Echoes are stopped for 300 seconds. After that an echo is forwarded exactly when the history of publications no longer
  protects its key (`Bridge.ForwardedExactly`): never while nothing else has been published
  (`Bridge.QuietEchoIsDropped`), at once after the message was published twice in a row
  (`Bridge.RepublishedIsUnprotected`), and `Bridge.LateEchoIsForwarded` is a run in which it happens.
- The dedup keys of two topics are separate exactly when neither topic, with a colon, is a prefix of the other
  (`Bridge.KeysSeparateExactly`, `Bridge.HashCollision`).
- Adding a job is not atomic. In every interleaving, jobs stay in one place, so that none is ever pending and running,
  exactly if adds start only while nobody has the job in hand and insert only while nobody else adds it
  (`SchedulerRace.ExclusionExactly`, `SchedulerRace.ExclusionSuffices`). The code ensures neither, and wherever one of
  them is broken the job can end up pending and running (`SchedulerRace.LateStartHarms`,
  `SchedulerRace.SharedInsertHarms`). A timed-out job is dropped and not queued again
  (`Scheduler.InferenceScheduler.CheckTimeouts`). The age of a job from the future of the local clock wraps to a huge
  number, so it counts as expired exactly if its deadline is below that number, as every deadline below 2^63 is
  (`Scheduler.ExpiredExactly`).
- A connection can be refused with no guard alive (`ResourceManager.RefusedWithoutGuards`).
- `exists` ignores deadlines: it agrees with a read exactly unless an expired value is still indexed
  (`BlobStore.BlobStorage.Exists`, `BlobStore.ExpiredIsPresent`), so it agrees right after a cleanup. A TTL whose
  deadline leaves 64 bits wraps (`PlainStore.DeadlineExact`), possibly into the past
  (`PlainStore.WrappedDeadlineHasPassed`).
- The comparison of the final sort of text boxes is an order exactly when left and upper edges agree wherever lines are
  linked or interleaved (`ReadingOrder.OrderExactly`); separate lines are enough (`ReadingOrder.LinesAreOrdered`).
  `CircularText` is an image in which three detected boxes have to precede each other in a circle.
- Suppressing detections again returns the very same list, in whatever order the map of classes comes, exactly when kept
  detections of different classes differ in confidence (`Nms.KeepsListExactly`).
- The memory limit of an index is tested before an insertion, so a pair can go beyond it
  (`Indexing.SecondaryIndex.Insert`, `Indexing.MemoryInserted`).

## Model

| member | source | states |
|---|---|---|
| TextDetection.TextMask | src/inference.rs:847-876 | the mask is exactly the pixels that are probable enough and lie in the content, for outputs of any length |
| TextDetection.PaddingExact | src/inference.rs:859-874 | comparing normalized pixel centres masks exactly the columns and rows beyond the content |
| TextDetection.CollectBoxes | src/inference.rs:946-1006 | the boxes are those of the accepted components, expanded, in scan order |
| TextDetection.Detect | src/inference.rs:822-1022 | the result comes from merging the accepted components of the mask until no two boxes can be merged, and sorting them as far as the comparison is an order; it panics only if it is none; other shapes give no boxes |
| TextDetection.TextIsCovered | src/inference.rs:822-1022 | every pixel of every component that passes the filter lies in a returned box |
| TextDetection.BoxesComeFromText | src/inference.rs:822-1022 | each side of a returned box is the side of the expanded box of an accepted component inside it |
| TextDetection.ReturnedInOrder | src/inference.rs:1011-1022 | the boxes are returned in reading order, unless the detected boxes are not ordered by the comparison, and then they do not fall into separate lines |
| TextDetection.CellInExpanded | src/inference.rs:986-1003 | expansion keeps every pixel of the component's box, clamped to the grid |
| TextDetection.AcceptedExactly | src/inference.rs:946-970 | which components pass the filter, in whole numbers of pixels |
| TextDetection.ReachExactly | src/inference.rs:986-1003 | how many pixels a box reaches beyond its component on each side |
| ReadingOrder.OrderExactly | src/inference.rs:1012-1022 | exactly when the comparison is a total preorder on the boxes, as a condition on their edges |
| ReadingOrder.ComparisonMeans | src/inference.rs:1012-1022 | which of two boxes may come first: with centres less than 0.02 apart by the left edges, else by the upper ones |
| ReadingOrder.LinesAreOrdered | src/inference.rs:1012-1022 | it is one on boxes that fall into separate lines |
| ReadingOrder.SortForReading | src/inference.rs:1012-1022 | the sort keeps the boxes, puts each pair in place if there is an order, and panics only if there is none |
| CircularText.CircleIsDetected | src/inference.rs:822-1022 | counterexample: an image in which exactly three boxes are detected, each of which has to come before the next in a circle |
| CircularText.NoReadingOrder | src/inference.rs:1012-1022 | whatever the detector returns for that image is not in reading order |
| FloodFill.Fill | src/inference.rs:911-944 | marks exactly the 8-connected component of the seed, all of it unvisited before; count and box describe it; terminates |
| FloodFill.FindRegions | src/inference.rs:903-944 | the regions describe, in scan order of their seeds, disjoint components that make up the whole foreground; counts add up to its size |
| FloodFill.PushNeighbours | src/inference.rs:933-942 | pushes exactly the neighbours inside the grid |
| FloodFill.VisitStep | src/inference.rs:920-942 | a visited pixel extends the part of the component, its count and its tight box, and the stack keeps every way on |
| FloodFill.FillDone | src/inference.rs:919-944 | with an empty stack the visited part is the whole component |
| FloodFill.ClosedOrDisjoint | src/inference.rs:903-944 | a set closed under neighbours contains a component or misses it |
| FloodFill.ComponentsPartition | src/inference.rs:903-944 | connected pixels have one component, others have disjoint ones |
| FloodFill.TouchingConnected | src/inference.rs:933-942 | foreground pixels that touch at a side or a corner are in one component |
| FloodFill.GapSeparates | src/inference.rs:903-944 | an empty column or row between two pixels, across the image, separates their components |
| FloodFill.SameRegionIffConnected | src/inference.rs:903-944 | two foreground pixels are connected if and only if one region owns both |
| FloodFill.AddRegion | src/inference.rs:904-917 | a further fill keeps the regions a segmentation of what is covered |
| FloodFill.SegmentsUnique | src/inference.rs:903-944 | the mask determines the list of regions |
| FloodFill.Grid.IndexOrder | src/inference.rs:906-920 | indices are in bounds, unique, and ordered by row and column |
| BoxMerge.MergeOverlapping | src/inference.rs:1027-1081 | terminates; the outputs are the hulls of merge trees that share out the input, and any two are more than 0.005 apart in x or y or have centres 0.012 apart; boxes come back unchanged exactly if they were so already, and two that were not come back as the one around them |
| BoxMerge.UnchangedExactly | src/inference.rs:1027-1081 | merging changes nothing exactly if all boxes are apart, in numbers |
| BoxMerge.TwoBoxes | src/inference.rs:1050-1069 | two boxes that are not apart become the smallest box around them |
| BoxMerge.FewerBoxes | src/inference.rs:1034-1079 | boxes are never added, and there are fewer exactly if something was merged |
| BoxMerge.MergePass | src/inference.rs:1035-1078 | a changing pass has fewer boxes; a pass without change has found all pairs unmergeable |
| BoxMerge.Absorb | src/inference.rs:1042-1073 | one box takes in later unused boxes, each test passed by the box grown so far, and marks exactly those used |
| BoxMerge.HullExact | src/inference.rs:1065-1069 | an output box contains each input of its group and each side is the side of one |
| BoxMerge.EachBoxInOneTree | src/inference.rs:1038-1078 | every input box belongs to exactly one group, once |
| BoxMerge.SeparatedUnchanged | src/inference.rs:1027-1081 | boxes that cannot be merged come back unchanged, so merging twice is merging once |
| BoxMerge.SeparatedHasNoJoin | src/inference.rs:1050-1063 | among unmergeable boxes no merge can be justified |
| Nms.Nms | src/inference.rs:390-432 | for each order in which the classes come, what is kept of one class after the other, sorted; it is ordered by confidence and, class by class, what greedy suppression keeps |
| Nms.OrderSuppressed | src/inference.rs:401-431 | whatever the order of the classes, the result is ordered by confidence and class by class the greedy selection |
| Nms.SuppressClass | src/inference.rs:408-426 | the loop over suppression flags computes the greedy selection |
| Nms.KeepsSubset | src/inference.rs:390-432 | nothing is invented or duplicated |
| Nms.DropsJustified | src/inference.rs:420-424 | every lost copy lost to a kept one of its class, no less confident, with IoU above the threshold |
| Nms.KeptAreClear | src/inference.rs:420-424 | kept detections of one class have IoU at most the threshold |
| Nms.KeepsAll | src/inference.rs:390-432 | suppressing again changes nothing within any class, and nothing as a multiset |
| Nms.KeepsListExactly | src/inference.rs:430-431 | suppressing again returns the same list for every order of the classes exactly when kept detections of different classes differ in confidence |
| Nms.ClassesAreIndependent | src/inference.rs:388-404 | what is kept of a class depends on that class only |
| Nms.IouIsOverlapMeasure | src/inference.rs:435-452 | IoU is symmetric, in [0, 1], 0 exactly without common area, 1 exactly when the common area is all of both |
| IouCells.IouIsCellRatio | src/inference.rs:435-452 | for whole-numbered corners IoU is the number of unit cells in both boxes over the number in either, and 0 if there is none |
| IouCells.IouScales | src/inference.rs:435-452 | IoU does not depend on the scale, which extends this to all rational corners |
| Nms.GreedyDropsJustified | src/inference.rs:408-426 | greedy selection drops only for a kept, no less confident detection with IoU above the threshold |
| Nms.GreedyClear | src/inference.rs:408-426 | kept detections have IoU at most the threshold |
| Nms.GroupByClass | src/inference.rs:396-399 | each group is the detections of its class in input order, and every class has one |
| Ctc.BestLabel | src/inference.rs:1329-1346 | the first best score of a step in the channel-major matrix, every index in bounds; blank when the step has none |
| Ctc.LabelMeans | src/inference.rs:1329-1346 | the label in terms of the stored scores, one row for each vocabulary entry |
| Ctc.LabelUnique | src/inference.rs:1329-1346 | that determines the label |
| Ctc.CtcDecode | src/inference.rs:1305-1376 | for both accepted shapes the text is the trimmed spelling of the labels collapsed, without blanks and unknown labels, and the confidence the mean softmax probability of the spelled steps, 0 exactly when nothing was spelled; other shapes give nothing |
| Ctc.IdsLast | src/inference.rs:1348-1360 | tracking the previous label collapses repeats before blanks are dropped |
| Ctc.SquashOfPath | src/inference.rs:1303-1360 | labels spread over time with repeats and separating blanks decode to what was spread |
| Ctc.PathOfSquash | src/inference.rs:1303-1360 | every label sequence is such a path of what it decodes to |
| Ctc.PathIsDecoded | src/inference.rs:1305-1376 | round trip: if the best scores spread dictionary entries over time, the text is these entries, trimmed |
| Ctc.SpellConcat | src/inference.rs:1358-1360 | the entries are put one after the other |
| Ctc.ExpSum | src/inference.rs:1362-1368 | the softmax denominator is the sum of the exponentials of the scores of the step |
| Ctc.ProbabilityRange | src/inference.rs:1369 | the probability of the best label is positive and at most 1 |
| Ctc.ProbabilitiesAddUp | src/inference.rs:1362-1369 | the probabilities of a step add up to 1 |
| Ctc.ProbabilitiesCompare | src/inference.rs:1362-1369 | they are to each other as the exponentials of their scores |
| Ctc.TrimExact | src/inference.rs:1375 | whitespace is taken off both ends, all of it and nothing else |
| Ctc.WhitespaceExact | src/inference.rs:1375 | which characters are whitespace |
| Vad.FindSegments | src/inference.rs:1552-1575 | the segments are the maximal runs above 0.5, except that a run open at the end is given the declared end |
| Vad.RunsUnique | src/inference.rs:1552-1575 | a mask has one list of runs |
| Vad.RunBoundaries | src/inference.rs:1556-1567 | the frames of a run are speech, the frames just outside are not |
| Vad.SegmentsRebuildMask | src/inference.rs:1541-1575 | exactly when the segments rebuild the mask; with as many outputs as frames they are the runs |
| Scheduler.ScorePositive | src/inference.rs:1731-1756 | a score is positive for all jobs or none |
| Scheduler.ScoreIsSlack | src/inference.rs:1731-1756 | on one node, a job scores higher exactly for being in a higher band of remaining time |
| Scheduler.ScoreOfNode | src/inference.rs:1731-1756 | how the score grows with cores and memory, within the band |
| Scheduler.ExpiredExactly | src/inference.rs:1690-1694 | expired means over the deadline, or created in the future of this clock with a deadline below what the age wraps to |
| Scheduler.InferenceScheduler.AddJob | src/inference.rs:2023-2048 | refuses models off the whitelist, ignores known ids, otherwise adds; conservation is kept |
| Scheduler.InferenceScheduler.FindBest | src/inference.rs:2056-2077 | an unexpired job with the greatest positive score, and none only if there is none |
| Scheduler.InferenceScheduler.PullNextJob | src/inference.rs:2054-2101 | moves a best job to the running ones; it is unexpired and no unexpired pending job scores higher |
| Scheduler.InferenceScheduler.MarkClaimed | src/inference.rs:2104-2113 | moves a pending job to the running ones under the other node's name, and changes nothing for other ids |
| Scheduler.InferenceScheduler.RecordResult | src/inference.rs:2116-2122 | ends the running job and keeps the result |
| Scheduler.InferenceScheduler.CheckTimeouts | src/inference.rs:2125-2156 | drops exactly the jobs whose latency has been exceeded by a whole millisecond, returns each once as timed out, and queues none again |
| Scheduler.InferenceScheduler.GetJob | src/inference.rs:2179-2187 | returns the stored running job, else the stored pending one, else none |
| SchedulerRace.TraceConserves | src/inference.rs:2023-2122 | in every interleaving each insertion is pending, overwritten or claimed, exactly one of these |
| SchedulerRace.ClaimsNeverExceedInserts | src/inference.rs:2023-2113 | in every interleaving a job is claimed at most as often as it was inserted |
| SchedulerRace.ExclusionExactly | src/inference.rs:2023-2122 | in every interleaving, each job is in one place throughout exactly when all adds start free and insert alone |
| SchedulerRace.ExclusionSuffices | src/inference.rs:2023-2122 | in every interleaving in which adds start free and insert alone, no job is pending and running, nothing is overwritten, and every insertion is claimed or pending |
| SchedulerRace.StepKeepsPlace | src/inference.rs:2023-2122 | a step keeps each job in one place exactly when its add starts free and inserts alone |
| SchedulerRace.LateStartHarms | src/inference.rs:2030-2094 | from every state, an add that starts while a task has the job in hand can be followed by the job being pending and running |
| SchedulerRace.SharedInsertHarms | src/inference.rs:2030-2045 | from every state, an insertion while another task adds the job can be followed by an overwrite, and by the job being pending and running |
| SchedulerRace.RacingAddsInsertTwice | src/inference.rs:2030-2045 | an instance: adds start free, two of them insert one job, and it is pending while it runs |
| SchedulerRace.AddDuringTakeInsertsTwice | src/inference.rs:2030-2094 | an instance: adds insert alone, one starts between the two maps of a take and inserts the job that then runs |
| Bridge.MqttBridge.IsDuplicate | src/mqtt_bridge.rs:106-136 | the loop over the deque computes the dedup test |
| Bridge.MqttBridge.PurgeExpired | src/mqtt_bridge.rs:171-183 | the loop drops the expired entries at the front of the queue |
| Bridge.MqttBridge.HandleMqttPublish | src/mqtt_bridge.rs:208-246 | what a broker message does to the bridge, and when it is forwarded |
| Bridge.MqttBridge.HandleGossipMessage | src/mqtt_bridge.rs:281-318 | what a gossip message does to the bridge, and when it is published |
| Bridge.CheckDuplicateIsHistory | src/mqtt_bridge.rs:106-136 | the test says duplicate exactly for keys that passed within the window, over all histories |
| Bridge.DropOldRemembers | src/mqtt_bridge.rs:113-120 | the deque keeps all passes inside the window and nothing else |
| Bridge.KeysSeparateExactly | src/mqtt_bridge.rs:78-81 | the keys of two topics are separate exactly when neither topic, with a colon, is a prefix of the other |
| Bridge.HashInjective | src/mqtt_bridge.rs:78-81 | in particular the key separates messages whose topics have no colon |
| Bridge.HashCollision | src/mqtt_bridge.rs:78-81 | counterexample: with colons a different message is dropped as a duplicate |
| Bridge.HistoryExplains | src/mqtt_bridge.rs:200-335 | over every life of a bridge, its deque, set and queue are functions of the passes and publications, which the arrivals alone determine |
| Bridge.ForwardedExactly | src/mqtt_bridge.rs:208-246 | over every life, a broker message is forwarded exactly when its key has not passed within the window and no publication protects it |
| Bridge.PublishedExactly | src/mqtt_bridge.rs:281-318 | over every life, a gossip message is published exactly when it is not marked as from the broker and its key has not passed for 300 seconds |
| Bridge.QuietEchoIsDropped | src/mqtt_bridge.rs:223-228 | while nothing is published after the first publication of a message, its echo is never forwarded |
| Bridge.RepublishedIsUnprotected | src/mqtt_bridge.rs:171-183 | after a message was published twice in a row only the window stops its echo |
| Bridge.LateEchoIsForwarded | src/mqtt_bridge.rs:106-136 | a run in which an echo is dropped after 300 seconds and forwarded after 301 |
| BridgeProtocol.StepKeepsInv | src/iroh_network.rs:1804-1878 | every publish, delivery, relay, echo and tick keeps the protocol invariant at every node |
| BridgeProtocol.RunKeepsInv | src/mqtt_bridge.rs:200-335 | so does every run |
| BridgeProtocol.NoNodeActsTwice | src/mqtt_bridge.rs:208-318 | in every run a node acts on a key at most once in any 300-second span |
| BridgeProtocol.EchoIsDropped | src/mqtt_bridge.rs:208-246 | in every run the echo of what a node acted on within the window changes nothing but the clock of its deque |
| BridgeProtocol.StepKeepsLineage | src/iroh_network.rs:1820-1878 | every step keeps track of where gossip, queues and publications come from |
| BridgeProtocol.OwnForwardsStayAway | src/iroh_network.rs:1833-1838 | in every run, what a node publishes or is about to publish stands for a local broadcast or for what another node forwarded, never for its own forward |
| BridgeProtocol.SaturatedIsQuiet | src/mqtt_bridge.rs:106-136 | quiescence: once every node has passed a key, no run without a new client publish of it makes a node act on it, queue it or bring it to its broker until the window ends |
| BridgeProtocol.NodeActBound | src/mqtt_bridge.rs:106-136 | acts of one node on one key in any span: one per started window |
| BridgeProtocol.ActsAreBounded | src/iroh_network.rs:1930-1960 | in every run the n nodes act on one key at most n times in any 300-second span, and n times per started window in longer ones |
| BridgeProtocol.OriginatedAreSources | src/iroh_network.rs:1957-1976 | the keys in the network are those that publishes and local broadcasts brought in |
| BridgeProtocol.ActsHaveSources | src/mqtt_bridge.rs:208-318 | every act is about such a key |
| BridgeDelivery.GossipIsQueued | src/iroh_network.rs:1804-1878 | a delivery from another node that did not come from the own broker is queued for the broker, under its own topic or `iroh/data`; other deliveries change nothing |
| BridgeDelivery.NextIsPublished | src/mqtt_bridge.rs:281-318 | the next message is at the broker afterwards exactly if the broker takes it and it has not passed for 300 seconds |
| BridgeDelivery.DeliveryIsForwarded | src/mqtt_bridge.rs:208-246 | what the broker delivers is queued for gossip exactly if it has not passed for 300 seconds and was not recently published |
| BridgeDelivery.PublishReachesOthers | src/mqtt_bridge.rs:200-335 | after every run, what a client publishes on one node can reach the broker of any other, by forwarding, one delivery and publishing |
| BridgeDelivery.BroadcastReachesOthers | src/iroh_network.rs:1957-1976 | and so can what a node broadcasts, under `iroh/data` |
| BridgeDelivery.NothingIsLost | src/mqtt_bridge.rs:200-335 | in every run, what was forwarded waits or is in gossip, and what was received waits or has passed |
| CircuitBreaker.CircuitBreaker.ShouldAllow | src/network_resilience.rs:117-152 | extends only this peer's history, and answers as the history says |
| CircuitBreaker.CircuitBreaker.RecordSuccess | src/network_resilience.rs:155-187 | extends only this peer's history by a success |
| CircuitBreaker.CircuitBreaker.RecordFailure | src/network_resilience.rs:190-237 | extends only this peer's history by a failure |
| CircuitBreaker.CircuitBreaker.GetState | src/network_resilience.rs:239-245 | the state that the history determines, closed for unknown peers |
| CircuitBreaker.HistoryExplains | src/network_resilience.rs:78-101 | each field as a function of the history: opening time exactly when not closed, successes only while half open, time stamps and count the pending failures in the window, and the last failure |
| CircuitBreaker.OpensExactly | src/network_resilience.rs:190-215 | a closed circuit opens exactly when the failures less than a window ago with no success after them reach the threshold |
| CircuitBreaker.SparseFailuresNeverOpen | src/network_resilience.rs:190-215 | failures a window or more apart never open a circuit with a threshold above 1 |
| CircuitBreaker.AdmitsExactly | src/network_resilience.rs:117-152 | open admits exactly after the recovery timeout since the last failure; other states admit always |
| CircuitBreaker.BlockedUntilTimeout | src/network_resilience.rs:124-146 | after a failure that leaves it open nothing is admitted until the timeout |
| CircuitBreaker.TrialOutcome | src/network_resilience.rs:155-187 | a trial without failure is half open until enough successes, then closed |
| CircuitBreaker.TrialHasStart | src/network_resilience.rs:126-146 | half open always goes back to an admitted request with no failure since |
| CircuitBreaker.ClosesExactly | src/network_resilience.rs:162-187 | closes exactly after enough successes of one trial with no failure between |
| TokenBucket.GrantedBounded | src/network_resilience.rs:673-706 | over every run, granted is at most the capacity plus one portion per elapsed unit |
| TokenBucket.RunIsPaid | src/network_resilience.rs:673-706 | over every run, everything granted is paid for by the initial fill and refills that had the time |
| TokenBucket.RefillAdds | src/network_resilience.rs:678-685 | a refill adds at most one portion per full unit, also when the arithmetic wraps |
| TokenBucket.RefillExact | src/network_resilience.rs:673-688 | a due refill brings one portion for each whole unit, up to the capacity, and one that is not due changes nothing |
| TokenBucket.NominalRateExactly | src/network_resilience.rs:678-680 | for a full bucket, one portion per interval holds for all runs exactly when the interval is whole milliseconds, the bucket holds at most one portion, or portions are empty |
| TokenBucket.SmallBucketKeepsRate | src/network_resilience.rs:673-706 | a bucket of at most one portion keeps one portion per interval in every run, whatever the interval |
| TokenBucket.FractionalIntervalOverdraws | src/network_resilience.rs:678-680 | for every other full bucket, a run that exceeds it |
| TokenBucket.TraceKeepsInv | src/network_resilience.rs:673-706 | every interleaving of loads, stores and exchanges keeps tokens within the capacity and accounts for what is granted |
| TokenBucket.InterleavedBound | src/network_resilience.rs:673-706 | in every interleaving the bound is exceeded by no more than what is taken between load and store of a refill |
| TokenBucket.UndisturbedBound | src/network_resilience.rs:673-706 | in every interleaving without a successful exchange between the load and the store of a refill, the plain bound holds |
| TokenBucket.InterleavedRateExactly | src/network_resilience.rs:673-706 | a full bucket keeps the bound in every interleaving exactly when it holds at most one portion |
| TokenBucket.SmallBucketKeepsBound | src/network_resilience.rs:673-706 | a bucket of at most one portion keeps the bound in every interleaving |
| TokenBucket.RefillForgetsAll | src/network_resilience.rs:673-706 | from every full bucket, all of it can be granted during a refill that leaves it full |
| TokenBucket.RefillForgetsTake | src/network_resilience.rs:682-684 | an instance: the same tokens are granted twice |
| Bandwidth.Limiter.Refill | src/network_resilience.rs:673-688 | refills as specified and keeps the account |
| Bandwidth.Limiter.TryConsume | src/network_resilience.rs:690-706 | takes the amount exactly when it is there |
| Bandwidth.Throttle.TryTransfer | src/network_resilience.rs:756-788 | allowed exactly when both set limits have the tokens; only then counted; global tokens are spent even if the peer's bucket refuses |
| Bandwidth.Throttle.PeerBucket | src/network_resilience.rs:773-777 | a peer's bucket is made full on first use, other buckets stay |
| Bandwidth.LimiterKeepsRate | src/network_resilience.rs:659-706 | what a limiter grants stays within a full bucket and one portion per elapsed unit for every interval, and within burst and rate in bytes for intervals of whole milliseconds |
| Bandwidth.NewBucketKeepsRateExactly | src/network_resilience.rs:660-706 | with atomic steps it keeps the nominal rate exactly for whole milliseconds or if it does not refill |
| Bandwidth.NewBucketKeepsBoundExactly | src/network_resilience.rs:660-706 | a bucket of the throttle keeps the bound in every interleaving exactly when it does not refill |
| Bandwidth.ThrottleKeepsRates | src/network_resilience.rs:756-788 | counted bytes keep the global limit, and each peer's share the per-peer limit, in the same sense |
| Bandwidth.RefillAmountExact | src/network_resilience.rs:660-664 | a portion is the rate times the interval, rounded down, unless it does not fit 64 bits |
| Bandwidth.FirstTransfer | src/network_resilience.rs:660-788 | a new throttle lets through at once up to ten portions of each limit that is set |
| ResourceManager.ConnectionsLimited | src/resource_manager.rs:108-122 | in every interleaving live guards never exceed the limit, the counter is guards plus attempts, and never wraps |
| ResourceManager.ConnectionStepKeepsInv | src/resource_manager.rs:108-122 | every atomic step keeps the count and the number of possible winners |
| ResourceManager.RefusedExactly | src/resource_manager.rs:111-117 | refused exactly when guards and attempts together have reached the limit |
| ResourceManager.RefusedWithoutGuards | src/resource_manager.rs:108-122 | counterexample: a refusal with no guard alive |
| ResourceManager.OperationsLimited | src/resource_manager.rs:69-93 | in every interleaving operations in flight are the live guards and at most the limit; permits are neither lost nor made |
| ResourceManager.OperationStepKeepsInv | src/resource_manager.rs:164-168 | every atomic step, drops included, keeps permits and counter |
| BlobStore.BlobStorage.CacheGet | src/storage.rs:230-250 | hot before warm, warm entries are promoted |
| BlobStore.BlobStorage.Evict | src/storage.rs:217-228 | losing a cache entry at any time changes nothing that the store stands for |
| BlobStore.BlobStorage.StoreValue | src/storage.rs:552-596 | sets one key of the plain map; index, tag, blob and cache agree |
| BlobStore.BlobStorage.GetValue | src/storage.rs:622-693 | returns what the plain map has alive, from cache or blob; drops the key exactly when nothing is returned |
| BlobStore.BlobStorage.Delete | src/storage.rs:1172-1188 | removes one key |
| BlobStore.BlobStorage.Exists | src/storage.rs:1168-1170 | tells whether the key is indexed, and agrees with a read at the same time exactly unless an expired value is indexed |
| BlobStore.ExpiredIsPresent | src/storage.rs:1168-1170 | counterexample: a store in which a key exists and a read finds nothing |
| BlobStore.BlobStorage.Perform | src/storage.rs:552-2479 | every command refines the plain map |
| BlobStore.BlobStorage.Execute | src/storage.rs:552-2525 | every run of commands, with evictions and cleanups anywhere between them, answers and leaves behind what the plain map does |
| BlobStore.RunFindsOnlyWritten | src/storage.rs:818-847 | no resurrection in such runs |
| BlobStore.BlobStorage.SetString | src/storage.rs:710-727 | refines the plain command |
| BlobStore.BlobStorage.WriteItem | src/storage.rs:753-847 | refines the plain command, for all collection writers: start afresh, add to the live value, or refuse the wrong variant |
| BlobStore.BlobStorage.DeleteJsonById | src/storage.rs:1243-1256 | removes exactly the live documents with the id under the prefix |
| BlobStore.BlobStorage.SetJson | src/storage.rs:1206-1240 | refines the plain command |
| BlobStore.BlobStorage.SetKeyTtl | src/storage.rs:2326-2389 | refines the plain command: a new deadline for a live key, otherwise false |
| BlobStore.BlobStorage.PersistKey | src/storage.rs:2392-2479 | refines the plain command: no deadline for a live key, otherwise false |
| BlobStore.BlobStorage.CleanupExpiredKeys | src/storage.rs:2488-2525 | leaves the plain map as it is and exactly the live keys indexed, and returns the number removed |
| PlainStore.SameLiveSameResponses | src/storage.rs:622-693 | maps with the same live values answer all later commands alike |
| PlainStore.StepSame | src/storage.rs:552-693 | every command sees and keeps only live values |
| PlainStore.ExpiredIsAbsent | src/storage.rs:625-684 | an expired value is as good as deleted for all later commands |
| PlainStore.AddHolds | src/storage.rs:753-784 | adding an item puts it in, takes out what it replaces, and changes nothing else |
| PlainStore.HeldItemsWereWritten | src/storage.rs:818-847 | what a read finds was alive at the start or written since |
| PlainStore.NoResurrection | src/storage.rs:818-847 | after expiry only what was written after it is found |
| PlainStore.DeadlineKept | src/storage.rs:818-847 | no sequence of writes to a live collection moves its deadline |
| PlainStore.IdsStayUnique | src/storage.rs:1206-1256 | after a document with an id is stored, no other live one under the key prefix carries it |
| PlainStore.StringLifetime | src/storage.rs:710-727 | a string is read until its deadline, and for good without one |
| PlainStore.LifetimeMoves | src/storage.rs:2326-2479 | a new TTL keeps a live value's content and moves its end, persisting removes it, other keys are refused |
| PlainStore.DeadlineExact | src/storage.rs:64-78 | the deadline is exact if and only if it fits 64 bits |
| PlainStore.WrappedDeadlineHasPassed | src/storage.rs:64-78 | counterexample: a value that has expired the moment its enormous TTL is set |
| StoredItems.WriteRefusedExactly | src/storage.rs:753-847 | a write is refused exactly if the live value has another type, and then changes nothing |
| StoredItems.WriteIsFound | src/storage.rs:753-847 | after any other write exactly the item and what was held before is held, except in the same slot, until the old deadline or the new one, with the right metadata |
| StoredItems.FirstWrite | src/storage.rs:753-847 | the first item of each kind of collection, spelled out |
| StoredItems.OthersStay | src/storage.rs:552-2479 | no command touches other keys, except for live documents with the stored id under the key |
| StoredItems.JsonLifetime | src/storage.rs:1206-1240 | a stored document is read until its deadline, and for good without one |
| StoredItems.DeletedIsGone | src/storage.rs:1172-1188 | a deleted key is not found |
| StoredItems.SparesExactly | src/storage.rs:552-2479 | when an item is still found after a command |
| StoredItems.ItemStays | src/storage.rs:552-2479 | in every run, an item stays found until it is replaced, deleted, overwritten or expired |
| StoredItems.WrittenIsRead | src/storage.rs:622-847 | in every run, a written item is in the answer of a later read, under the same condition |
| StoredItems.ValueStays | src/storage.rs:552-2479 | in every run, any value that no command names is read unchanged until its deadline |
| StoredItems.WrittenInOrder | src/storage.rs:818-847 | in every run, lists and streams hold what was written in the order of writing |
| Indexing.SecondaryIndex.Insert | src/indexing.rs:138-154 | adds one pair unless the key or memory limit is reached before, even for a present pair |
| Indexing.SecondaryIndex.Remove | src/indexing.rs:157-164 | removes one pair and leaves no empty posting set |
| Indexing.SecondaryIndex.Update | src/indexing.rs:167-170 | replaces just one pair, exactly when no limit is reached without the old one; without memory limit that means for present pairs or below the key limit, and a failure changes nothing; present pairs are always replaced below the memory limit |
| Indexing.SecondaryIndex.TotalKeys | src/indexing.rs:253-255 | the number of pairs |
| Indexing.SecondaryIndex.MemoryUsage | src/indexing.rs:107-122 | the loops add up the index, every value with its posting set, and every posting |
| Indexing.SecondaryIndex.WouldExceedLimits | src/indexing.rs:125-135 | exactly when the number of pairs or the memory in use has reached its limit |
| Indexing.SecondaryIndex.RangeQuery | src/indexing.rs:218-231 | exactly the keys under matching numbers |
| Indexing.SecondaryIndex.TextQuery | src/indexing.rs:234-245 | exactly the keys under matching texts |
| Indexing.SecondaryIndex.Query | src/indexing.rs:173-215 | every operator returns, without duplicates, exactly the keys of a scan over all pairs |
| Indexing.NumbersSplit | src/indexing.rs:190-199 | numeric operators split the numbers and look at nothing else |
| Indexing.TextsSplit | src/indexing.rs:173-206 | what text operators and lists find |
| Indexing.RelationRemoved | src/indexing.rs:157-164 | removing a key and perhaps its posting set removes one pair of the relation |
| Indexing.RelationInserted | src/indexing.rs:148-151 | inserting a key adds one pair of the relation |
| Indexing.MemoryInserted | src/indexing.rs:107-154 | inserting a pair costs its key, and its value with a posting set if the value is new |
| Indexing.MemoryRemoved | src/indexing.rs:107-164 | removing a pair frees its key, and its value with the posting set if it was the last |
| Indexing.MemoryOfNothing | src/indexing.rs:107-109 | an empty index costs its own size |
| PeerRegistry.GetDiversePeers | src/peer_registry.rs:295-325 | distinct eligible peers, as many as limit and eligible ones allow, from as many regions as possible; the first picks come from the first regions in name order, one from each |
| PeerRegistry.EligibleExactly | src/peer_registry.rs:299-304 | who is eligible; peers without a region are in "unknown" |
| PeerRegistry.SelectRoundRobin | src/peer_registry.rs:311-324 | the loop over shrinking groups reaches that, and its first picks take the groups in turn |
| PeerRegistry.GroupByRegion | src/peer_registry.rs:296-304 | every eligible peer once, under its region |
| PeerRegistry.SortedRegions | src/peer_registry.rs:308-309 | the groups come out strictly in name order, and sorting loses and invents no peer |
| PeerRegistry.TakeProgress | src/peer_registry.rs:312-322 | until every region is represented, each taken peer represents a new one, whether or not its group is removed |
| PeerRegistry.SelectionDone | src/peer_registry.rs:312-324 | where the loop ends, peers and regions are as many as can be |
| SortedSet.WindowExact | src/storage.rs:1144-1160 | windows are in bounds and hold exactly the positions between the named ones |
| SortedSet.TakeExact | src/storage.rs:849-873 | a window of a list is the contiguous part between the named positions, clamped, empty in the wrong order |
| SortedSet.WindowsCompose | src/storage.rs:849-873 | neighbouring windows make up the whole, and (0, -1) is the whole |
| SortedSet.WindowQuery | src/storage.rs:1133-1165 | a window query returns that contiguous part of the ranking |
| SortedSet.RankedOrder | src/storage.rs:1141-1142 | one total order by score, ties in member order |
| SortedSet.FilterExact | src/filters.rs:225-238 | filtering finds exactly the entries in the closed range of scores, as often as they are there, in order |
| SortedSet.QueriesCommute | src/filters.rs:225-238 | filtering then sorting is taking the whole window and filtering, up to members that are not JSON |
| SortedSet.PutContent | src/storage.rs:946-980 | putting a member replaces its old score and touches no other |
| SortedSet.PutAscending | src/storage.rs:946-980 | the map stays in strict member order |
| TimeSeries.GroupPoints | src/filters.rs:315-322 | each bucket holds the values of its points in input order; fails exactly where the division panics |
| TimeSeries.AggregatePoints | src/filters.rs:306-345 | one row per non-empty bucket with its aggregate, times strictly increasing multiples of the size |
| TimeSeries.BucketContains | src/filters.rs:320 | a bucket contains its point exactly for non-negative times and multiples of the size, under truncating division by a size of either sign |
| TimeSeries.MinAvgMax | src/filters.rs:329-337 | minimum and maximum are attained and bound all values, and the average lies between them |
| TimeSeries.AverageExact | src/filters.rs:329-335 | the average times the count is the sum, and how sum and count grow |
| TimeSeries.DividesExactly | src/filters.rs:320 | the division panics exactly where there is no quotient in 64 bits |
| TimeSeries.SumConserved | src/filters.rs:330 | the bucket sums add up to the sum of all points |
| TimeSeries.CountConserved | src/filters.rs:335 | the bucket counts add up to the number of points |
| TimeSeries.FirstAndLast | src/filters.rs:336-337 | the values of the earliest and latest point of the bucket in input order |
| Sequences.FilterCommutesWithSort | src/storage.rs:1882-1901 | stability of the sort, as a law: selecting commutes with sorting |
| Sequences.SortOfSorted | src/inference.rs:407-431 | sorting what is sorted changes nothing |
| Sequences.LexExact | src/storage.rs:946-980 | the order of strings: prefixes first, otherwise the first different character decides |

## Left out

- Rounding, NaN and infinities of `f32` and `f64`: scores, boxes and readings are real numbers; `exp` is any positive function.
- TextDetection.Detect: what the library's sort does for a comparison that is no order is a parameter, of which only its promise is used: it panics or keeps all elements.
- Image decoding, resizing, orientation, YOLO, segmentation and generic OCR outputs, model sessions: foreign code and easy arithmetic.
- The average speech probability and the JSON around VAD segments; segments are in frames, not seconds.
- Bodies of sled, iroh, moka, bincode and automerge: a blob hash stands for its content, serialization is a round trip, and a cache may lose any entry at any time.
- I/O errors of the store, and interleavings inside one public operation of `BlobStorage`: each operation is one step with one reading of the clock.
- BlobStore.BlobStorage.SetJson: the parsed document and its `_id` are given; parsing, and the error for text that is not JSON, are not modelled.
- BlobStore.BlobStorage.WriteItem: the id of a stream entry is given, so making one for `*` is not modelled; nor is the extra dedup of `add_sorted_set_json`.
- Stream, geo and pattern reads, `get_ttl`, key scans: projections of one fetched value.
- Bridge.MqttBridge.HandleMqttPublish: payloads are the text that the dedup key is formatted from, so payloads that differ only in invalid UTF-8 are one payload.
- BridgeDelivery.PublishReachesOthers: that the steps can be taken, not that a scheduler takes them; brokers and gossip may always delay.
- Message ids, the message store, subscriptions, connection events, peer tracking and event emission of the bridge and the gossip handler; gossip may deliver anything sent, in any order, any number of times or never.
- Bandwidth.Throttle.TryTransfer: one direction; upload and download run the same code on their own buckets. The byte totals do not wrap, and changing the limits at run time is left out.
- TokenBucket: intervals below one millisecond panic in `refill` and are excluded; the refill amount is computed exactly instead of in `f64`. Full buckets whose capacity and portion together, or two portions, do not fit 64 bits are outside the two exact conditions, because a refill wraps there.
- Scheduler.InferenceScheduler.CheckTimeouts: elapsed times of 2^64 milliseconds or more wrap, and the exact condition leaves them out.
- Scheduler.InferenceScheduler.FindBest: one reading of the clock for a whole scan; the order of the scan is arbitrary.
- Scheduler.ExpiredExactly: for clock differences in `i64` and deadlines in `u64`, the types of the subtraction and the field; a subtraction that overflows is not modelled.
- Contents of inference results, execution, signing, gossip of jobs.
- Indexing.SecondaryIndex.MemoryUsage: the capacity of a stored string is a given function of its characters, equal copies have equal capacity, and the sum does not wrap.
- Nms.Nms: the order in which the map of classes comes is a parameter; every order is covered.
- Indexing.SecondaryIndex.Query: parsing numbers and lowering case are given functions.
- PeerRegistry.GetDiversePeers: how many peers come from one region after the first round is not claimed; the index is taken modulo a shrinking list.
- The summary of breaker states, reputation scores, metrics, value-size and pressure checks: easy arithmetic.
- CRDTs, synchronisation, GraphQL, Kadena, IPFS, configuration, crypto, discovery: wiring and network clients.
