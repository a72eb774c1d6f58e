# RTDP: a Dafny model and its proofs

RTDP is a loss-aware sequenced transport: publishers number DATA frames from 1, receivers detect gaps,
request replays and, in `ReliableOrdered` mode, are to deliver each sequence once and in order. This project
models its core and proves what the core guarantees over whole runs, and exactly where a guarantee stops.

`dafny verify dfyconfig.toml` checks everything.

## How it is organised

Every stateful part of the program is a class whose methods are proved against a value-level specification
(a record and a function, or a relation where the program iterates over a hash map). The theorems are about
runs of those specifications.

| files | contents |
|---|---|
| `Outcomes`, `Frames` | errors, machine integers, headers and frames |
| `BigEndian`, `Buffers`, `Crc32c`, `Extensions`, `Headers`, `ReplayPayloads`, `Codec` | the wire format, encoded and decoded in place |
| `WireFormat`, `CrcDivision`, `CrcWords` | the format byte by byte, apart from the codec; the checksum as a polynomial remainder, and its check value |
| `Tracker`, `Dedup` | sequence tracker; duplicate filter as a FIFO window |
| `RetentionRing` | the publisher's modulo-indexed retention ring |
| `Recovery`, `RecoveryRuns` | recovery engine; its invariants, completion and retry bounds over all runs |
| `Delivery`, `DeliveryRuns`, `DeliveryModes` | stream receiver; exactly-once order over all runs; the other modes |
| `DeliveryRequests` | when each mode asks for a replay, and for what |
| `DeliveryReach` | deliveries measured against everything that reached the receiver |
| `DeliveryOnce` | what any mix of publishers keeps |
| `PublisherChanges`, `DeliveryLimits`, `DeliveryExamples` | where exactly-once order fails: publisher changes, replay responses; concrete runs |
| `Transport`, `Protocol`, `ProtocolOrder` | publisher, subscriber, and both over a hostile network |
| `Exchange` | what each side puts on the wire and what the other side makes of it |

The receiver's central invariant is `DeliveryRuns.Inv`. It links four parts that no single function sees
together: every key the duplicate filter remembers has arrived; the tracker's cursor is the least sequence
that never arrived (so the filter can never suppress the awaited frame, whatever it has evicted); above the
cursor the reorder buffer holds exactly what has arrived, also when the call that buffered it returned an
error; and what was delivered is 1..cursor-1.

A frame has *arrived* when it came as DATA, or in a reply to an open request above the cursor of the time; this
history drives the proofs. A frame has *reached* the receiver also when it came in a reply at or below the cursor.
The code buffers such a reply but never drains it, so the two differ and the difference has its own laws below.

The network of `Protocol` is the set of all datagrams ever sent, as bytes. Delivering one any number of
times, in any order, or never gives duplication, reordering and loss; a further step changes one byte of an
undamaged datagram that fits the subscriber's receive buffer. CRC-32C is defined bit by bit, so that the
refusal of damaged frames is proved, not assumed; `CrcDivision` shows that definition to be the remainder of
division by the Castagnoli polynomial, and `CrcWords` gives its published check value.

What a function computes is also stated apart from it: packets by their bytes (`WireFormat`), publications by the
application's payloads and timestamps (`Protocol.Publications`), requests, answers, refusals and retransmissions by
the datagrams the other side decodes (`Exchange`).

## What the code does not keep

Each of these comes with laws over all inputs and a concrete run that shows it.

- **A completed replay breaks exactly-once order.** The subscriber hands recovered frames to the recovery
  engine alone; the tracker is not advanced and the filter records nothing, and the drain empties the whole
  reorder buffer. `ReplayKeepsOrderExactly` and `CompletionKeepsOrderExactly` give the exact condition under
  which what has been delivered up to the end of that call is in order. What follows never is: once the replay
  has supplied the awaited frame, the publisher's further DATA frames deliver nothing until that very sequence
  arrives again, and then it is delivered a second time (`NothingUntilRepeat`, `LateOriginalDeliveredTwice`,
  `NextLiveFrameWithheld`); another replay may complete in between. `ReplayRunDeliversTwice` is a run.
  protocol/spec/RTDP-1.md and protocol/wire-format/replay.md promise strictly ascending delivery and
  suppressed duplicates.
- **A response that completes nothing can break order too.** A replay request names no publisher, a restarted
  publisher answers it from its new ring, and the subscriber does not look at who answers; the frame is
  buffered and drained among the active publisher's. `ResponseKeepsSequenceExactly` is exact over everything
  the active publisher may send afterwards: its block stays 1, 2, 3, ... if and only if the response answers no
  open request, or completes none and is that publisher's own or not above the cursor.
  `ForeignReplyDelivered` is a run.
- **A reply that brings the awaited frame is withheld.** It is buffered under the awaited sequence, and drains
  start one above. For one publisher the deliveries are the longest prefix that has reached the receiver if and
  only if nothing is buffered under the awaited sequence (`LongestReachedExactly`, and over the whole protocol
  `DeliveredIsPrefixOfPublished`). Until the request completes or the awaited sequence comes as DATA nothing more
  is delivered (`AwaitedReplyWithheld`); a reply at or below the cursor that completes nothing changes no
  later delivery at all (`ReplyBelowCursorIsInert`). `AwaitedReplyStalls` is a run.
- **A change of publisher can mix or lose frames.** Whatever a fresh publisher goes on to send, it is
  delivered in sequence and unmixed exactly when its first frame is 1 or no frame of another publisher is
  buffered under a key it can still drain (`FreshPublisherExactly`); otherwise the foreign frame is delivered
  as soon as the sequences below it have arrived (`LateStartDeliversForeign`). A frame above 1, unknown to the
  filter, with which a publisher takes over from another is lost, whatever that publisher sends and as long as
  the filter evicts nothing, exactly when the filter knows the publisher's frames from some g up to the one
  before it and nothing is buffered under g or g is 0 (`ReturningPublisherExactly`); otherwise it is delivered
  once the frames below it have arrived (`NotCutOffIsDelivered`). One frame above 1 of another publisher, a late
  duplicate included, stalls the stream until that publisher's 1 arrives (`TakeoverStalls`), and the replay it
  asks for hands out the frames below it whether or not they had been delivered (`TakeoverReplayHandsOut`).
  `LateStartDeliversForeignFrame` and
  `ReturningPublisherLosesFrame` are runs. What survives any mix of publishers is that nothing is delivered
  twice (`NeverDeliveredTwice`), as long as the filter evicts nothing; for every capacity there is a run that
  evicts and repeats (`EvictionDeliversTwice`).
- **A failing timeout sweep discards the retransmissions it prepared** but still counts them as attempts:
  `RetriesSentExactly` for one sweep; over every run the sends and the discarded sends together are one plus
  the counted retries (`SendsExactly`); `SweepRunDiscardsRetry` is a run. protocol/wire-format/replay.md
  promises that a timed-out request is sent again.
- **`AtLeastOnce` drops a frame** that opens a gap whose replay request is refused, and only such a frame:
  `AtLeastOnceDropsExactly`, and over runs `AtLeastOnceRuns`; in `AtLeastOnceLosesFrame` a frame is lost
  however often it arrives.

Where documentation and code differ the code is followed: the frame size limit is checked before magic and
version, snapshot message types and reserved flags are accepted, and the registered critical extension
0x8001 is refused as unknown.

## Model

| member | source | states |
|---|---|---|
| DeliveryRuns.ExactlyOnceInOrder | core/src/delivery/modes.rs:87-127 | for one publisher and any run of arrivals, sweeps, unavailability notices and incomplete replays: deliveries are exactly 1..expected-1, in order and once each; expected is the least sequence never arrived; highest is expected-1; above expected exactly the arrivals are buffered, and without replays nothing else is |
| DeliveryRuns.EverythingArrivedIsDelivered | core/src/delivery/modes.rs:93-110 | once 1..n have each arrived, as DATA or in a reply above the cursor, in any order, the first n deliveries are 1..n |
| DeliveryReach.LongestReachedExactly | core/src/recovery/engine.rs:202-217 | for one publisher and every run: all that was delivered has reached the receiver; the deliveries are the longest prefix that has if and only if nothing is buffered under the awaited sequence; from the awaited sequence on the buffer holds exactly what reached |
| DeliveryReach.EverythingReachedIsDelivered | core/src/delivery/modes.rs:93-110 | once 1..n have all reached the receiver, replies at the cursor included, the first n deliveries are 1..n unless the awaited sequence is one of them and buffered, and only then not |
| DeliveryReach.BlocksOfReached | core/src/delivery/modes.rs:121-125 | with restarts, the next sequence of a block's publisher has reached the receiver at most in a reply that came at or below the cursor |
| DeliveryRuns.DeliveryIsBlocks | core/src/delivery/modes.rs:121-125 | over every disciplined run with restarts the deliveries are a concatenation of blocks 1..k, one per publisher, none mixing publishers, and each ending where the next sequence of its publisher never came as DATA nor in a reply above the cursor |
| DeliveryRuns.ArrivalKeepsInv | core/src/delivery/modes.rs:87-127 | an arrival from the active publisher, or from a fresh one that starts at 1 or leaves no foreign frame within reach of a drain, keeps the receiver invariant, and its deliveries extend that publisher's block |
| DeliveryRuns.ResponseKeepsInv | core/src/recovery/engine.rs:202-217 | a replay response that completes no request keeps the receiver invariant if it answers no open request, is the active publisher's or is not above the cursor |
| DeliveryRuns.RequestsAreForMissing | core/src/delivery/modes.rs:111-116 | each emitted request has from <= to, starts at the awaited sequence, which never came as DATA nor in a reply above the cursor, covers everything missing in that sense below its trigger and respects the range limit |
| DeliveryRequests.ReliableAsksExactly | core/src/delivery/modes.rs:111-116 | in every `ReliableOrdered` state: an arrival ahead of the awaited sequence and unknown to the filter opens a request for exactly awaited..sequence-1 under the next id if the range and the number of open requests allow, otherwise the refusal is reported; the frame is buffered either way; no other arrival opens one |
| DeliveryRequests.AtLeastOnceAsksExactly | core/src/delivery/modes.rs:70-76 | in every `AtLeastOnce` state: an arrival ahead of the awaited sequence is returned with the request for what is missing, or refused with the error and dropped; any other is returned without a request |
| DeliveryRequests.AtLeastOnceCursor | core/src/delivery/modes.rs:67-83 | the cursor of `AtLeastOnce` is the highest sequence delivered, back at 1 when another publisher takes over with its 1 |
| DeliveryRequests.UnorderedNeverAsks | core/src/delivery/modes.rs:47-62 | `BestEffort` and `Latest` never ask and leave the engine alone |
| DeliveryRequests.DefaultEngine | core/src/recovery/engine.rs:105-114 | with the default limits: ranges up to 1000, 16 open requests, due after 50 milliseconds, out of retries after three |
| DeliveryRequests.DefaultLimits | core/src/recovery/engine.rs:105-114 | with the default limits a fresh receiver asks below its first arrival n if and only if 2 <= n <= 1001 |
| DeliveryRequests.TrackerFollowsArrivals | core/src/delivery/modes.rs:43-44 | over every run without ordering the tracker is that of the bare arrivals |
| DeliveryRequests.ReliableTracks | core/src/delivery/modes.rs:43-44 | with ordering the counters are those of the observation and the awaited sequence only grows |
| DeliveryRuns.CountersFit | core/src/sequence/tracker.rs:97-127 | tracker and cursor stay below 2^64 as long as no arrival carries sequence 2^64-1 |
| DeliveryRuns.RunKeepsInv | core/src/delivery/modes.rs:36-129 | the invariant linking tracker, filter, reorder buffer, cursor and history holds after every disciplined run |
| DeliveryLimits.ReplayKeepsOrderExactly | transports/udp/src/subscriber.rs:127-137 | the block delivered up to the end of the call is in order if and only if the response completes nothing, or buffer and frame together are the active publisher's and start at the awaited sequence without a hole |
| DeliveryLimits.ResponseKeepsSequenceExactly | transports/udp/src/subscriber.rs:113-138 | in every invariant state and over everything the active publisher may send afterwards: its block stays 1, 2, 3, ... if and only if the response answers no open request, or completes none and is that publisher's own or not above the cursor |
| DeliveryLimits.ForeignResponseDelivered | core/src/recovery/engine.rs:202-217 | a response of another publisher above the cursor that completes nothing is delivered, in the active publisher's block, after that publisher's 1..i for some i below it |
| DeliveryLimits.LateOriginalDeliveredTwice | transports/udp/src/subscriber.rs:113-138 | in every invariant state, once a completed replay has supplied the awaited sequence, from its last response or from the buffer, a late copy of it is delivered again |
| DeliveryLimits.NothingUntilRepeat | transports/udp/src/subscriber.rs:127-137 | after such a completion any run of other DATA arrivals of the publisher delivers nothing, and the awaited sequence, once it arrives again, is delivered again at once |
| DeliveryLimits.NextLiveFrameWithheld | transports/udp/src/subscriber.rs:113-138 | after a completed replay that kept the order, the live frame that comes next is withheld |
| DeliveryLimits.ReplyBelowCursorIsInert | core/src/recovery/engine.rs:202-217 | in every `ReliableOrdered` state: with and without a reply at or below the cursor that completes nothing, the active publisher's further arrivals deliver exactly the same |
| DeliveryLimits.AwaitedReplyWithheld | core/src/delivery/modes.rs:98-99 | in every invariant state, after a reply that brings the awaited sequence and completes nothing, the publisher's other DATA deliver nothing until that sequence comes as DATA, which is then delivered |
| DeliveryLimits.TakeoverReplayHandsOut | core/src/recovery/engine.rs:220-229 | the request a takeover at n opens, 1..n-1, when answered in order hands out every one of those frames, whatever was delivered or is known to the filter |
| DeliveryExamples.AwaitedReplyStalls | core/src/delivery/modes.rs:98-99 | a concrete run in which 1 to 4 have reached the receiver and only 1 is delivered |
| PublisherChanges.TakeoverStalls | core/src/sequence/tracker.rs:84-95 | in every `ReliableOrdered` state: after a frame above 1 of another publisher, known to the filter or not, nothing that publisher sends is delivered until its 1 arrives |
| DeliveryExamples.ReplayRunDeliversTwice | transports/udp/src/subscriber.rs:127-137 | a concrete run that delivers 1, 2, 3, 2 |
| PublisherChanges.FreshPublisherExactly | core/src/sequence/tracker.rs:70-96 | everything a fresh publisher sends is delivered as 1, 2, 3, ... and unmixed, in every continuation of its own arrivals, if and only if its first frame is 1 or no frame of another publisher is buffered under a key above 1 other than that first frame's |
| PublisherChanges.LateStartDeliversForeign | core/src/sequence/tracker.rs:84-95 | in every invariant state: when a fresh publisher starts above 1 with a frame buffered under k, then once its 1..k-1 have arrived, in any order and without its k, its k-th delivery is that buffered frame, which above the old cursor is the old publisher's |
| PublisherChanges.ReturningPublisherExactly | core/src/delivery/modes.rs:43-91 | in every state whose filter has room for the frames below n: a frame n > 1 unknown to the filter, from a publisher other than the active one, stays undelivered in every continuation of that publisher's own arrivals without eviction if and only if the filter knows that publisher's g..n-1 for some g that is 0 or not buffered |
| PublisherChanges.CutOffIsLost | core/src/delivery/modes.rs:43-91 | no continuation of that publisher's own arrivals without eviction delivers such a frame |
| PublisherChanges.NotCutOffIsDelivered | core/src/delivery/modes.rs:87-127 | otherwise that very frame is delivered after its publisher's 1..i, for some i < n, arrive in order, whatever the filter evicts |
| DeliveryOnce.NeverDeliveredTwice | core/src/delivery/modes.rs:75-127 | over every run of arrivals of any publishers, sweeps and notices in which the filter evicts nothing: no publisher's sequence is delivered twice, delivered and buffered frames are different, and the filter knows them all |
| DeliveryOnce.LostForGood | core/src/delivery/modes.rs:43-91 | after every such run a cut-off frame has never been delivered and is not by its publisher's further arrivals without eviction |
| DeliveryOnce.EvictionDeliversTwice | core/src/sequence/dedup.rs:40-58 | for every filter capacity and any two publishers: frame 1 of one, capacity frames of the other and frame 1 again are all delivered, so that frame twice |
| DeliveryOnce.EvictionExactly | core/src/sequence/dedup.rs:40-58 | for every capacity: after k frames of another publisher a repeated frame 1 is delivered again if and only if k is at least the capacity |
| DeliveryOnce.DefaultFilter | core/src/delivery/modes.rs:25-34 | the filter of a receiver as created remembers 10,000 frames |
| DeliveryExamples.ForeignReplyDelivered | transports/udp/src/subscriber.rs:127-137 | a concrete run in which a response that completes nothing puts another publisher's frame between the active one's |
| DeliveryExamples.LateStartDeliversForeignFrame | core/src/sequence/tracker.rs:84-95 | a concrete run in which a new publisher's block contains an old publisher's frame |
| DeliveryExamples.ReturningPublisherLosesFrame | core/src/delivery/modes.rs:43-91 | a concrete run in which a returning publisher's frame arrives twice and is never delivered |
| DeliveryModes.UnorderedModes | core/src/delivery/modes.rs:47-62 | over any arrivals `BestEffort` delivers all of them and `Latest` exactly those that exceed every sequence before them, whatever the publisher |
| DeliveryModes.RecordsAscend | core/src/delivery/modes.rs:53-62 | what `Latest` delivers is strictly ascending |
| DeliveryModes.AtLeastOnceDropsExactly | core/src/delivery/modes.rs:64-85 | `AtLeastOnce` delivers the arrival at once unless it opens a gap whose replay request is refused; then and only then it is dropped |
| DeliveryModes.AtLeastOnceRuns | core/src/delivery/modes.rs:64-85 | over any arrivals `AtLeastOnce` delivers, in arrival order, all but those that open a refused gap |
| DeliveryModes.AtLeastOnceLosesFrame | core/src/delivery/modes.rs:64-85 | with the default limits a first arrival 1002 is never delivered, however many copies arrive |
| Delivery.StreamReceiver.ProcessDataFrame | core/src/delivery/modes.rs:36-129 | all four modes in place: new state and result are those of the specification the run theorems are about |
| Delivery.StreamReceiver.DeliverRun | core/src/delivery/modes.rs:94-110 | the frame-by-frame loop reaches the state given in closed form: cursor and tracker move by the length of the drained run |
| Tracker.StreamSequenceTracker.Observe | core/src/sequence/tracker.rs:49-120 | verdict and new tracker state for every combination of publisher and sequence |
| Tracker.StreamSequenceTracker.AdvanceExpected | core/src/sequence/tracker.rs:123-127 | the expected sequence only moves forward, nothing else changes |
| Tracker.CountersCount | core/src/sequence/tracker.rs:49-120 | over every run the counters are the gaps and duplicates reported and the publisher changes seen |
| Tracker.VerdictMeaning | core/src/sequence/tracker.rs:49-120 | when each verdict is given and what it says: the awaited sequence, the missing range, the publishers |
| Dedup.DuplicateFilter.IsDuplicateAndRecord | core/src/sequence/dedup.rs:40-58 | set and ring with wraparound behave as a FIFO queue: answer and new queue, set equal to ring contents, no repeats |
| Dedup.FilterIsWindowOfLog | core/src/sequence/dedup.rs:40-58 | in every run the answer is true if and only if the key is among the last capacity keys of the unbounded record log, held once each |
| Recovery.RecoveryEngine.CreateReplayRequest | core/src/recovery/engine.rs:146-191 | range and backpressure refusals leave the engine unchanged; otherwise a fresh id is issued and recorded |
| Recovery.RecoveryEngine.HandleReplayResponse | core/src/recovery/engine.rs:194-233 | the arrival loop decides completion; on completion the whole buffer is drained in key order and the mode follows the outstanding set |
| Recovery.RecoveryEngine.HandleReplayUnavailable | core/src/recovery/engine.rs:236-246 | the request is dropped and the gap reported |
| Recovery.RecoveryEngine.CheckTimeouts | core/src/recovery/engine.rs:249-280 | for every iteration order: due requests with retries left are advanced and listed once each, or one exhausted request is dropped with an error |
| Recovery.RecoveryEngine.DrainContiguous | core/src/recovery/engine.rs:283-291 | the loop removes and returns the hole-free run from the start key |
| Recovery.RecoveryEngine.DrainBuffered | core/src/recovery/engine.rs:294-298 | returns every buffered frame in key order and empties the buffer |
| Recovery.RecoveryEngine.Reset | core/src/recovery/engine.rs:300-304 | forgets requests and buffer, keeps the id counter |
| Recovery.DrainedMeaning | core/src/recovery/engine.rs:283-291 | the drained run is maximal and what stays buffered is exactly the rest |
| Recovery.AscendingMeaning | core/src/recovery/engine.rs:294-298 | draining all returns each buffered frame once, strictly ascending |
| RecoveryRuns.ReachableOk | core/src/recovery/engine.rs:124-305 | in every reachable state: Live has no and Recovering some outstanding request, ids match keys and are below the counter, ranges, retries and count are within limits, received sequences are distinct, in range and incomplete |
| RecoveryRuns.IdsNeverReused | core/src/recovery/engine.rs:169-170 | over every run, resets included, the issued ids are 1, 2, 3, ... |
| RecoveryRuns.NothingLostOnCompletion | core/src/recovery/engine.rs:194-233 | when a response completes a request, every sequence of its range has been drained since the request was created |
| RecoveryRuns.CompletesByCount | core/src/recovery/engine.rs:202-229 | a live request completes if and only if the distinct in-range arrivals since its creation number its whole range |
| RecoveryRuns.SweepLowersBudget | core/src/recovery/engine.rs:249-280 | a sweep that finds a due request lowers the sum of remaining sends; any other sweep changes nothing |
| RecoveryRuns.OnlyCreationRaisesBudget | core/src/recovery/engine.rs:146-304 | only creating a request raises that sum, and by exactly max_retries + 1 |
| RecoveryRuns.RetriesTerminate | core/src/recovery/engine.rs:249-280 | at most outstanding * (max_retries + 1) sweeps can find a request due, and after that many none is outstanding |
| RecoveryRuns.SweepDropsAtMostOne | core/src/recovery/engine.rs:270-277 | a sweep drops at most one request, and one if and only if a due request is out of retries |
| RecoveryRuns.RetriesSentExactly | core/src/recovery/engine.rs:254-279 | a due request with retries left is counted as retried, and sent if and only if no due request is out of retries |
| RecoveryRuns.SendsExactly | core/src/recovery/engine.rs:249-280 | in every run, for an outstanding request, times sent plus retransmissions discarded equals one plus its counted retries |
| RecoveryRuns.SweepRunDiscardsRetry | core/src/recovery/engine.rs:270-277 | a concrete run in which a request is counted as retried although it was sent only once |
| RecoveryRuns.SendsBounded | core/src/recovery/engine.rs:249-280 | a request, outstanding or not, is put on the wire at most 1 + max_retries times in any run |
| RecoveryRuns.ModeAfterStep | core/src/recovery/engine.rs:186-304 | after every step the mode is recovering if a request was opened, failed if one was given up, live if the last was completed or all forgotten, and else unchanged |
| RecoveryRuns.RetriedWaits | core/src/recovery/engine.rs:254-262 | a request just retried is not due again before another timeout |
| RetentionRing.BoundedRingBuffer.Push | core/src/buffers/ring.rs:41-60 | slot, window minimum and maximum after a push |
| RetentionRing.BoundedRingBuffer.GetRange | core/src/buffers/ring.rs:82-110 | the loop returns the range or the first reason it is unavailable |
| RetentionRing.BoundedRingBuffer.Clear | core/src/buffers/ring.rs:112-118 | the ring is as new |
| RetentionRing.LookupReturnsLatest | core/src/buffers/ring.rs:63-78 | after pushes in any order a lookup returns only the latest push of that very sequence |
| RetentionRing.RangeServed | core/src/buffers/ring.rs:99-109 | a served range is complete, in order, made of the latest pushes and no longer than the capacity |
| RetentionRing.RangeRefused | core/src/buffers/ring.rs:87-107 | a refusal names what lies below the window, else what lies above it, else the first sequence that has gone; the range is nonempty, meets the request and holds nothing retrievable |
| RetentionRing.MinOfAnyPushes | core/src/buffers/ring.rs:47-58 | after pushes in any order the minimum is the first sequence or one capacity below the highest, and never falls |
| RetentionRing.IncreasingPushes | core/src/buffers/ring.rs:41-78 | for increasing pushes a lookup succeeds if and only if the sequence was pushed and lies above newest - capacity; the minimum in closed form |
| RetentionRing.ConsecutivePushes | core/src/buffers/ring.rs:82-110 | for consecutive pushes a range is served if and only if it lies within minimum and maximum |
| Crc32c.BurstDetected | core/src/serialization/codec.rs:238-240 | two messages that differ only within a window of four bytes have different CRC-32C values |
| CrcDivision.ChecksumIsRemainder | core/src/serialization/codec.rs:238-240 | for every message the checksum's bits are the complement of the remainder of division over GF(2) by the Castagnoli polynomial, given by its exponents, of the message with its first 32 coefficients complemented and 32 zeros appended |
| CrcWords.CheckValue | core/src/serialization/codec.rs:2 | the published check value: "123456789" has checksum 0xE3069283 |
| WireFormat.DecodeFollowsFormat | core/src/serialization/codec.rs:40-195 | stated on bytes alone: a packet is refused with the code of the first check it fails, in the order of the code, or decoded to the fields at their offsets |
| WireFormat.EncodeFollowsFormat | core/src/serialization/codec.rs:198-243 | the encoder succeeds within its three limits, with the code of the one exceeded otherwise, and writes the frame's fields at their offsets, lengths and checksum filled in |
| WireFormat.ReplayPayloadsWritten | core/src/recovery/engine.rs:22-76 | request and notice payloads are request id, first and last sequence, big-endian |
| WireFormat.TlvWritten | core/src/protocol/extensions.rs:30-46 | a record is type, length, value and zeros to the next multiple of four |
| WireFormat.CriticalByType | core/src/protocol/extensions.rs:88-97 | a parsed extension is critical if and only if its type has the top bit |
| Codec.Decode | core/src/serialization/codec.rs:40-195 | every check in order with its error code, on a buffer that is left unchanged on every path |
| Codec.WalkExtensions | core/src/serialization/codec.rs:107-117 | the loop over the iterator accepts or refuses as the specification of the walk does |
| Codec.Encode | core/src/serialization/codec.rs:198-243 | on success the front of the buffer is the filled-in frame and the rest untouched, on failure nothing is written |
| Codec.DecodeEncode | core/src/serialization/codec.rs:198-243 | decoding an encoded frame returns it with lengths and checksum filled in if and only if it is well formed |
| Codec.EncodeDecode | core/src/serialization/codec.rs:40-195 | re-encoding an accepted packet reproduces it byte for byte if and only if its checksum is right |
| Codec.BurstRefused | core/src/serialization/codec.rs:96-134 | any change within four bytes before, inside or after the checksum field, or across its start when the undamaged packet's lengths are right, makes decoding fail |
| Codec.SingleByteRefused | core/src/serialization/codec.rs:119-134 | changing any single byte of a frame, the checksum included, makes decoding fail |
| Codec.TruncationRefused | core/src/serialization/codec.rs:96-105 | an encoded frame cut short is refused |
| Headers.Encode | core/src/protocol/header.rs:118-136 | the 48 header bytes are written field by field, nothing else |
| Headers.HeaderRoundTrip | core/src/protocol/header.rs:118-189 | a header survives encoding and decoding if and only if magic, version and type are legal |
| Headers.HeaderReencode | core/src/protocol/header.rs:138-189 | encoding a decoded header reproduces its bytes |
| Headers.MessageTypeInverse | core/src/protocol/header.rs:24-54 | type numbers and types are inverse, except experimental values outside their range |
| Extensions.ExtensionIterator.Next | core/src/protocol/extensions.rs:63-98 | record, end or error at the front of the unread bytes, and how far the offset moves |
| Extensions.Encode | core/src/protocol/extensions.rs:30-46 | the record with zeroed padding is written, the rest untouched |
| Extensions.TlvRoundTrip | core/src/protocol/extensions.rs:24-98 | iterating concatenated records returns the list if and only if every value is at most 65535 bytes and every critical flag agrees with its type |
| Extensions.ParseConsumesAll | core/src/protocol/extensions.rs:63-98 | a walk without error has consumed every byte |
| Extensions.AlignedWalkHasNoShortHeader | core/src/protocol/extensions.rs:68-73 | on four-byte aligned data the short-header branch is never reached |
| Extensions.ValidateMeaning | core/src/serialization/codec.rs:107-117 | extension bytes are accepted if and only if they parse and hold no critical extension |
| Codec.AcceptedExtensions | core/src/serialization/codec.rs:107-117 | the extensions of every accepted packet parse, fill their bytes exactly, are not critical, and no walk position is short of a record header |
| ReplayPayloads.RequestRoundTrip | core/src/recovery/engine.rs:16-46 | a request payload survives the wire if and only if its words fit 64 bits and its range is not reversed |
| ReplayPayloads.UnavailableRoundTrip | core/src/recovery/engine.rs:57-76 | a notice payload survives the wire if and only if its words fit 64 bits |
| Transport.UdpPublisher.Publish | transports/udp/src/publisher.rs:128-157 | counter, ring, datagram and returned sequence or error of a publication |
| Transport.PublishOutcome | transports/udp/src/publisher.rs:128-157 | publishing succeeds, with the sequence as result and one datagram of 48 + payload bytes, if and only if those fit the frame limit and a datagram; otherwise an error and no datagram; the frame is retained and the counter moves either way |
| Exchange.PublicationOnTheWire | transports/udp/src/publisher.rs:128-157 | a successful publication is one datagram that every large enough receiver decodes to the given payload and timestamp under stream, identity and next sequence, a failed one none; the ring retains a frame with the same five values either way |
| Exchange.ArrivalAsksOnTheWire | transports/udp/src/subscriber.rs:93-111 | on DATA the subscriber sends one datagram, which the publisher decodes to the request for everything missing, in exactly the cases in which the mode asks, and otherwise none |
| Exchange.OthersLeadToNone | transports/udp/src/subscriber.rs:86-145 | no other datagram makes the subscriber send, and one of another stream changes nothing unless it is a refusal |
| Exchange.UnorderedHandsOver | transports/udp/src/subscriber.rs:101-105 | without ordering the application gets the frame at once in exactly the cases the mode promises |
| Exchange.TickOnTheWire | transports/udp/src/subscriber.rs:76-81 | a timeout check sends exactly one datagram for every due request, which the publisher decodes to that request, and no others; none at all if a due request is out of retries |
| Exchange.RunKeepsRequestsSound | core/src/recovery/engine.rs:146-191 | in every run and mode open requests sit under issued ids and ask for nonempty ranges that fit the wire |
| Exchange.WindowIsAnswered | transports/udp/src/publisher.rs:206-242 | in every run a request inside the window is answered, one datagram each and in order, with exactly the publications of that range that fit, all of them if all fit, each under its request id, stream, identity, sequence, timestamp and payload |
| Exchange.OutsideWindowIsRefused | transports/udp/src/publisher.rs:244-278 | in every run any other request gets one notice under the identity the publisher was started with, for that request, naming the part that has gone or is yet to come |
| Exchange.OnlyRequestsAreAnswered | transports/udp/src/publisher.rs:84-100 | the replay thread answers decodable requests as they are meant, and nothing else |
| Transport.HighestOfMeaning | transports/udp/src/subscriber.rs:131-135 | the cursor becomes the highest of itself and the sequences handed out |
| Transport.UdpPublisher.RestartWithNewPublisherId | transports/udp/src/publisher.rs:181-185 | new identity, sequence 1, empty ring |
| Transport.UdpPublisher.HandleReplayRequest | transports/udp/src/publisher.rs:197-280 | one response per retained frame in order, or one unavailability notice |
| Transport.UdpPublisher.OnPacket | transports/udp/src/publisher.rs:81-110 | only decodable replay requests are answered |
| Transport.UdpSubscriber.OnPacket | transports/udp/src/subscriber.rs:84-149 | dispatch of one datagram: receiver state, deliveries and datagrams sent |
| Transport.UdpSubscriber.OnResponse | transports/udp/src/subscriber.rs:127-137 | the replay path touches the engine and the cursor only |
| Transport.UdpSubscriber.OnTick | transports/udp/src/subscriber.rs:76-81 | the timeout check sends every listed retry, or nothing when the sweep failed |
| Protocol.EndToEndIntegrity | transports/udp/src/subscriber.rs:84-145 | in every run, with loss, duplication, reordering, single-byte damage, restarts and replays, and in every mode, each delivered frame carries something the application published: that payload and timestamp, under the stream, the identity of the time and the sequence counted since the last restart |
| Protocol.LogIsPublications | transports/udp/src/publisher.rs:128-157 | in every run the log is exactly the application's publications, in order |
| Protocol.SubscriberNeverUnderflows | core/src/sequence/tracker.rs:57-60 | no datagram of any run makes the subscriber compute sequence - 1 of zero |
| Protocol.StepKeepsIntegrity | transports/udp/src/publisher.rs:206-242 | every step keeps ring, network, reorder buffer and deliveries traceable to published frames |
| ProtocolOrder.DeliveredIsPrefixPerIdentity | transports/udp/src/publisher.rs:181-185 | in `ReliableOrdered`, with restarts to unused identities and under the receiver's discipline, what the application sees is one block per identity heard, each a prefix of what was published under it, with the published contents, and the longest that has reached the subscriber but for replies that came at or below the cursor |
| ProtocolOrder.DeliveredIsPrefixOfPublished | transports/udp/src/subscriber.rs:93-138 | in `ReliableOrdered`, as long as no replay completes and the publisher does not restart, the application sees a prefix of its publications, payload and timestamp included, all of which has reached the subscriber; it is the longest such prefix if and only if nothing is buffered under the awaited sequence, and always the longest not counting replies at or below the cursor |
| ProtocolOrder.CompletionKeepsOrderExactly | transports/udp/src/subscriber.rs:113-138 | when a replay completes in such a run, the deliveries stay 1, 2, 3, ... if and only if everything then buffered starts at the awaited sequence without a hole |
| ProtocolOrder.ReplayServesWindow | transports/udp/src/publisher.rs:206-208 | in every run a replay request is served if and only if its range lies in the last capacity publications under the current identity, and then with exactly those frames, which carry those publications |
| ProtocolOrder.RequestReachesPublisher | transports/udp/src/subscriber.rs:201-235 | a request encoded by the subscriber is served by the publisher as the request that was meant |
| ProtocolOrder.RefusalReachesSubscriber | transports/udp/src/publisher.rs:244-278 | a refused range reaches the subscriber as refused: exactly that request is dropped and recovery is marked failed |
| ProtocolOrder.ReplayResponseRoundTrip | transports/udp/src/publisher.rs:209-242 | a response is sent if and only if 56 + payload length fits frame limit and send buffer; decoded and stripped it restores request id, stream, publisher, sequence, timestamp and payload |

## Left out

- Sockets, threads, read timeouts, the mutex and the running flag: one atomic step per datagram or tick instead.
- The bounded delivery channel, which drops frames when full: deliveries are appended to a history.
- Clocks: times and timestamps are parameters; `Instant` subtraction saturates at zero.
- Socket errors other than a datagram too long for UDP's 16-bit length field; IPv4's own limit is 20 bytes lower.
- Wrap-around of 64-bit counters: state machines count in naturals; `CountersFit` bounds the receiver's, sequence counter and request ids are assumed not to reach 2^64.
- `publish_frame` and `store_in_ring_only`: fault injection that can send any bytes.
- A bound on the reorder buffer: the code has none.
- Codec.BurstRefused: does not cover bursts that straddle the end of the checksum field, because there a damaged field may happen to match the damaged bytes after it.
- Error detail strings, the C ABI, the CLI, benchmarks and the conformance runner.
