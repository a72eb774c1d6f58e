/** When the receiver asks for a replay, for what, and what else each mode reports for an arrival. */
module DeliveryRequests {
  import opened Outcomes
  import opened Frames
  import opened ReplayPayloads
  import opened Delivery
  import opened DeliveryRuns
  import Recovery
  import Tracker

  // ---------------------------------------------------------------- when a replay is due

  /** The sequence awaited from the arrival's publisher; a publisher that takes over starts at 1. */
  function Awaited(rx: Receiver, f: OwnedFrame): nat {
    if rx.tracker.active == Some(f.header.publisherId) then rx.tracker.expected else 1
  }

  /** Something before the arrival is missing. */
  predicate Ahead(rx: Receiver, f: OwnedFrame) {
    f.header.sequence > Awaited(rx, f)
  }

  /** The missing range is within the limit. */
  predicate RangeFits(rx: Receiver, f: OwnedFrame) {
    f.header.sequence - Awaited(rx, f) <= rx.engine.config.maxReplayRange
  }

  /** The range is within the limit and another request may be opened. */
  predicate MayAsk(rx: Receiver, f: OwnedFrame) {
    RangeFits(rx, f) && |rx.engine.outstanding| < rx.engine.config.maxOutstanding
  }

  /** The request for everything from the awaited sequence up to the one before the arrival, under the next id. */
  function MissingBefore(rx: Receiver, f: OwnedFrame): RequestPayload
    requires Ahead(rx, f)
  {
    RequestPayload(rx.engine.nextRequestId, Awaited(rx, f), f.header.sequence as nat - 1)
  }

  /** The request is open under its id, unanswered, sent now, and the counter has moved on. */
  ghost predicate Opened(e: Recovery.Engine, e': Recovery.Engine, q: RequestPayload, now: nat) {
    && q.requestId == e.nextRequestId && e'.nextRequestId == e.nextRequestId + 1
    && e'.outstanding.Keys == e.outstanding.Keys + {q.requestId}
    && (forall id :: id in e.outstanding && id != q.requestId ==> e'.outstanding[id] == e.outstanding[id])
    && (var r := e'.outstanding[q.requestId];
        && r.requestId == q.requestId && r.fromSequence == q.fromSequence && r.toSequence == q.toSequence
        && r.createdAt == now && r.lastSentAt == now && r.retriesAttempted == 0 && r.received == [])
    && e'.mode == Recovery.Recovering && e'.config == e.config
  }

  /** Why a request is refused. */
  function Refusal(rx: Receiver, f: OwnedFrame): RtdpError {
    Outcomes.Protocol(if RangeFits(rx, f) then Backpressure else ReplayRangeInvalid)
  }

  ghost predicate Asks(r: Result<Delivered>, q: RequestPayload) {
    r.Ok? && r.value.request == Some(q)
  }

  ghost predicate AsksNothing(r: Result<Delivered>) {
    r.Err? || r.value.request == None
  }

  /** Opening a request adds it and leaves the others alone. */
  lemma OpenedByUpdate(e: Recovery.Engine, low: nat, high: nat, now: nat)
    ensures var q := RequestPayload(e.nextRequestId, low, high);
            var r := Recovery.ActiveRequest(q.requestId, low, high, now, now, 0, []);
            Opened(e, e.(nextRequestId := e.nextRequestId + 1, outstanding := e.outstanding[q.requestId := r],
                         mode := Recovery.Recovering), q, now)
  {}

  /** The engine grants a request exactly within its two limits; a reversed range counts as one sequence. */
  lemma GrantedExactly(e: Recovery.Engine, low: nat, high: nat, now: nat)
    ensures var (e', r) := Recovery.Requested(e, low, high, now);
            var length := if low <= high then high + 1 - low else 1;
            if length <= e.config.maxReplayRange && |e.outstanding| < e.config.maxOutstanding then
              r == Ok(RequestPayload(e.nextRequestId, low, high))
              && Opened(e, e', RequestPayload(e.nextRequestId, low, high), now) && e'.buffer == e.buffer
            else
              e' == e
              && r == Err(Outcomes.Protocol(if length <= e.config.maxReplayRange then Backpressure
                                            else ReplayRangeInvalid))
  {
    OpenedByUpdate(e, low, high, now);
    hide Opened;
  }

  /**
   ReliableOrdered asks for a replay exactly when an unknown frame is ahead and the limits allow, for exactly what is
   missing; the frame is buffered either way, and the refusal is reported.
   */
  lemma ReliableAsksExactly(rx: Receiver, f: OwnedFrame, now: nat)
    requires rx.mode == ReliableOrdered && CanProcess(rx, f)
    ensures var (rx', r) := Processed(rx, f, now);
            if Ahead(rx, f) && KeyOf(rx, f) !in rx.recent then
              && rx'.engine.buffer == rx.engine.buffer[f.header.sequence := f]
              && FramesOf(r) == []
              && (if MayAsk(rx, f)
                  then Asks(r, MissingBefore(rx, f)) && Opened(rx.engine, rx'.engine, MissingBefore(rx, f), now)
                  else r == Err(Refusal(rx, f)) && rx'.engine == rx.engine.(buffer := rx'.engine.buffer))
            else
              r.Ok? && AsksNothing(r) && rx'.engine.nextRequestId == rx.engine.nextRequestId
              && rx'.engine.outstanding.Keys <= rx.engine.outstanding.Keys
  {
    hide Recovery.Drained;
  }

  /** AtLeastOnce asks in the same cases without a filter, and delivers the frame unless the request is refused. */
  lemma AtLeastOnceAsksExactly(rx: Receiver, f: OwnedFrame, now: nat)
    requires rx.mode == AtLeastOnce && CanProcess(rx, f)
    ensures var (rx', r) := Processed(rx, f, now);
            && rx'.engine.buffer == rx.engine.buffer
            && if Ahead(rx, f) then
                 if MayAsk(rx, f)
                 then r == Ok(Delivered([f], Some(MissingBefore(rx, f))))
                      && Opened(rx.engine, rx'.engine, MissingBefore(rx, f), now)
                 else r == Err(Refusal(rx, f)) && rx'.engine == rx.engine
               else r == Ok(Delivered([f], None)) && rx'.engine == rx.engine
  {
    if Ahead(rx, f) {
      GrantedExactly(rx.engine, Awaited(rx, f), f.header.sequence as nat - 1, now);
    }
    hide Recovery.Requested, Opened;
  }

  /** The other two modes never ask and leave the engine alone. */
  lemma UnorderedNeverAsks(rx: Receiver, f: OwnedFrame, now: nat)
    requires (rx.mode == BestEffort || rx.mode == Latest) && CanProcess(rx, f)
    ensures var (rx', r) := Processed(rx, f, now);
            && rx'.engine == rx.engine
            && r == Ok(Delivered(if rx.mode == BestEffort || rx.highestDelivered < f.header.sequence then [f] else [],
                                 None))
  {}

  /** The arrivals that lead to a request. */
  predicate Wants(rx: Receiver, f: OwnedFrame) {
    && (rx.mode == AtLeastOnce || (rx.mode == ReliableOrdered && KeyOf(rx, f) !in rx.recent))
    && Ahead(rx, f) && MayAsk(rx, f)
  }

  /** In every mode these arrivals, and no others, lead to a request, for everything missing before them. */
  lemma AsksExactly(rx: Receiver, f: OwnedFrame, now: nat)
    requires CanProcess(rx, f)
    ensures var r := Processed(rx, f, now).1;
            if Wants(rx, f) then Asks(r, MissingBefore(rx, f)) else AsksNothing(r)
  {
    hide Processed;
    match rx.mode
    case ReliableOrdered => ReliableAsksExactly(rx, f, now);
    case AtLeastOnce => AtLeastOnceAsksExactly(rx, f, now);
    case _ => UnorderedNeverAsks(rx, f, now);
  }

  /** With the default limits a fresh receiver asks for what is below its first arrival n exactly for 2 <= n <= 1001. */
  lemma DefaultLimits(streamId: u64, f: OwnedFrame, now: nat)
    requires f.header.sequence >= 1
    ensures var rx := NewReceiver(streamId, ReliableOrdered, Recovery.DEFAULT_CONFIG);
            var r := Processed(rx, f, now).1;
            (r.Ok? && r.value.request.Some? <==> 2 <= f.header.sequence <= 1001)
            && (r.Ok? && r.value.request.Some? ==>
                  r.value.request.value == RequestPayload(1, 1, f.header.sequence as nat - 1))
  {
    ReliableAsksExactly(NewReceiver(streamId, ReliableOrdered, Recovery.DEFAULT_CONFIG), f, now);
  }

  /** The default limits: ranges of 1000, 16 open requests, 50 milliseconds between sends, three retries. */
  lemma DefaultEngine(e: Recovery.Engine, low: nat, high: nat, id: nat, now: nat)
    requires e.config == Recovery.DEFAULT_CONFIG && low <= high
    ensures Recovery.Requested(e, low, high, now).1.Ok? <==> high - low < 1000 && |e.outstanding| < 16
    ensures id in e.outstanding && now >= e.outstanding[id].lastSentAt ==>
              (Recovery.Due(e, id, now) <==> now >= e.outstanding[id].lastSentAt + 50)
    ensures id in e.outstanding ==> (Recovery.Exhausted(e, id) <==> e.outstanding[id].retriesAttempted >= 3)
  {
    GrantedExactly(e, low, high, now);
    hide Recovery.Requested, Opened;
  }

  // ---------------------------------------------------------------- the tracker sees everything

  function Seen(calls: seq<Call>): seq<Tracker.Arrival> {
    seq(|calls|, i requires 0 <= i < |calls| =>
      Tracker.Arrival(calls[i].frame.header.publisherId, calls[i].frame.header.sequence))
  }

  lemma UnorderedTracks(rx: Receiver, f: OwnedFrame, now: nat)
    requires rx.mode != ReliableOrdered && CanProcess(rx, f)
    ensures var rx' := Processed(rx, f, now).0;
            rx'.mode == rx.mode && rx'.recent == rx.recent
            && rx'.tracker == Tracker.Observed(rx.tracker, f.header.publisherId, f.header.sequence).0
  {}

  /** With ordering only the awaited sequence differs, by what a drain adds. */
  lemma ReliableTracks(rx: Receiver, f: OwnedFrame, now: nat)
    requires rx.mode == ReliableOrdered && CanProcess(rx, f)
    ensures var tracker := Tracker.Observed(rx.tracker, f.header.publisherId, f.header.sequence).0;
            var tracker' := Processed(rx, f, now).0.tracker;
            tracker'.active == tracker.active && tracker'.gaps == tracker.gaps && tracker'.resets == tracker.resets
            && tracker'.duplicates == tracker.duplicates && tracker'.expected >= tracker.expected
  {
    hide Recovery.Drained;
  }

  /** Without ordering the tracker is that of the bare arrivals, so its counters count their gaps and changes. */
  lemma {:induction false} TrackerFollowsArrivals(streamId: u64, mode: DeliveryMode, config: Recovery.Config,
                                                  calls: seq<Call>)
    requires mode != ReliableOrdered && Legal(calls)
    ensures Tracker.Legal(Seen(calls))
    ensures var rx := ProcessAll(NewReceiver(streamId, mode, config), calls).0;
            rx.mode == mode && rx.tracker == Tracker.Tracked(Seen(calls)).0
    decreases |calls|
  {
    hide Processed, Tracker.Observed;
    if |calls| != 0 {
      var init, last := calls[..|calls| - 1], calls[|calls| - 1];
      TrackerFollowsArrivals(streamId, mode, config, init);
      UnorderedTracks(ProcessAll(NewReceiver(streamId, mode, config), init).0, last.frame, last.now);
      assert Seen(calls)[..|calls| - 1] == Seen(init);
    }
  }

  /** Where AtLeastOnce leaves the delivery cursor: at the highest sequence delivered since the last takeover at 1. */
  lemma AtLeastOnceCursor(rx: Receiver, f: OwnedFrame, now: nat)
    requires rx.mode == AtLeastOnce && CanProcess(rx, f)
    ensures var rx', n := Processed(rx, f, now).0, f.header.sequence;
            rx'.highestDelivered
            == if Ahead(rx, f) && !MayAsk(rx, f) then rx.highestDelivered
               else if rx.tracker.active.Some? && rx.tracker.active != Some(f.header.publisherId) && n == 1 then 1
               else if n < Awaited(rx, f) then rx.highestDelivered
               else Max(rx.highestDelivered, n)
  {}
}
