/** The stream receiver: tracker, duplicate filter, recovery engine and delivery cursor composed. */
module Delivery {
  import opened Outcomes
  import opened Frames
  import opened ReplayPayloads
  import Tracker
  import Dedup
  import Recovery

  datatype DeliveryMode = BestEffort | Latest | AtLeastOnce | ReliableOrdered

  // ---------------------------------------------------------------- specification

  datatype Receiver = Receiver(
    streamId: u64,
    mode: DeliveryMode,
    tracker: Tracker.State,
    filterCapacity: nat,
    recent: seq<Dedup.Key>,
    engine: Recovery.Engine,
    highestDelivered: nat)

  /** Frames for the application and, possibly, a replay request to send. */
  datatype Delivered = Delivered(frames: seq<OwnedFrame>, request: Option<RequestPayload>)

  function NewReceiver(streamId: u64, mode: DeliveryMode, config: Recovery.Config): Receiver {
    Receiver(streamId, mode, Tracker.INITIAL, 10_000, [], Recovery.NewEngine(config), 0)
  }

  function Max(a: nat, b: nat): nat {
    if a >= b then a else b
  }

  function KeyOf(rx: Receiver, f: OwnedFrame): Dedup.Key {
    Dedup.Key(rx.streamId, f.header.publisherId, f.header.sequence)
  }

  predicate CanProcess(rx: Receiver, f: OwnedFrame) {
    Tracker.CanObserve(rx.tracker, f.header.publisherId, f.header.sequence)
  }

  /** Buffers an early frame and asks for the range before it; the frame stays buffered on refusal. */
  function OnGap(rx: Receiver, f: OwnedFrame, low: nat, high: nat, now: nat): (Receiver, Result<Delivered>) {
    var (engine, r) := Recovery.Requested(Recovery.Buffered(rx.engine, f), low, high, now);
    (rx.(engine := engine),
     if r.Ok? then Ok(Delivered([], Some(r.value))) else Err(r.error))
  }

  /** Delivers the awaited frame and every buffered frame that now follows without a hole. */
  function OnInOrder(rx: Receiver, f: OwnedFrame, sequence: nat): (Receiver, Result<Delivered>) {
    var (run, left) := Recovery.Drained(rx.engine.buffer, sequence + 1);
    var reached := sequence + |run|;
    (rx.(engine := rx.engine.(buffer := left),
         tracker := if |run| == 0 then rx.tracker
                    else rx.tracker.(expected := Max(rx.tracker.expected, reached + 1)),
         highestDelivered := reached),
     Ok(Delivered([f] + run, None)))
  }

  function ReliableStep(rx: Receiver, f: OwnedFrame, now: nat): (Receiver, Result<Delivered>)
    requires CanProcess(rx, f)
  {
    var (tracker, status) := Tracker.Observed(rx.tracker, f.header.publisherId, f.header.sequence);
    var (duplicate, recent) := Dedup.Record(rx.filterCapacity, rx.recent, KeyOf(rx, f));
    var rx' := rx.(tracker := tracker, recent := recent);
    if duplicate then (rx', Ok(Delivered([], None)))
    else
      match status
      case InOrder(sequence) => OnInOrder(rx', f, sequence)
      case Gap(_, _, low, high) => OnGap(rx', f, low, high, now)
      case DuplicateOrOld(_, _) => (rx', Ok(Delivered([], None)))
      case PublisherReset(_, _, initial) =>
        (rx'.(engine := Recovery.WasReset(rx'.engine), highestDelivered := initial), Ok(Delivered([f], None)))
  }

  function AtLeastOnceStep(rx: Receiver, f: OwnedFrame, now: nat): (Receiver, Result<Delivered>)
    requires CanProcess(rx, f)
  {
    var (tracker, status) := Tracker.Observed(rx.tracker, f.header.publisherId, f.header.sequence);
    var rx' := rx.(tracker := tracker);
    match status
    case InOrder(sequence) =>
      (rx'.(highestDelivered := Max(rx.highestDelivered, sequence)), Ok(Delivered([f], None)))
    case Gap(_, _, low, high) =>
      var (engine, r) := Recovery.Requested(rx.engine, low, high, now);
      if r.Err? then (rx'.(engine := engine), Err(r.error))
      else (rx'.(engine := engine, highestDelivered := Max(rx.highestDelivered, f.header.sequence)),
            Ok(Delivered([f], Some(r.value))))
    case DuplicateOrOld(_, _) => (rx', Ok(Delivered([f], None)))
    case PublisherReset(_, _, initial) => (rx'.(highestDelivered := initial), Ok(Delivered([f], None)))
  }

  function Processed(rx: Receiver, f: OwnedFrame, now: nat): (Receiver, Result<Delivered>)
    requires CanProcess(rx, f)
  {
    var tracker := Tracker.Observed(rx.tracker, f.header.publisherId, f.header.sequence).0;
    match rx.mode
    case BestEffort =>
      (rx.(tracker := tracker, highestDelivered := Max(rx.highestDelivered, f.header.sequence)),
       Ok(Delivered([f], None)))
    case Latest =>
      if f.header.sequence > rx.highestDelivered
      then (rx.(tracker := tracker, highestDelivered := f.header.sequence), Ok(Delivered([f], None)))
      else (rx.(tracker := tracker), Ok(Delivered([], None)))
    case AtLeastOnce => AtLeastOnceStep(rx, f, now)
    case ReliableOrdered => ReliableStep(rx, f, now)
  }

  // ---------------------------------------------------------------- the receiver itself

  class StreamReceiver {
    const streamId: u64
    const mode: DeliveryMode
    const tracker: Tracker.StreamSequenceTracker
    const dedup: Dedup.DuplicateFilter
    const recovery: Recovery.RecoveryEngine
    var highestDeliveredSequence: nat

    ghost predicate Valid()
      reads this, dedup, recovery
    {
      dedup.Valid() && Recovery.Keyed(recovery.bufferedOutOfOrder)
    }

    ghost function Model(): Receiver
      requires Valid()
      reads this, tracker, dedup, recovery
    {
      Receiver(streamId, mode, tracker.Model(), dedup.capacity, dedup.Recent(), recovery.Model(),
               highestDeliveredSequence)
    }

    constructor (streamId: u64, mode: DeliveryMode, config: Recovery.Config)
      ensures Valid() && Model() == NewReceiver(streamId, mode, config)
      ensures fresh(tracker) && fresh(dedup) && fresh(recovery)
    {
      this.streamId := streamId;
      this.mode := mode;
      tracker := new Tracker.StreamSequenceTracker();
      dedup := new Dedup.DuplicateFilter(10_000);
      recovery := new Recovery.RecoveryEngine(config);
      highestDeliveredSequence := 0;
    }

    method ProcessDataFrame(f: OwnedFrame, now: nat) returns (r: Result<Delivered>)
      requires Valid() && CanProcess(Model(), f)
      modifies this, tracker, dedup, recovery
      ensures Valid()
      ensures (Model(), r) == Processed(old(Model()), f, now)
    {
      ghost var before := Model();
      var n := f.header.sequence as nat;
      var status := tracker.Observe(f.header.publisherId, n);
      match mode {
        case BestEffort =>
          highestDeliveredSequence := Max(highestDeliveredSequence, n);
          return Ok(Delivered([f], None));
        case Latest =>
          if n > highestDeliveredSequence {
            highestDeliveredSequence := n;
            return Ok(Delivered([f], None));
          } else {
            return Ok(Delivered([], None));
          }
        case AtLeastOnce =>
          match status {
            case InOrder(sequence) =>
              highestDeliveredSequence := Max(highestDeliveredSequence, sequence);
              return Ok(Delivered([f], None));
            case Gap(_, _, low, high) =>
              var req := recovery.CreateReplayRequest(low, high, now);
              if req.Err? {
                return Err(req.error);
              }
              highestDeliveredSequence := Max(highestDeliveredSequence, n);
              return Ok(Delivered([f], Some(req.value)));
            case DuplicateOrOld(_, _) =>
              return Ok(Delivered([f], None));
            case PublisherReset(_, _, initial) =>
              highestDeliveredSequence := initial;
              return Ok(Delivered([f], None));
          }
        case ReliableOrdered =>
          var duplicate := dedup.IsDuplicateAndRecord(Dedup.Key(streamId, f.header.publisherId, f.header.sequence));
          if duplicate {
            return Ok(Delivered([], None));
          }
          match status {
            case InOrder(sequence) =>
              var frames := DeliverRun(f, sequence);
              return Ok(Delivered(frames, None));
            case Gap(_, _, low, high) =>
              recovery.BufferFrame(f);
              var req := recovery.CreateReplayRequest(low, high, now);
              if req.Err? {
                return Err(req.error);
              }
              return Ok(Delivered([], Some(req.value)));
            case DuplicateOrOld(_, _) =>
              return Ok(Delivered([], None));
            case PublisherReset(_, _, initial) =>
              recovery.Reset();
              highestDeliveredSequence := initial;
              return Ok(Delivered([f], None));
          }
      }
    }

    /** Delivers an in-order frame and whatever it releases, advancing tracker and cursor frame by frame. */
    method DeliverRun(f: OwnedFrame, sequence: nat) returns (delivered: seq<OwnedFrame>)
      requires Valid()
      modifies this, tracker, recovery
      ensures Valid()
      ensures (Model(), Ok(Delivered(delivered, None))) == OnInOrder(old(Model()), f, sequence)
    {
      delivered := [f];
      highestDeliveredSequence := sequence;
      ghost var buffer := recovery.bufferedOutOfOrder;
      var contiguous := recovery.DrainContiguous(sequence + 1);
      Recovery.DrainedMeaning(buffer, sequence + 1);
      forall i | 0 <= i < |contiguous|
        ensures contiguous[i].header.sequence == sequence + 1 + i
      {
        var k := sequence + 1 + i;
        assert k in buffer && contiguous[k - (sequence + 1)] == buffer[k];
      }
      AdvanceThrough(contiguous, sequence);
      delivered := delivered + contiguous;
    }

    /** Moves tracker and cursor past each frame of a contiguous run. */
    method AdvanceThrough(run: seq<OwnedFrame>, sequence: nat)
      requires highestDeliveredSequence == sequence
      requires forall i :: 0 <= i < |run| ==> run[i].header.sequence == sequence + 1 + i
      modifies this`highestDeliveredSequence, tracker
      ensures highestDeliveredSequence == sequence + |run|
      ensures tracker.Model()
           == if |run| == 0 then old(tracker.Model())
              else old(tracker.Model()).(expected := Max(old(tracker.Model()).expected, sequence + |run| + 1))
    {
      ghost var t := tracker.Model();
      for i := 0 to |run|
        invariant highestDeliveredSequence == sequence + i
        invariant tracker.Model() == if i == 0 then t else t.(expected := Max(t.expected, sequence + i + 1))
      {
        var cSeq := run[i].header.sequence as nat;
        highestDeliveredSequence := cSeq;
        tracker.AdvanceExpected(cSeq + 1);
      }
    }
  }
}
