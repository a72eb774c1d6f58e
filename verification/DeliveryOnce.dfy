/**
 What ReliableOrdered keeps under any mix of publishers: as long as the duplicate filter evicts nothing and no
 replay response is buffered, no frame is delivered twice.
 */
module DeliveryOnce {
  import opened Outcomes
  import opened Frames
  import opened Delivery
  import opened DeliveryRuns
  import Dedup
  import PublisherChanges
  import Recovery

  /** Two copies of one publication, as far as the receiver can tell. */
  predicate Same(f: OwnedFrame, g: OwnedFrame) {
    f.header.publisherId == g.header.publisherId && f.header.sequence == g.header.sequence
  }

  ghost predicate Distinct(fs: seq<OwnedFrame>) {
    forall i, j :: 0 <= i < j < |fs| ==> !Same(fs[i], fs[j])
  }

  ghost predicate Apart(fs: seq<OwnedFrame>, buffer: Recovery.ReorderBuffer) {
    forall f, k :: f in fs && k in buffer ==> !Same(f, buffer[k])
  }

  ghost predicate AllKnown(rx: Receiver, fs: seq<OwnedFrame>) {
    forall f :: f in fs ==> KeyOf(rx, f) in rx.recent
  }

  ghost predicate BufferKnown(rx: Receiver) {
    forall k :: k in rx.engine.buffer ==> KeyOf(rx, rx.engine.buffer[k]) in rx.recent
  }

  /** Delivered and buffered frames are known to the filter, apart from each other, and each is there once. */
  ghost predicate OnceInv(rx: Receiver, delivered: seq<OwnedFrame>) {
    && rx.mode == ReliableOrdered
    && Recovery.Keyed(rx.engine.buffer)
    && AllKnown(rx, delivered) && BufferKnown(rx)
    && Distinct(delivered) && Apart(delivered, rx.engine.buffer)
  }

  /** The filter has room for the frame, or need not record it. */
  ghost predicate HasRoom(rx: Receiver, f: OwnedFrame) {
    KeyOf(rx, f) in rx.recent || |rx.recent| < rx.filterCapacity
  }

  // ---------------------------------------------------------------- one arrival

  /** A known frame changes at most the tracker. */
  lemma KnownStep(rx: Receiver, f: OwnedFrame, now: nat)
    requires rx.mode == ReliableOrdered && CanProcess(rx, f) && KeyOf(rx, f) in rx.recent
    ensures var (rx', r) := Processed(rx, f, now);
            FramesOf(r) == [] && rx' == rx.(tracker := rx'.tracker)
  {}

  /** An unknown frame is recorded, and ignored, buffered, delivered alone, or delivered with the run after it. */
  lemma UnknownStep(rx: Receiver, f: OwnedFrame, now: nat)
    requires rx.mode == ReliableOrdered && CanProcess(rx, f) && KeyOf(rx, f) !in rx.recent
    ensures var (rx', r) := Processed(rx, f, now);
            var fs, buffer, buffer' := FramesOf(r), rx.engine.buffer, rx'.engine.buffer;
            var (run, left) := Recovery.Drained(buffer, f.header.sequence + 1);
            && rx'.mode == rx.mode && rx'.streamId == rx.streamId && rx'.filterCapacity == rx.filterCapacity
            && rx'.recent == Dedup.Last(rx.recent + [KeyOf(rx, f)], rx.filterCapacity)
            && ((fs == [] && (buffer' == buffer || buffer' == buffer[f.header.sequence := f]))
                || (fs == [f] && buffer' == map[])
                || (fs == [f] + run && buffer' == left))
  {
    hide Recovery.Drained;
  }

  lemma DistinctAppend(fs: seq<OwnedFrame>, gs: seq<OwnedFrame>)
    requires Distinct(fs) && Distinct(gs) && forall f, g :: f in fs && g in gs ==> !Same(f, g)
    ensures Distinct(fs + gs)
  {
    var all := fs + gs;
    forall i, j | 0 <= i < j < |all|
      ensures !Same(all[i], all[j])
    {
      assert i >= |fs| ==> all[i] == gs[i - |fs|];
      assert j >= |fs| ==> all[j] == gs[j - |fs|];
      assert j >= |fs| > i ==> fs[i] in fs && gs[j - |fs|] in gs;
    }
  }

  /** A drained run takes frames out of the buffer, each once. */
  lemma RunIsApart(buffer: Recovery.ReorderBuffer, start: nat)
    requires Recovery.Keyed(buffer)
    ensures var (run, left) := Recovery.Drained(buffer, start);
            && Distinct(run) && Apart(run, left) && Recovery.Keyed(left)
            && (forall k :: k in left ==> k in buffer && left[k] == buffer[k])
            && forall f :: f in run ==> exists k :: k in buffer && buffer[k] == f
  {
    var (run, left) := Recovery.Drained(buffer, start);
    Recovery.DrainedMeaning(buffer, start);
    forall f | f in run
      ensures exists k :: k in buffer && k !in left && buffer[k] == f
    {
      var i :| 0 <= i < |run| && run[i] == f;
      assert start + i in buffer && run[start + i - start] == buffer[start + i];
    }
    forall i, j | 0 <= i < j < |run|
      ensures !Same(run[i], run[j])
    {
      assert run[start + i - start] == buffer[start + i] && run[start + j - start] == buffer[start + j];
    }
  }

  /** Frames the filter knows are different from one it does not know. */
  lemma UnknownIsApart(rx: Receiver, fs: seq<OwnedFrame>, f: OwnedFrame)
    requires AllKnown(rx, fs) && KeyOf(rx, f) !in rx.recent
    ensures forall g :: g in fs ==> !Same(g, f)
  {}

  lemma FilterKeeps(rx: Receiver, f: OwnedFrame, rx': Receiver)
    requires |rx.recent| < rx.filterCapacity && rx'.streamId == rx.streamId
    requires rx'.recent == Dedup.Last(rx.recent + [KeyOf(rx, f)], rx.filterCapacity)
    ensures KeyOf(rx', f) in rx'.recent && forall key :: key in rx.recent ==> key in rx'.recent
  {
    assert rx'.recent == rx.recent + [KeyOf(rx, f)];
  }

  /** What the deliveries of one unknown frame add. */
  lemma DeliveryKeepsApart(rx: Receiver, delivered: seq<OwnedFrame>, f: OwnedFrame, rx': Receiver)
    requires OnceInv(rx, delivered) && KeyOf(rx, f) !in rx.recent && |rx.recent| < rx.filterCapacity
    requires rx'.mode == rx.mode && rx'.streamId == rx.streamId
    requires rx'.recent == Dedup.Last(rx.recent + [KeyOf(rx, f)], rx.filterCapacity)
    requires rx'.engine.buffer == Recovery.Drained(rx.engine.buffer, f.header.sequence + 1).1
    ensures OnceInv(rx', delivered + ([f] + Recovery.Drained(rx.engine.buffer, f.header.sequence + 1).0))
  {
    var buffer := rx.engine.buffer;
    var (run, left) := Recovery.Drained(buffer, f.header.sequence + 1);
    RunIsApart(buffer, f.header.sequence + 1);
    FilterKeeps(rx, f, rx');
    hide Recovery.Drained, Dedup.Last;
    UnknownIsApart(rx, delivered, f);
    assert AllKnown(rx, run);
    UnknownIsApart(rx, run, f);
    assert Distinct([f]);
    assert forall g, h :: g in [f] && h in run ==> !Same(g, h);
    DistinctAppend([f], run);
    DistinctAppend(delivered, [f] + run);
  }

  lemma BufferingKeepsApart(rx: Receiver, delivered: seq<OwnedFrame>, f: OwnedFrame, rx': Receiver)
    requires OnceInv(rx, delivered) && KeyOf(rx, f) !in rx.recent && |rx.recent| < rx.filterCapacity
    requires rx'.mode == rx.mode && rx'.streamId == rx.streamId
    requires rx'.recent == Dedup.Last(rx.recent + [KeyOf(rx, f)], rx.filterCapacity)
    requires rx'.engine.buffer == rx.engine.buffer || rx'.engine.buffer == rx.engine.buffer[f.header.sequence := f]
    ensures OnceInv(rx', delivered)
  {
    FilterKeeps(rx, f, rx');
    hide Dedup.Last;
    UnknownIsApart(rx, delivered, f);
  }

  lemma LoneDeliveryKeepsApart(rx: Receiver, delivered: seq<OwnedFrame>, f: OwnedFrame, rx': Receiver)
    requires OnceInv(rx, delivered) && KeyOf(rx, f) !in rx.recent && |rx.recent| < rx.filterCapacity
    requires rx'.mode == rx.mode && rx'.streamId == rx.streamId
    requires rx'.recent == Dedup.Last(rx.recent + [KeyOf(rx, f)], rx.filterCapacity)
    requires rx'.engine.buffer == map[]
    ensures OnceInv(rx', delivered + [f])
  {
    FilterKeeps(rx, f, rx');
    hide Dedup.Last;
    UnknownIsApart(rx, delivered, f);
    assert Distinct([f]);
    DistinctAppend(delivered, [f]);
  }

  lemma ArrivalKeepsOnce(rx: Receiver, delivered: seq<OwnedFrame>, f: OwnedFrame, now: nat)
    requires OnceInv(rx, delivered) && CanProcess(rx, f) && HasRoom(rx, f)
    ensures var (rx', r) := Processed(rx, f, now);
            OnceInv(rx', delivered + FramesOf(r))
  {
    var (rx', r) := Processed(rx, f, now);
    if KeyOf(rx, f) in rx.recent {
      KnownStep(rx, f, now);
      assert delivered + [] == delivered;
    } else {
      UnknownStep(rx, f, now);
      hide Processed, OnceInv, Recovery.Drained, Dedup.Last;
      var n := f.header.sequence as nat;
      if FramesOf(r) == [] {
        BufferingKeepsApart(rx, delivered, f, rx');
        assert delivered + [] == delivered;
      } else if rx'.engine.buffer == Recovery.Drained(rx.engine.buffer, n + 1).1
                && FramesOf(r) == [f] + Recovery.Drained(rx.engine.buffer, n + 1).0 {
        DeliveryKeepsApart(rx, delivered, f, rx');
      } else {
        LoneDeliveryKeepsApart(rx, delivered, f, rx');
      }
    }
  }

  // ---------------------------------------------------------------- runs

  /** The filter never had to forget a frame to record another. */
  ghost predicate NoEviction(run: Run) {
    run.Then? ==>
      && NoEviction(run.before)
      && (run.event.Arrive? ==> HasRoom(Now(run.before), run.event.frame))
  }

  lemma {:induction false} RunKeepsOnce(run: Run)
    requires Valid(run) && NoResponses(run) && NoEviction(run)
    ensures OnceInv(Now(run), DeliveredBy(run))
  {
    if run.Then? {
      RunKeepsOnce(run.before);
      var rx, delivered := Now(run.before), DeliveredBy(run.before);
      match run.event
      case Arrive(f, now) => ArrivalKeepsOnce(rx, delivered, f, now);
      case Sweep(now) =>
        var r :| Recovery.Swept(rx.engine, now, run.receiver.engine, r);
        SweepKeepsBuffer(rx.engine, now, run.receiver.engine, r);
        assert delivered + [] == delivered;
      case Unavailable(u) =>
        assert delivered + [] == delivered;
    }
  }

  /**
   Any mix of publishers, in any order and multiplicity, with sweeps, notices and refused requests: no publisher's
   sequence is delivered twice, and whatever was delivered or is buffered is known to the filter.
   */
  lemma NeverDeliveredTwice(run: Run)
    requires Valid(run) && NoResponses(run) && NoEviction(run)
    ensures Distinct(DeliveredBy(run)) && Apart(DeliveredBy(run), Now(run).engine.buffer)
    ensures AllKnown(Now(run), DeliveredBy(run)) && BufferKnown(Now(run))
  {
    RunKeepsOnce(run);
  }

  /** A cut-off frame has never been delivered, and never will be by its publisher's arrivals without eviction. */
  lemma LostForGood(run: Run, f: OwnedFrame, now: nat, calls: seq<Call>)
    requires Valid(run) && NoResponses(run) && NoEviction(run)
    requires var rx, q := Now(run), f.header.publisherId;
             && rx.tracker.active.Some? && rx.tracker.active != Some(q)
             && f.header.sequence >= 2 && KeyOf(rx, f) !in rx.recent
             && PublisherChanges.CutOff(rx, q, f.header.sequence)
             && From(calls, q) && |rx.recent| + 1 + |calls| <= rx.filterCapacity
    ensures forall g :: g in DeliveredBy(run) ==> !Same(g, f)
    ensures !Delivers(PublisherChanges.DeliveredFrom(Now(run), f, now, calls), f.header.sequence)
  {
    RunKeepsOnce(run);
    UnknownIsApart(Now(run), DeliveredBy(run), f);
    PublisherChanges.CutOffIsLost(Now(run), f, now, calls);
  }

  // ---------------------------------------------------------------- with eviction

  /** Frame 1 of a publisher that is not active is delivered whenever the filter has forgotten it. */
  lemma ForgottenFirstIsDelivered(rx: Receiver, f: OwnedFrame, now: nat)
    requires rx.mode == ReliableOrdered && f.header.sequence == 1 && KeyOf(rx, f) !in rx.recent
    requires rx.tracker.active.Some? && rx.tracker.active != Some(f.header.publisherId)
    ensures FramesOf(Processed(rx, f, now).1) == [f]
  {
    NewPublisherEffect(rx, f, now);
  }

  /** p's frame 1 and then q's 1..k. */
  function Displacing(p: u64, q: u64, k: nat): (calls: seq<Call>)
    requires k < 0x1_0000_0000_0000_0000
    ensures Legal(calls) && |calls| == k + 1
  {
    PublisherChanges.UpTo(p, 1) + PublisherChanges.UpTo(q, k)
  }

  function KeysUpTo(streamId: u64, q: u64, k: nat): (keys: seq<Dedup.Key>)
    requires k < 0x1_0000_0000_0000_0000
    ensures |keys| == k && forall key :: key in keys ==> key.publisherId == q && key.sequence <= k
  {
    if k == 0 then [] else KeysUpTo(streamId, q, k - 1) + [Dedup.Key(streamId, q, k)]
  }

  /** The receiver after those arrivals: all are delivered and the filter holds the last ones. */
  ghost predicate Displaced(rx: Receiver, p: u64, q: u64, k: nat)
    requires k < 0x1_0000_0000_0000_0000
  {
    && rx.mode == ReliableOrdered
    && rx.tracker.active == Some(if k == 0 then p else q)
    && rx.tracker.expected == (if k == 0 then 2 else k + 1)
    && rx.engine.buffer == map[]
    && rx.recent == Dedup.Last([Dedup.Key(rx.streamId, p, 1)] + KeysUpTo(rx.streamId, q, k), rx.filterCapacity)
  }

  /** The filter does not know q's next frame, and recording it shifts the window by one. */
  lemma FilterShifts(streamId: u64, capacity: nat, p: u64, q: u64, k: nat, recent: seq<Dedup.Key>)
    requires p != q && capacity > 0 && k + 1 < 0x1_0000_0000_0000_0000
    requires recent == Dedup.Last([Dedup.Key(streamId, p, 1)] + KeysUpTo(streamId, q, k), capacity)
    ensures var key := Dedup.Key(streamId, q, k + 1);
            && key !in recent
            && Dedup.Last(recent + [key], capacity)
               == Dedup.Last([Dedup.Key(streamId, p, 1)] + KeysUpTo(streamId, q, k + 1), capacity)
  {
    var first, key := Dedup.Key(streamId, p, 1), Dedup.Key(streamId, q, k + 1);
    var log := [first] + KeysUpTo(streamId, q, k);
    assert forall x :: x in recent ==> x in log;
    assert key !in log;
    Dedup.LastAppend(log, key, capacity);
    assert log + [key] == [first] + KeysUpTo(streamId, q, k + 1);
  }

  lemma NextDisplaced(rx: Receiver, p: u64, q: u64, k: nat, f: OwnedFrame, now: nat)
    requires p != q && rx.filterCapacity > 0 && k + 1 < 0x1_0000_0000_0000_0000 && Displaced(rx, p, q, k)
    requires f.header.publisherId == q && f.header.sequence == k + 1
    ensures var (rx', r) := Processed(rx, f, now);
            && Displaced(rx', p, q, k + 1) && FramesOf(r) == [f]
            && rx'.streamId == rx.streamId && rx'.filterCapacity == rx.filterCapacity
  {
    FilterShifts(rx.streamId, rx.filterCapacity, p, q, k, rx.recent);
    hide Processed, Dedup.Last, KeysUpTo;
    if k == 0 {
      NewPublisherEffect(rx, f, now);
    } else {
      AwaitedEffect(rx, f, now);
    }
  }

  lemma {:induction false} DisplacingRun(start: Receiver, p: u64, q: u64, k: nat)
    requires p != q && k < 0x1_0000_0000_0000_0000 && Unused(start)
    ensures var (rx, fs) := ProcessAll(start, Displacing(p, q, k));
            && fs == FramesIn(Displacing(p, q, k)) && Displaced(rx, p, q, k)
            && rx.streamId == start.streamId && rx.filterCapacity == start.filterCapacity
  {
    hide Processed, Displaced, Displacing, PublisherChanges.UpTo;
    DisplacingStep(p, q, k);
    var calls := Displacing(p, q, k);
    var init, last := calls[..k], calls[k];
    if k == 0 {
      assert ProcessAll(start, init) == (start, []);
      FirstDisplaced(start, p, q, last.frame, last.now);
    } else {
      DisplacingRun(start, p, q, k - 1);
      NextDisplaced(ProcessAll(start, init).0, p, q, k - 1, last.frame, last.now);
    }
  }

  lemma DisplacingStep(p: u64, q: u64, k: nat)
    requires k < 0x1_0000_0000_0000_0000
    ensures var calls := Displacing(p, q, k);
            && FramesIn(calls) == FramesIn(calls[..k]) + [calls[k].frame]
            && calls[..k] == (if k == 0 then [] else Displacing(p, q, k - 1))
            && calls[k].frame.header.publisherId == (if k == 0 then p else q)
            && calls[k].frame.header.sequence == (if k == 0 then 1 else k)
  {}

  ghost predicate Unused(start: Receiver) {
    && start.mode == ReliableOrdered && start.tracker.active == None && start.filterCapacity > 0
    && start.recent == [] && start.engine.buffer == map[]
  }

  lemma FirstDisplaced(start: Receiver, p: u64, q: u64, f: OwnedFrame, now: nat)
    requires Unused(start) && f.header.publisherId == p && f.header.sequence == 1
    ensures var (rx, r) := Processed(start, f, now);
            && FramesOf(r) == [f] && Displaced(rx, p, q, 0)
            && rx.streamId == start.streamId && rx.filterCapacity == start.filterCapacity
  {
    NewPublisherEffect(start, f, now);
    assert [] + [KeyOf(start, f)] == [Dedup.Key(start.streamId, p, 1)] + KeysUpTo(start.streamId, q, 0);
  }

  /**
   Whatever the filter's capacity, as many frames of another publisher make it forget a frame 1, which is then
   delivered a second time: everything that arrives in this run is delivered, its first and last frame being the same.
   */
  lemma EvictionDeliversTwice(streamId: u64, config: Recovery.Config, capacity: nat, p: u64, q: u64)
    requires p != q && 0 < capacity < 0x1_0000_0000_0000_0000
    ensures var start := NewReceiver(streamId, ReliableOrdered, config).(filterCapacity := capacity);
            var calls := Displacing(p, q, capacity) + PublisherChanges.UpTo(p, 1);
            var fs := ProcessAll(start, calls).1;
            && fs == FramesIn(calls) && |fs| == capacity + 2
            && fs[0] == fs[|fs| - 1] && fs[0].header.publisherId == p && fs[0].header.sequence == 1
  {
    var start := NewReceiver(streamId, ReliableOrdered, config).(filterCapacity := capacity);
    var before := Displacing(p, q, capacity);
    var calls := before + PublisherChanges.UpTo(p, 1);
    DisplacingRun(start, p, q, capacity);
    var rx := ProcessAll(start, before).0;
    var last := calls[|calls| - 1];
    assert rx.recent == KeysUpTo(streamId, q, capacity);
    hide Processed, KeysUpTo;
    ForgottenFirstIsDelivered(rx, last.frame, last.now);
    assert calls[..|calls| - 1] == before;
    assert FramesIn(calls) == FramesIn(before) + [last.frame];
  }

  lemma RememberedExactly(streamId: u64, capacity: nat, p: u64, q: u64, k: nat)
    requires p != q && k < 0x1_0000_0000_0000_0000
    ensures Dedup.Key(streamId, p, 1) in Dedup.Last([Dedup.Key(streamId, p, 1)] + KeysUpTo(streamId, q, k), capacity)
            <==> k < capacity
  {
    var keys := [Dedup.Key(streamId, p, 1)] + KeysUpTo(streamId, q, k);
    assert keys[0] == Dedup.Key(streamId, p, 1);
    if k >= capacity {
      assert forall x :: x in Dedup.Last(keys, capacity) ==> x in KeysUpTo(streamId, q, k);
    }
  }

  /** In such a run the repeated frame 1 is delivered exactly when the other publisher sent as many frames as fit. */
  lemma EvictionExactly(streamId: u64, config: Recovery.Config, capacity: nat, p: u64, q: u64, k: nat, f: OwnedFrame,
                        now: nat)
    requires p != q && 0 < capacity && 1 <= k < 0x1_0000_0000_0000_0000
    requires f.header.publisherId == p && f.header.sequence == 1
    ensures var start := NewReceiver(streamId, ReliableOrdered, config).(filterCapacity := capacity);
            FramesOf(Processed(ProcessAll(start, Displacing(p, q, k)).0, f, now).1) == if k < capacity then [] else [f]
  {
    var start := NewReceiver(streamId, ReliableOrdered, config).(filterCapacity := capacity);
    DisplacingRun(start, p, q, k);
    RememberedExactly(streamId, capacity, p, q, k);
    var rx := ProcessAll(start, Displacing(p, q, k)).0;
    hide Processed, ProcessAll, KeysUpTo, Dedup.Last;
    if k < capacity {
      KnownStep(rx, f, now);
    } else {
      ForgottenFirstIsDelivered(rx, f, now);
    }
  }

  /** A receiver as it is created remembers 10,000 frames. */
  lemma DefaultFilter(streamId: u64, config: Recovery.Config, p: u64, q: u64, k: nat, f: OwnedFrame, now: nat)
    requires p != q && 1 <= k < 0x1_0000_0000_0000_0000
    requires f.header.publisherId == p && f.header.sequence == 1
    ensures var start := NewReceiver(streamId, ReliableOrdered, config);
            FramesOf(Processed(ProcessAll(start, Displacing(p, q, k)).0, f, now).1) == if k < 10_000 then [] else [f]
  {
    EvictionExactly(streamId, config, 10_000, p, q, k, f, now);
    var start := NewReceiver(streamId, ReliableOrdered, config);
    assert start == start.(filterCapacity := 10_000);
    hide Processed, ProcessAll, Displacing;
  }
}
