/**
 The full history of what reaches the receiver, replies at or below its cursor included, and how far the deliveries
 fall behind it.
 */
module DeliveryReach {
  import opened Outcomes
  import opened Frames
  import opened Delivery
  import opened DeliveryRuns
  import Recovery

  // ---------------------------------------------------------------- the full history

  /** The frame an event brings to the receiver: DATA, or any response to an open request. */
  function Reaching(rx: Receiver, ev: Event): seq<OwnedFrame> {
    match ev
    case Arrive(f, _) => [f]
    case Respond(id, f) => if id in rx.engine.outstanding then [f] else []
    case _ => []
  }

  /** A response to an open request at or below the cursor: it is buffered where no drain starts. */
  function SetAside(rx: Receiver, ev: Event): seq<OwnedFrame> {
    match ev
    case Respond(id, f) =>
      if id in rx.engine.outstanding && f.header.sequence <= rx.tracker.expected then [f] else []
    case _ => []
  }

  function Reached(run: Run): seq<OwnedFrame> {
    if run.Start? then [] else Reached(run.before) + Reaching(Now(run.before), run.event)
  }

  function AllSetAside(run: Run): seq<OwnedFrame> {
    if run.Start? then [] else AllSetAside(run.before) + SetAside(Now(run.before), run.event)
  }

  lemma SequencesAppend(a: seq<OwnedFrame>, b: seq<OwnedFrame>, p: u64)
    ensures Sequences(a + b, p) == Sequences(a, p) + Sequences(b, p)
  {
    assert forall f :: f in a + b <==> f in a || f in b;
    forall n | n in Sequences(a, p) + Sequences(b, p)
      ensures n in Sequences(a + b, p)
    {
      var f :| (f in a || f in b) && f.header.publisherId == p && f.header.sequence as nat == n;
      assert f in a + b;
    }
  }

  lemma ReachingSplits(rx: Receiver, ev: Event, p: u64)
    ensures Sequences(Reaching(rx, ev), p) == Sequences(Arriving(rx, ev), p) + Sequences(SetAside(rx, ev), p)
  {}

  /** What reached the receiver is what counts as arrived and what was set aside. */
  lemma {:induction false} ReachedSplits(run: Run, p: u64)
    ensures Sequences(Reached(run), p) == Sequences(Arrivals(run), p) + Sequences(AllSetAside(run), p)
  {
    if run.Then? {
      var rx := Now(run.before);
      ReachedSplits(run.before, p);
      ReachingSplits(rx, run.event, p);
      SequencesAppend(Reached(run.before), Reaching(rx, run.event), p);
      SequencesAppend(Arrivals(run.before), Arriving(rx, run.event), p);
      SequencesAppend(AllSetAside(run.before), SetAside(rx, run.event), p);
    }
  }

  // ---------------------------------------------------------------- the buffer and the history

  /** From the cursor on, the cursor included, the buffer holds exactly what has reached the receiver. */
  ghost predicate HoldsReached(rx: Receiver, reached: set<nat>) {
    forall k :: k >= rx.tracker.expected ==> (k in rx.engine.buffer <==> k in reached)
  }

  lemma AwaitedHolds(rx: Receiver, f: OwnedFrame, now: nat, reached: set<nat>)
    requires rx.mode == ReliableOrdered && rx.tracker.active == Some(f.header.publisherId)
    requires f.header.sequence == rx.tracker.expected && KeyOf(rx, f) !in rx.recent
    requires HoldsReached(rx, reached)
    ensures HoldsReached(Processed(rx, f, now).0, reached + {f.header.sequence as nat})
  {
    hide Processed, Recovery.Drained;
    AwaitedEffect(rx, f, now);
    Recovery.DrainedMeaning(rx.engine.buffer, rx.tracker.expected + 1);
  }

  lemma UnawaitedHolds(rx: Receiver, f: OwnedFrame, now: nat, reached: set<nat>)
    requires rx.mode == ReliableOrdered && rx.tracker.active == Some(f.header.publisherId)
    requires f.header.sequence != rx.tracker.expected
    requires f.header.sequence > rx.tracker.expected && KeyOf(rx, f) in rx.recent ==>
               f.header.sequence as nat in rx.engine.buffer
    requires HoldsReached(rx, reached)
    ensures HoldsReached(Processed(rx, f, now).0, reached + {f.header.sequence as nat})
  {
    hide Processed;
    UnawaitedEffect(rx, f, now);
  }

  lemma FirstHolds(rx: Receiver, f: OwnedFrame, now: nat, reached: set<nat>)
    requires rx.mode == ReliableOrdered && rx.tracker.active == None && rx.tracker.expected == 1
    requires f.header.sequence >= 1 && KeyOf(rx, f) !in rx.recent && rx.engine.buffer == map[]
    requires HoldsReached(rx, reached)
    ensures HoldsReached(Processed(rx, f, now).0, reached + {f.header.sequence as nat})
  {
    hide Processed;
    NewPublisherEffect(rx, f, now);
  }

  lemma ArrivalHolds(rx: Receiver, arrivals: seq<OwnedFrame>, blocks: seq<Block>, f: OwnedFrame, now: nat,
                     reached: set<nat>)
    requires Inv(rx, arrivals, blocks) && HoldsReached(rx, reached) && f.header.sequence >= 1
    requires rx.tracker.active == None || rx.tracker.active == Some(f.header.publisherId)
    ensures HoldsReached(Processed(rx, f, now).0, reached + {f.header.sequence as nat})
  {
    var arrived := Sequences(arrivals, f.header.publisherId);
    assert KeyOf(rx, f) in rx.recent ==> f.header.sequence as nat in arrived;
    hide Processed, HoldsReached, Sequences;
    if rx.tracker.active == None {
      NoArrivals(f.header.publisherId);
      FirstHolds(rx, f, now, reached);
    } else if f.header.sequence == rx.tracker.expected {
      AwaitedHolds(rx, f, now, reached);
    } else {
      UnawaitedHolds(rx, f, now, reached);
    }
  }

  lemma NoArrivals(p: u64)
    ensures Sequences([], p) == {}
  {}

  lemma ResponseHolds(rx: Receiver, id: nat, f: OwnedFrame, reached: set<nat>)
    requires HoldsReached(rx, reached) && !Recovery.Completes(rx.engine, id, f)
    ensures HoldsReached(rx.(engine := Recovery.Answered(rx.engine, id, f).0),
                         reached + if id in rx.engine.outstanding then {f.header.sequence as nat} else {})
  {}

  lemma {:induction false} RunHolds(run: Run, p: u64)
    requires Valid(run) && OneSource(run, p)
    ensures HoldsReached(Now(run), Sequences(Reached(run), p))
  {
    if run.Then? {
      RunHolds(run.before, p);
      OnePublisherIsDisciplined(run.before, p);
      var rx, ev := Now(run.before), run.event;
      SequencesAppend(Reached(run.before), Reaching(rx, ev), p);
      StepHolds(rx, Arrivals(run.before), Blocks(run.before), ev, run.receiver, run.out, p,
                Sequences(Reached(run.before), p));
    }
  }

  lemma StepHolds(rx: Receiver, arrivals: seq<OwnedFrame>, blocks: seq<Block>, ev: Event, rx': Receiver,
                  out: Result<Delivered>, p: u64, reached: set<nat>)
    requires Inv(rx, arrivals, blocks) && Step(rx, ev, rx', out) && HoldsReached(rx, reached)
    requires rx.tracker.active == None || rx.tracker.active == Some(p)
    requires ev.Arrive? ==> ev.frame.header.publisherId == p && ev.frame.header.sequence >= 1
    requires ev.Respond? ==> ev.frame.header.publisherId == p
    ensures HoldsReached(rx', reached + Sequences(Reaching(rx, ev), p))
  {
    hide Inv, Processed, HoldsReached;
    match ev
    case Arrive(f, now) =>
      ArrivalHolds(rx, arrivals, blocks, f, now, reached);
      assert Sequences([f], p) == {f.header.sequence as nat};
    case Sweep(now) =>
      var r :| Recovery.Swept(rx.engine, now, rx'.engine, r);
      SweepKeepsBuffer(rx.engine, now, rx'.engine, r);
      SameHolds(rx, rx', reached);
      NoArrivals(p);
    case Unavailable(u) =>
      SameHolds(rx, rx', reached);
      NoArrivals(p);
    case Respond(id, f) =>
      ResponseHolds(rx, id, f, reached);
      NoArrivals(p);
      assert Sequences([f], p) == {f.header.sequence as nat};
  }

  lemma SameHolds(rx: Receiver, rx': Receiver, reached: set<nat>)
    requires HoldsReached(rx, reached)
    requires rx'.tracker == rx.tracker && rx'.engine.buffer == rx.engine.buffer
    ensures HoldsReached(rx', reached + {})
  {}

  // ---------------------------------------------------------------- main results

  /**
   One publisher, any run of arrivals, sweeps, notices and incomplete replays: everything delivered has reached the
   receiver, and the deliveries are the longest prefix that has exactly when nothing is buffered under the awaited
   sequence. A reply that brings the awaited sequence itself is buffered there and not delivered.
   */
  lemma LongestReachedExactly(run: Run, p: u64)
    requires Valid(run) && OneSource(run, p)
    ensures var rx, reached := Now(run), Sequences(Reached(run), p);
            && |DeliveredBy(run)| == rx.tracker.expected - 1
            && (forall n :: 1 <= n <= |DeliveredBy(run)| ==> n in reached)
            && (|DeliveredBy(run)| + 1 !in reached <==> rx.tracker.expected !in rx.engine.buffer)
            && (forall k :: k >= rx.tracker.expected ==> (k in rx.engine.buffer <==> k in reached))
  {
    ExactlyOnceInOrder(run, p);
    RunHolds(run, p);
    ReachedSplits(run, p);
  }

  /** Once 1..n have all reached the receiver they are all delivered, unless one of them is both awaited and buffered. */
  lemma EverythingReachedIsDelivered(run: Run, p: u64, n: nat)
    requires Valid(run) && OneSource(run, p)
    requires forall k :: 1 <= k <= n ==> k in Sequences(Reached(run), p)
    ensures |DeliveredBy(run)| >= n <==>
            !(Now(run).tracker.expected <= n && Now(run).tracker.expected in Now(run).engine.buffer)
    ensures forall i :: 0 <= i < n && i < |DeliveredBy(run)| ==> DeliveredBy(run)[i].header.sequence == i + 1
  {
    ExactlyOnceInOrder(run, p);
    LongestReachedExactly(run, p);
  }

  /** The next sequence of a block's publisher has reached the receiver at most as a reply that was set aside. */
  ghost predicate LongestBut(blocks: seq<Block>, reached: seq<OwnedFrame>, aside: seq<OwnedFrame>) {
    forall i :: 0 <= i < |blocks| ==>
      var b := blocks[i];
      |b.frames| + 1 in Sequences(reached, b.publisherId) ==> |b.frames| + 1 in Sequences(aside, b.publisherId)
  }

  /** With restarts: each block goes as far as what reached the receiver allows, save replies that were set aside. */
  lemma BlocksOfReached(run: Run)
    requires Valid(run) && Disciplined(run)
    ensures DeliveredBy(run) == Flatten(Blocks(run))
    ensures LongestBut(Blocks(run), Reached(run), AllSetAside(run))
  {
    DeliveryIsBlocks(run);
    var blocks := Blocks(run);
    forall i | 0 <= i < |blocks|
      ensures var b := blocks[i];
              |b.frames| + 1 in Sequences(Reached(run), b.publisherId) ==>
                |b.frames| + 1 in Sequences(AllSetAside(run), b.publisherId)
    {
      ReachedSplits(run, blocks[i].publisherId);
    }
  }
}
