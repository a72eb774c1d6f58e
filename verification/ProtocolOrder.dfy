/** Order and completeness of the whole protocol, and what the publisher's replay service answers. */
module ProtocolOrder {
  import opened Outcomes
  import opened Frames
  import opened ReplayPayloads
  import opened Delivery
  import opened Transport
  import opened Protocol
  import BigEndian
  import Codec
  import DeliveryLimits
  import DeliveryReach
  import DeliveryRuns
  import Recovery
  import RetentionRing

  // ---------------------------------------------------------------- end to end order

  /** The datagram is a replay response that completes a request of the subscriber. */
  ghost predicate CompletesReplay(s: System, p: Packet) {
    var view := Viewed(s.subMaxFrame, p);
    && view.Ok?
    && view.value.header.messageType == MessageType.ReplayResponse
    && view.value.header.streamId == s.rx.streamId
    && |view.value.payload| >= 8
    && Recovery.Completes(s.rx.engine, RequestIdOf(view.value), Recovered(view.value))
  }

  /**
   The receiver's discipline on one datagram: DATA must be admissible, and a response to a known request must be
   harmless and complete nothing.
   */
  ghost predicate InDiscipline(s: System, p: Packet) {
    var view := Viewed(s.subMaxFrame, p);
    view.Ok? && view.value.header.streamId == s.rx.streamId ==>
      && (view.value.header.messageType == Data ==> DeliveryRuns.Admissible(s.rx, s.arrivals, view.value))
      && (view.value.header.messageType == MessageType.ReplayResponse && |view.value.payload| >= 8
          && RequestIdOf(view.value) in s.rx.engine.outstanding ==>
            && DeliveryRuns.Harmless(s.rx, RequestIdOf(view.value), Recovered(view.value))
            && !Recovery.Completes(s.rx.engine, RequestIdOf(view.value), Recovered(view.value)))
  }

  ghost predicate Unused(id: u64, log: seq<OwnedFrame>) {
    forall f :: f in log ==> f.header.publisherId != id
  }

  /** Restarts take unused identities, and the subscriber's datagrams keep the discipline. */
  ghost predicate Orderly(run: Run) {
    run.Then? ==>
      && Orderly(run.before)
      && (run.event.Restart? ==> Unused(run.event.publisherId, Now(run.before).log))
      && (run.event.ToSubscriber? ==> InDiscipline(Now(run.before), run.event.packet))
  }

  // ---------------------------------------------------------------- what reaches the subscriber

  /** The call on the receiver that a datagram leads to, if it carries a frame for it. */
  function CallFor(s: System, p: Packet): Option<DeliveryRuns.Event> {
    var view := Viewed(s.subMaxFrame, p);
    if view.Err? || view.value.header.streamId != s.rx.streamId then None
    else if view.value.header.messageType == Data then Some(DeliveryRuns.Arrive(view.value, 0))
    else if view.value.header.messageType == MessageType.ReplayResponse && |view.value.payload| >= 8 then
      Some(DeliveryRuns.Respond(RequestIdOf(view.value), Recovered(view.value)))
    else None
  }

  function NewlyReached(s: System, ev: Event): seq<OwnedFrame> {
    if ev.ToSubscriber? && CallFor(s, ev.packet).Some?
    then DeliveryReach.Reaching(s.rx, CallFor(s, ev.packet).value) else []
  }

  function NewlyAside(s: System, ev: Event): seq<OwnedFrame> {
    if ev.ToSubscriber? && CallFor(s, ev.packet).Some?
    then DeliveryReach.SetAside(s.rx, CallFor(s, ev.packet).value) else []
  }

  /** Every frame that reached the subscriber's receiver, as DATA or in a response to an open request. */
  function Reached(run: Run): seq<OwnedFrame> {
    if run.Start? then [] else Reached(run.before) + NewlyReached(Now(run.before), run.event)
  }

  /** The responses among them that came at or below the cursor of the time. */
  function SetAside(run: Run): seq<OwnedFrame> {
    if run.Start? then [] else SetAside(run.before) + NewlyAside(Now(run.before), run.event)
  }

  lemma NewlySplits(s: System, ev: Event, s': System, id: u64)
    requires Step(s, ev, s')
    ensures DeliveryRuns.Sequences(s'.arrivals, id) + DeliveryRuns.Sequences(NewlyAside(s, ev), id)
         == DeliveryRuns.Sequences(s.arrivals, id) + DeliveryRuns.Sequences(NewlyReached(s, ev), id)
  {
    hide Codec.DecodeFrame, Processed, DeliveryRuns.Sequences;
    TickChangesReceiverOnly(s, ev, s');
    if ev.ToSubscriber? {
      if CallFor(s, ev.packet).Some? {
        var call := CallFor(s, ev.packet).value;
        assert Arriving(s, ev.packet) == DeliveryRuns.Arriving(s.rx, call);
        DeliveryReach.ReachingSplits(s.rx, call, id);
        DeliveryReach.SequencesAppend(s.arrivals, DeliveryRuns.Arriving(s.rx, call), id);
      } else {
        assert Arriving(s, ev.packet) == [] && s.arrivals + [] == s.arrivals;
      }
    }
  }

  lemma {:induction false} ReachedSplits(run: Run, id: u64)
    requires Valid(run)
    ensures DeliveryRuns.Sequences(Reached(run), id)
         == DeliveryRuns.Sequences(Now(run).arrivals, id) + DeliveryRuns.Sequences(SetAside(run), id)
  {
    hide Step, NewlyReached, NewlyAside;
    if run.Then? {
      var s, ev := Now(run.before), run.event;
      ReachedSplits(run.before, id);
      NewlySplits(s, ev, run.system, id);
      DeliveryReach.SequencesAppend(Reached(run.before), NewlyReached(s, ev), id);
      DeliveryReach.SequencesAppend(SetAside(run.before), NewlyAside(s, ev), id);
    }
  }

  // ---------------------------------------------------------------- the log, identity by identity

  /** What was published under one identity. */
  function PublishedBy(log: seq<OwnedFrame>, id: u64): seq<OwnedFrame> {
    if |log| == 0 then []
    else PublishedBy(log[..|log| - 1], id)
         + if log[|log| - 1].header.publisherId == id then [log[|log| - 1]] else []
  }

  lemma {:induction false} PublishedByMeaning(log: seq<OwnedFrame>, id: u64)
    ensures forall f :: f in PublishedBy(log, id) <==> f in log && f.header.publisherId == id
  {
    if |log| != 0 {
      PublishedByMeaning(log[..|log| - 1], id);
    }
  }

  ghost predicate Numbers(fs: seq<OwnedFrame>) {
    forall i :: 0 <= i < |fs| ==> fs[i].header.sequence == i + 1
  }

  /** Every identity numbered its publications from 1, and the current one is at its counter. */
  ghost predicate LogOk(log: seq<OwnedFrame>, pub: Publisher) {
    && (forall id :: Numbers(PublishedBy(log, id)))
    && |PublishedBy(log, pub.publisherId)| == pub.nextSequence - 1
  }

  lemma PublishKeepsLog(log: seq<OwnedFrame>, pub: Publisher, f: OwnedFrame)
    requires LogOk(log, pub) && f.header.publisherId == pub.publisherId && f.header.sequence == pub.nextSequence
    ensures LogOk(log + [f], pub.(nextSequence := pub.nextSequence + 1))
  {
    var more := log + [f];
    assert more[..|more| - 1] == log;
    forall id
      ensures Numbers(PublishedBy(more, id))
    {
      assert Numbers(PublishedBy(log, id));
    }
  }

  lemma RestartKeepsLog(log: seq<OwnedFrame>, pub: Publisher, id: u64)
    requires LogOk(log, pub) && Unused(id, log)
    ensures LogOk(log, Restarted(pub, id))
  {
    UnusedPublishesNothing(log, id);
  }

  lemma {:induction false} UnusedPublishesNothing(log: seq<OwnedFrame>, id: u64)
    requires Unused(id, log)
    ensures PublishedBy(log, id) == []
  {
    if |log| != 0 {
      UnusedPublishesNothing(log[..|log| - 1], id);
    }
  }

  // ---------------------------------------------------------------- the receiver

  ghost predicate ReceiverOk(rx: Receiver, arrivals: seq<OwnedFrame>, delivered: seq<OwnedFrame>) {
    exists blocks :: DeliveryRuns.Inv(rx, arrivals, blocks) && DeliveryRuns.Flatten(blocks) == delivered
  }

  ghost predicate Ordered(s: System) {
    && Integrity(s)
    && LogOk(s.log, s.pub)
    && ReceiverOk(s.rx, s.arrivals, s.delivered)
  }

  lemma DataKeepsReceiver(s: System, f: OwnedFrame, now: nat)
    requires ReceiverOk(s.rx, s.arrivals, s.delivered) && DeliveryRuns.Admissible(s.rx, s.arrivals, f)
    ensures var (rx', r) := Processed(s.rx, f, now);
            ReceiverOk(rx', s.arrivals + [f], s.delivered + DeliveryRuns.FramesOf(r))
  {
    var blocks: seq<DeliveryRuns.Block>
      :| DeliveryRuns.Inv(s.rx, s.arrivals, blocks) && DeliveryRuns.Flatten(blocks) == s.delivered;
    var (rx', r) := Processed(s.rx, f, now);
    DeliveryRuns.ArrivalKeepsInv(s.rx, s.arrivals, blocks, f, now);
    DeliveryRuns.FlattenNext(s.rx, blocks, f, DeliveryRuns.FramesOf(r));
  }

  lemma ResponseKeepsReceiver(s: System, id: nat, f: OwnedFrame)
    requires ReceiverOk(s.rx, s.arrivals, s.delivered)
    requires DeliveryRuns.Harmless(s.rx, id, f) && !Recovery.Completes(s.rx.engine, id, f)
    ensures ReceiverOk(Replayed(s.rx, id, f).0,
                       s.arrivals + DeliveryRuns.Arriving(s.rx, DeliveryRuns.Respond(id, f)), s.delivered)
  {
    var blocks: seq<DeliveryRuns.Block>
      :| DeliveryRuns.Inv(s.rx, s.arrivals, blocks) && DeliveryRuns.Flatten(blocks) == s.delivered;
    DeliveryRuns.ResponseKeepsInv(s.rx, s.arrivals, blocks, id, f);
  }

  lemma EngineKeepsReceiver(rx: Receiver, rx': Receiver, arrivals: seq<OwnedFrame>, delivered: seq<OwnedFrame>)
    requires ReceiverOk(rx, arrivals, delivered)
    requires rx' == rx.(engine := rx'.engine) && rx'.engine.buffer == rx.engine.buffer
    requires rx'.engine.outstanding.Keys <= rx.engine.outstanding.Keys
    ensures ReceiverOk(rx', arrivals + [], delivered + [])
  {
    var blocks: seq<DeliveryRuns.Block>
      :| DeliveryRuns.Inv(rx, arrivals, blocks) && DeliveryRuns.Flatten(blocks) == delivered;
    DeliveryRuns.EngineOnly(rx, rx', arrivals, blocks);
    assert delivered + [] == delivered;
  }

  lemma HandledKeepsReceiver(s: System, p: Packet, now: nat)
    requires ReceiverOk(s.rx, s.arrivals, s.delivered) && CanHandle(s.rx, s.subMaxFrame, p) && InDiscipline(s, p)
    ensures var turn := Handled(s.rx, s.subMaxFrame, p, now);
            ReceiverOk(turn.rx, s.arrivals + Arriving(s, p), s.delivered + turn.delivered)
  {
    hide Codec.DecodeFrame;
    var view, turn := Viewed(s.subMaxFrame, p), Handled(s.rx, s.subMaxFrame, p, now);
    if view.Ok? && view.value.header.messageType == Data && view.value.header.streamId == s.rx.streamId {
      DataKeepsReceiver(s, view.value, now);
    } else if view.Ok? && view.value.header.messageType == MessageType.ReplayResponse
              && view.value.header.streamId == s.rx.streamId && |view.value.payload| >= 8 {
      ResponseKeepsReceiver(s, RequestIdOf(view.value), Recovered(view.value));
      assert s.delivered + [] == s.delivered;
    } else {
      OtherPackets(s, p, now);
      EngineKeepsReceiver(s.rx, turn.rx, s.arrivals, s.delivered);
    }
  }

  /** Anything else delivers nothing and touches at most the outstanding requests. */
  lemma OtherPackets(s: System, p: Packet, now: nat)
    requires CanHandle(s.rx, s.subMaxFrame, p)
    requires var view := Viewed(s.subMaxFrame, p);
             view.Ok? && view.value.header.streamId == s.rx.streamId ==>
               && view.value.header.messageType != Data
               && (view.value.header.messageType == MessageType.ReplayResponse ==> |view.value.payload| < 8)
    ensures var turn := Handled(s.rx, s.subMaxFrame, p, now);
            && turn.delivered == [] && Arriving(s, p) == []
            && turn.rx == s.rx.(engine := turn.rx.engine) && turn.rx.engine.buffer == s.rx.engine.buffer
            && turn.rx.engine.outstanding.Keys <= s.rx.engine.outstanding.Keys
  {
    hide Codec.DecodeFrame;
  }

  lemma TickKeepsReceiver(s: System, now: nat, s': System)
    requires ReceiverOk(s.rx, s.arrivals, s.delivered) && Step(s, Tick(now), s')
    ensures ReceiverOk(s'.rx, s'.arrivals, s'.delivered)
  {
    var turn :| Ticked(s.rx, s.subMaxFrame, now, turn) && s' == s.(rx := turn.rx, net := s.net + All(turn.packets));
    var r :| Recovery.Swept(s.rx.engine, now, turn.rx.engine, r) && turn.rx == s.rx.(engine := turn.rx.engine);
    DeliveryRuns.SweepKeepsBuffer(s.rx.engine, now, turn.rx.engine, r);
    EngineKeepsReceiver(s.rx, turn.rx, s.arrivals, s.delivered);
    assert s.arrivals + [] == s.arrivals && s.delivered + [] == s.delivered;
  }

  lemma {:induction false} OrderlyRunIsOrdered(run: Run)
    requires Valid(run) && Orderly(run) && Now(run).rx.mode == ReliableOrdered
    ensures Ordered(Now(run))
  {
    RunKeepsIntegrity(run);
    match run
    case Start(s) =>
      assert DeliveryRuns.Inv(s.rx, [], []);
      assert DeliveryRuns.Flatten([]) == [];
    case Then(before, ev, s') =>
      ModeIsFixed(Now(before), ev, s');
      OrderlyRunIsOrdered(before);
      StepKeepsReceiver(Now(before), ev, s');
      StepKeepsLog(Now(before), ev, s');
  }

  lemma StepKeepsReceiver(s: System, ev: Event, s': System)
    requires ReceiverOk(s.rx, s.arrivals, s.delivered) && Step(s, ev, s')
    requires ev.ToSubscriber? ==> InDiscipline(s, ev.packet)
    ensures ReceiverOk(s'.rx, s'.arrivals, s'.delivered)
  {
    match ev
    case ToSubscriber(p, now) => HandledKeepsReceiver(s, p, now);
    case Tick(now) => TickKeepsReceiver(s, now, s');
    case _ =>
  }

  lemma StepKeepsLog(s: System, ev: Event, s': System)
    requires LogOk(s.log, s.pub) && Step(s, ev, s')
    requires ev.Restart? ==> Unused(ev.publisherId, s.log)
    ensures LogOk(s'.log, s'.pub)
  {
    match ev
    case Publish(payload, ts) =>
      PublishKeepsLog(s.log, s.pub, NextFrame(s.pub, payload, ts));
      assert PublishedBy(s'.log, s'.pub.publisherId) == PublishedBy(s'.log, s.pub.publisherId);
    case Restart(id) => RestartKeepsLog(s.log, s.pub, id);
    case _ => TickChangesReceiverOnly(s, ev, s');
  }

  lemma TickChangesReceiverOnly(s: System, ev: Event, s': System)
    requires Step(s, ev, s')
    ensures ev.Tick? ==> s' == s.(rx := s'.rx, net := s'.net) && s'.rx == s.rx.(engine := s'.rx.engine)
  {
    if ev.Tick? {
      var turn :| Ticked(s.rx, s.subMaxFrame, ev.now, turn) && s' == s.(rx := turn.rx, net := s.net + All(turn.packets));
    }
  }

  lemma ModeIsFixed(s: System, ev: Event, s': System)
    requires Step(s, ev, s')
    ensures s'.rx.mode == s.rx.mode
  {
    hide Processed, Codec.DecodeFrame;
    TickChangesReceiverOnly(s, ev, s');
    if ev.ToSubscriber? {
      var view := Viewed(s.subMaxFrame, ev.packet);
      if view.Ok? && view.value.header.messageType == Data && view.value.header.streamId == s.rx.streamId {
        ProcessedKeepsMode(s.rx, view.value, ev.now);
      }
    }
  }

  lemma ProcessedKeepsMode(rx: Receiver, f: OwnedFrame, now: nat)
    requires CanProcess(rx, f)
    ensures Processed(rx, f, now).0.mode == rx.mode
  {}

  // ---------------------------------------------------------------- main results

  /** The block is, message for message, a prefix of what was published under its identity. */
  ghost predicate IsPrefix(b: DeliveryRuns.Block, log: seq<OwnedFrame>) {
    var published := PublishedBy(log, b.publisherId);
    && |b.frames| <= |published|
    && forall i :: 0 <= i < |b.frames| ==> SameMessage(b.frames[i], published[i])
  }

  ghost predicate PrefixBlocks(blocks: seq<DeliveryRuns.Block>, log: seq<OwnedFrame>) {
    && (forall i :: 0 <= i < |blocks| ==> IsPrefix(blocks[i], log))
    && (forall i, j :: 0 <= i < j < |blocks| ==> blocks[i].publisherId != blocks[j].publisherId)
  }

  ghost predicate AllArrived(b: DeliveryRuns.Block, arrivals: seq<OwnedFrame>) {
    forall n :: 1 <= n <= |b.frames| ==> n in DeliveryRuns.Sequences(arrivals, b.publisherId)
  }

  /** Everyone heard has a block, and it ends where the sequence after it never arrived, save in a reply set aside. */
  ghost predicate ArrivedBlocks(blocks: seq<DeliveryRuns.Block>, arrivals: seq<OwnedFrame>,
                                reached: seq<OwnedFrame>, aside: seq<OwnedFrame>) {
    && (forall f :: f in arrivals ==> DeliveryRuns.HasBlock(blocks, f.header.publisherId))
    && (forall i :: 0 <= i < |blocks| ==> AllArrived(blocks[i], arrivals))
    && DeliveryRuns.Longest(blocks, arrivals)
    && DeliveryReach.LongestBut(blocks, reached, aside)
  }

  lemma LongestButAside(run: Run, blocks: seq<DeliveryRuns.Block>)
    requires Valid(run) && DeliveryRuns.Longest(blocks, Now(run).arrivals)
    ensures DeliveryReach.LongestBut(blocks, Reached(run), SetAside(run))
  {
    hide Valid;
    forall i | 0 <= i < |blocks|
      ensures var b := blocks[i];
              |b.frames| + 1 in DeliveryRuns.Sequences(Reached(run), b.publisherId) ==>
                |b.frames| + 1 in DeliveryRuns.Sequences(SetAside(run), b.publisherId)
    {
      ReachedSplits(run, blocks[i].publisherId);
    }
  }

  /**
   With restarts: what the application sees is one block per identity, each a prefix of what was published under it, in
   order, once each and with the published contents, and the longest that has reached the subscriber, save for replies
   that came at or below the cursor.
   */
  lemma DeliveredIsPrefixPerIdentity(run: Run)
    requires Valid(run) && Orderly(run) && Now(run).rx.mode == ReliableOrdered
    ensures exists blocks ::
              && DeliveryRuns.Flatten(blocks) == Now(run).delivered
              && PrefixBlocks(blocks, Now(run).log)
              && ArrivedBlocks(blocks, Now(run).arrivals, Reached(run), SetAside(run))
  {
    var s := Now(run);
    OrderlyRunIsOrdered(run);
    var blocks: seq<DeliveryRuns.Block>
      :| DeliveryRuns.Inv(s.rx, s.arrivals, blocks) && DeliveryRuns.Flatten(blocks) == s.delivered;
    forall i | 0 <= i < |blocks|
      ensures IsPrefix(blocks[i], s.log)
    {
      NumberedIsPrefix(blocks[i], s.arrivals, s.log, s.pub);
    }
    forall i | 0 <= i < |blocks|
      ensures AllArrived(blocks[i], s.arrivals)
    {
      NumberedHasArrived(blocks[i], s.arrivals);
    }
    LongestButAside(run, blocks);
    assert PrefixBlocks(blocks, s.log) && ArrivedBlocks(blocks, s.arrivals, Reached(run), SetAside(run));
  }

  lemma NumberedHasArrived(b: DeliveryRuns.Block, arrivals: seq<OwnedFrame>)
    requires DeliveryRuns.Numbered(b.frames, b.publisherId, arrivals)
    ensures AllArrived(b, arrivals)
  {
    forall n | 1 <= n <= |b.frames|
      ensures n in DeliveryRuns.Sequences(arrivals, b.publisherId)
    {
      assert b.frames[n - 1] in arrivals;
    }
  }

  lemma NumberedIsPrefix(b: DeliveryRuns.Block, arrivals: seq<OwnedFrame>, log: seq<OwnedFrame>, pub: Publisher)
    requires LogOk(log, pub) && AllGenuine(arrivals, log)
    requires DeliveryRuns.Numbered(b.frames, b.publisherId, arrivals)
    ensures IsPrefix(b, log)
  {
    var published := PublishedBy(log, b.publisherId);
    assert Numbers(published);
    PublishedByMeaning(log, b.publisherId);
    forall i | 0 <= i < |b.frames|
      ensures i < |published| && SameMessage(b.frames[i], published[i])
    {
      assert Genuine(b.frames[i], log);
      var f :| f in log && SameMessage(b.frames[i], f);
      assert f in published;
      var j :| 0 <= j < |published| && published[j] == f;
    }
    if |b.frames| > 0 {
      var last := b.frames[|b.frames| - 1];
    }
  }

  /** No restart, and no response that completes a request gets through. */
  ghost predicate Live(run: Run) {
    run.Then? ==>
      && Live(run.before)
      && !run.event.Restart?
      && (run.event.ToSubscriber? ==> !CompletesReplay(Now(run.before), run.event.packet))
  }

  ghost predicate OneIdentity(log: seq<OwnedFrame>, id: u64) {
    forall f :: f in log ==> f.header.publisherId == id
  }

  lemma PublishedStep(log: seq<OwnedFrame>, id: u64)
    requires |log| > 0 && log[|log| - 1].header.publisherId == id
    ensures PublishedBy(log, id) == PublishedBy(log[..|log| - 1], id) + [log[|log| - 1]]
  {}

  lemma {:induction false} AllPublishedBy(log: seq<OwnedFrame>, id: u64)
    requires OneIdentity(log, id)
    ensures PublishedBy(log, id) == log
  {
    if |log| != 0 {
      var init, last := log[..|log| - 1], log[|log| - 1];
      assert last in log && OneIdentity(init, id);
      PublishedStep(log, id);
      hide OneIdentity, PublishedBy;
      AllPublishedBy(init, id);
      assert log == init + [last];
    }
  }

  lemma ArrivalsFromPublisher(s: System)
    requires Integrity(s) && OneIdentity(s.log, s.pub.publisherId)
    ensures DeliveryRuns.OnlyFrom(s.arrivals, s.pub.publisherId)
  {
    forall d | d in s.arrivals
      ensures d.header.publisherId == s.pub.publisherId && d.header.sequence >= 1
    {
      assert Genuine(d, s.log);
    }
  }

  /** With one identity everything genuine is in discipline, short of completing a replay. */
  lemma OneIdentityIsInDiscipline(s: System, p: Packet)
    requires Ordered(s) && OneIdentity(s.log, s.pub.publisherId) && p in s.net && !CompletesReplay(s, p)
    ensures InDiscipline(s, p)
  {
    hide Codec.DecodeFrame;
    ArrivalsFromPublisher(s);
    var blocks: seq<DeliveryRuns.Block>
      :| DeliveryRuns.Inv(s.rx, s.arrivals, blocks) && DeliveryRuns.Flatten(blocks) == s.delivered;
    if s.rx.tracker.active.Some? {
      assert DeliveryRuns.Heard(s.arrivals, blocks[|blocks| - 1].publisherId);
    }
    if Viewed(s.subMaxFrame, p).Ok? {
      AcceptedIsGenuine(s, p);
    }
  }

  lemma {:induction false} LiveRunIsOrderly(run: Run)
    requires Valid(run) && Live(run) && Now(run).rx.mode == ReliableOrdered
    ensures Orderly(run) && OneIdentity(Now(run).log, Now(run).pub.publisherId)
  {
    if run.Then? {
      var s := Now(run.before);
      ModeIsFixed(s, run.event, run.system);
      LiveRunIsOrderly(run.before);
      OrderlyRunIsOrdered(run.before);
      TickChangesReceiverOnly(s, run.event, run.system);
      if run.event.ToSubscriber? {
        OneIdentityIsInDiscipline(s, run.event.packet);
      }
    }
  }

  /**
   Without restarts the application sees a prefix of what was published, all of which has reached the subscriber, and
   it is the longest such prefix exactly when nothing is buffered under the awaited sequence: a reply that brings the
   awaited frame is withheld. Measured without replies at or below the cursor it is always the longest.
   */
  lemma DeliveredIsPrefixOfPublished(run: Run)
    requires Valid(run) && Live(run) && Now(run).rx.mode == ReliableOrdered
    ensures var s := Now(run);
            var arrived := DeliveryRuns.Sequences(s.arrivals, s.pub.publisherId);
            && |s.delivered| <= |s.log|
            && (forall i :: 0 <= i < |s.delivered| ==> SameMessage(s.delivered[i], s.log[i]))
            && (forall n :: 1 <= n <= |s.delivered| ==> n in arrived)
            && |s.delivered| + 1 !in arrived
    ensures var s := Now(run);
            var reached := DeliveryRuns.Sequences(Reached(run), s.pub.publisherId);
            && |s.delivered| <= |Publications(run)|
            && (forall i :: 0 <= i < |s.delivered| ==> Carries(s.delivered[i], Publications(run)[i]))
            && (forall n :: 1 <= n <= |s.delivered| ==> n in reached)
            && (|s.delivered| + 1 !in reached <==> s.rx.tracker.expected !in s.rx.engine.buffer)
  {
    hide *;
    LiveRunIsOrderly(run);
    OrderlyRunIsOrdered(run);
    OrderedIsPrefix(Now(run));
    ReachedSplits(run, Now(run).pub.publisherId);
    LogIsPublications(run);
    CarriedPrefix(Now(run).delivered, Now(run).log, Publications(run));
    LiveRunHolds(run);
    HoldsAtCursor(Now(run).rx, DeliveryRuns.Sequences(Reached(run), Now(run).pub.publisherId));
  }

  lemma CarriedPrefix(delivered: seq<OwnedFrame>, log: seq<OwnedFrame>, ms: seq<Message>)
    requires CarriesAll(log, ms) && |delivered| <= |log|
    requires forall i :: 0 <= i < |delivered| ==> SameMessage(delivered[i], log[i])
    ensures |delivered| <= |ms| && forall i :: 0 <= i < |delivered| ==> Carries(delivered[i], ms[i])
  {}

  lemma HoldsAtCursor(rx: Receiver, reached: set<nat>)
    requires DeliveryReach.HoldsReached(rx, reached)
    ensures rx.tracker.expected in rx.engine.buffer <==> rx.tracker.expected in reached
  {}

  lemma {:induction false} LiveRunHolds(run: Run)
    requires Valid(run) && Live(run) && Now(run).rx.mode == ReliableOrdered
    ensures DeliveryReach.HoldsReached(Now(run).rx, DeliveryRuns.Sequences(Reached(run), Now(run).pub.publisherId))
  {
    if run.Then? {
      var s, ev := Now(run.before), run.event;
      ModeIsFixed(s, ev, run.system);
      LiveRunHolds(run.before);
      LiveRunIsOrderly(run.before);
      OrderlyRunIsOrdered(run.before);
      DeliveryReach.SequencesAppend(Reached(run.before), NewlyReached(s, ev), s.pub.publisherId);
      LiveStepHolds(s, ev, run.system, DeliveryRuns.Sequences(Reached(run.before), s.pub.publisherId));
    }
  }

  lemma LiveStepHolds(s: System, ev: Event, s': System, reached: set<nat>)
    requires Step(s, ev, s') && !ev.Restart? && (ev.ToSubscriber? ==> !CompletesReplay(s, ev.packet))
    requires Ordered(s) && OneIdentity(s.log, s.pub.publisherId) && DeliveryReach.HoldsReached(s.rx, reached)
    ensures s'.pub.publisherId == s.pub.publisherId
    ensures DeliveryReach.HoldsReached(s'.rx, reached + DeliveryRuns.Sequences(NewlyReached(s, ev), s.pub.publisherId))
  {
    hide CallFor, Handled, CanHandle, CompletesReplay, Ordered, OneIdentity, DeliveryReach.HoldsReached,
         DeliveryReach.Reaching;
    if ev.ToSubscriber? && CallFor(s, ev.packet).Some? {
      HandledHolds(s, ev.packet, ev.now, reached);
    } else {
      QuietStep(s, ev, s');
      DeliveryReach.NoArrivals(s.pub.publisherId);
      DeliveryReach.SameHolds(s.rx, s'.rx, reached);
    }
  }

  /** A step that brings the receiver no frame leaves its cursor and buffer alone. */
  lemma QuietStep(s: System, ev: Event, s': System)
    requires Step(s, ev, s') && !ev.Restart? && (ev.ToSubscriber? ==> CallFor(s, ev.packet).None?)
    ensures s'.rx.engine.buffer == s.rx.engine.buffer && s'.rx.tracker == s.rx.tracker
    ensures s'.pub.publisherId == s.pub.publisherId
  {
    match ev
    case ToSubscriber(p, now) => QuietPacket(s, p, now);
    case Tick(now) =>
      var turn :| Ticked(s.rx, s.subMaxFrame, now, turn) && s' == s.(rx := turn.rx, net := s.net + All(turn.packets));
    case _ =>
  }

  lemma QuietPacket(s: System, p: Packet, now: nat)
    requires CanHandle(s.rx, s.subMaxFrame, p) && CallFor(s, p).None?
    ensures var turn := Handled(s.rx, s.subMaxFrame, p, now);
            turn.rx.engine.buffer == s.rx.engine.buffer && turn.rx.tracker == s.rx.tracker
  {
    hide Codec.DecodeFrame, Processed;
    OtherPackets(s, p, now);
  }

  lemma HandledHolds(s: System, packet: Packet, now: nat, reached: set<nat>)
    requires Ordered(s) && OneIdentity(s.log, s.pub.publisherId) && packet in s.net
    requires CanHandle(s.rx, s.subMaxFrame, packet) && !CompletesReplay(s, packet)
    requires CallFor(s, packet).Some? && DeliveryReach.HoldsReached(s.rx, reached)
    ensures DeliveryReach.HoldsReached(
              Handled(s.rx, s.subMaxFrame, packet, now).rx,
              reached + DeliveryRuns.Sequences(DeliveryReach.Reaching(s.rx, CallFor(s, packet).value),
                                               s.pub.publisherId))
  {
    AcceptedIsGenuine(s, packet);
    hide Codec.DecodeFrame, Ordered, DeliveryReach.HoldsReached, Processed, DeliveryRuns.Sequences;
    var view := Viewed(s.subMaxFrame, packet).value;
    if view.header.messageType == Data {
      DataHolds(s, view, now, reached);
    } else {
      ReplyHolds(s, RequestIdOf(view), Recovered(view), reached);
    }
  }

  lemma DataHolds(s: System, f: OwnedFrame, now: nat, reached: set<nat>)
    requires Ordered(s) && OneIdentity(s.log, s.pub.publisherId)
    requires Genuine(f, s.log) && f.header.sequence >= 1 && DeliveryReach.HoldsReached(s.rx, reached)
    ensures DeliveryReach.HoldsReached(Processed(s.rx, f, now).0,
                                       reached + DeliveryRuns.Sequences([f], s.pub.publisherId))
  {
    ActiveIsPublisher(s);
    assert DeliveryRuns.Sequences([f], s.pub.publisherId) == {f.header.sequence as nat};
    hide Integrity, DeliveryReach.HoldsReached, Processed, DeliveryRuns.Inv;
    var blocks: seq<DeliveryRuns.Block>
      :| DeliveryRuns.Inv(s.rx, s.arrivals, blocks) && DeliveryRuns.Flatten(blocks) == s.delivered;
    DeliveryReach.ArrivalHolds(s.rx, s.arrivals, blocks, f, now, reached);
  }

  lemma ReplyHolds(s: System, id: nat, f: OwnedFrame, reached: set<nat>)
    requires OneIdentity(s.log, s.pub.publisherId) && Genuine(f, s.log)
    requires DeliveryReach.HoldsReached(s.rx, reached) && !Recovery.Completes(s.rx.engine, id, f)
    ensures DeliveryReach.HoldsReached(
              Replayed(s.rx, id, f).0,
              reached + DeliveryRuns.Sequences(DeliveryReach.Reaching(s.rx, DeliveryRuns.Respond(id, f)),
                                               s.pub.publisherId))
  {
    hide DeliveryReach.HoldsReached;
    DeliveryReach.ResponseHolds(s.rx, id, f, reached);
    DeliveryReach.NoArrivals(s.pub.publisherId);
    assert DeliveryRuns.Sequences([f], s.pub.publisherId) == {f.header.sequence as nat};
  }

  lemma ActiveIsPublisher(s: System)
    requires Ordered(s) && OneIdentity(s.log, s.pub.publisherId)
    ensures s.rx.tracker.active == None || s.rx.tracker.active == Some(s.pub.publisherId)
  {
    ArrivalsFromPublisher(s);
    var blocks: seq<DeliveryRuns.Block>
      :| DeliveryRuns.Inv(s.rx, s.arrivals, blocks) && DeliveryRuns.Flatten(blocks) == s.delivered;
    if s.rx.tracker.active.Some? {
      assert DeliveryRuns.Heard(s.arrivals, blocks[|blocks| - 1].publisherId);
    }
  }

  lemma OrderedIsPrefix(s: System)
    requires Ordered(s) && OneIdentity(s.log, s.pub.publisherId)
    ensures var arrived := DeliveryRuns.Sequences(s.arrivals, s.pub.publisherId);
            && |s.delivered| <= |s.log|
            && (forall i :: 0 <= i < |s.delivered| ==> SameMessage(s.delivered[i], s.log[i]))
            && (forall n :: 1 <= n <= |s.delivered| ==> n in arrived)
            && |s.delivered| + 1 !in arrived
            && |s.delivered| == s.rx.tracker.expected - 1
  {
    var p := s.pub.publisherId;
    ArrivalsFromPublisher(s);
    DeliveredSoFar(s, p);
    NumberedIsPrefix(DeliveryRuns.Block(p, s.delivered), s.arrivals, s.log, s.pub);
    AllPublishedBy(s.log, p);
    hide Ordered, OneIdentity, PublishedBy, SameMessage, DeliveryRuns.Numbered, DeliveryRuns.Sequences;
  }

  lemma DeliveredSoFar(s: System, p: u64)
    requires ReceiverOk(s.rx, s.arrivals, s.delivered) && DeliveryRuns.OnlyFrom(s.arrivals, p)
    ensures DeliveryRuns.Numbered(s.delivered, p, s.arrivals)
    ensures |s.delivered| == s.rx.tracker.expected - 1
    ensures DeliveryRuns.Cursor(s.rx.tracker.expected, s.rx.engine.buffer, DeliveryRuns.Sequences(s.arrivals, p))
  {
    var blocks: seq<DeliveryRuns.Block>
      :| DeliveryRuns.Inv(s.rx, s.arrivals, blocks) && DeliveryRuns.Flatten(blocks) == s.delivered;
    DeliveredIsNumbered(s.rx, s.arrivals, blocks, p);
  }

  lemma DeliveredIsNumbered(rx: Receiver, arrivals: seq<OwnedFrame>, blocks: seq<DeliveryRuns.Block>, p: u64)
    requires DeliveryRuns.Inv(rx, arrivals, blocks) && DeliveryRuns.OnlyFrom(arrivals, p)
    ensures var delivered := DeliveryRuns.Flatten(blocks);
            && DeliveryRuns.Numbered(delivered, p, arrivals)
            && |delivered| == rx.tracker.expected - 1
            && DeliveryRuns.Cursor(rx.tracker.expected, rx.engine.buffer, DeliveryRuns.Sequences(arrivals, p))
  {
    if rx.tracker.active.Some? {
      DeliveryRuns.OneBlock(blocks, arrivals, p);
      DeliveryRuns.FlattenOne(blocks);
      assert DeliveryRuns.Heard(arrivals, blocks[0].publisherId);
    }
  }

  /**
   When a replay completes in such a run, the application still sees 1, 2, 3, ... exactly when everything then
   buffered starts at the awaited sequence and has no hole.
   */
  lemma CompletionKeepsOrderExactly(run: Run, p: Packet, now: nat)
    requires Valid(run) && Live(run) && Now(run).rx.mode == ReliableOrdered
    requires p in Now(run).net && CanHandle(Now(run).rx, Now(run).subMaxFrame, p) && CompletesReplay(Now(run), p)
    ensures var s := Now(run);
            var f := Recovered(Viewed(s.subMaxFrame, p).value);
            var delivered := Handled(s.rx, s.subMaxFrame, p, now).delivered;
            DeliveryRuns.InSequence(s.delivered + delivered, s.pub.publisherId) <==>
            DeliveryLimits.FillsFrom(s.rx.engine.buffer.Keys + {f.header.sequence as nat}, s.rx.tracker.expected)
  {
    hide Codec.DecodeFrame, LogOk, ReceiverOk, DeliveryRuns.InSequence, DeliveryLimits.FillsFrom;
    var s := Now(run);
    LiveRunIsOrderly(run);
    OrderlyRunIsOrdered(run);
    var view := Viewed(s.subMaxFrame, p).value;
    AcceptedIsGenuine(s, p);
    CompletedOrderExactly(s, RequestIdOf(view), Recovered(view));
  }

  lemma CompletedOrderExactly(s: System, id: nat, f: OwnedFrame)
    requires Ordered(s) && OneIdentity(s.log, s.pub.publisherId)
    requires Genuine(f, s.log) && Recovery.Completes(s.rx.engine, id, f)
    ensures DeliveryRuns.InSequence(s.delivered + Replayed(s.rx, id, f).1, s.pub.publisherId) <==>
            DeliveryLimits.FillsFrom(s.rx.engine.buffer.Keys + {f.header.sequence as nat}, s.rx.tracker.expected)
  {
    var blocks := SoleBlock(s, id);
    BufferFromPublisher(s);
    assert f.header.publisherId == s.pub.publisherId;
    hide *;
    DeliveryLimits.ReplayKeepsOrderExactly(s.rx, s.arrivals, blocks, s.pub.publisherId, id, f);
  }

  /** With a request outstanding something has arrived, so there is exactly one block: all that was delivered. */
  lemma SoleBlock(s: System, id: nat) returns (blocks: seq<DeliveryRuns.Block>)
    requires Ordered(s) && OneIdentity(s.log, s.pub.publisherId) && id in s.rx.engine.outstanding
    ensures DeliveryRuns.Inv(s.rx, s.arrivals, blocks)
    ensures |blocks| == 1 && blocks[0].frames == s.delivered && s.rx.tracker.active == Some(s.pub.publisherId)
  {
    ArrivalsFromPublisher(s);
    blocks :| DeliveryRuns.Inv(s.rx, s.arrivals, blocks) && DeliveryRuns.Flatten(blocks) == s.delivered;
    DeliveryRuns.OneBlock(blocks, s.arrivals, s.pub.publisherId);
    assert DeliveryRuns.Heard(s.arrivals, blocks[0].publisherId);
    DeliveryRuns.FlattenOne(blocks);
  }

  lemma BufferFromPublisher(s: System)
    requires Integrity(s) && OneIdentity(s.log, s.pub.publisherId)
    ensures forall k :: k in s.rx.engine.buffer ==> s.rx.engine.buffer[k].header.publisherId == s.pub.publisherId
  {
    forall k | k in s.rx.engine.buffer
      ensures s.rx.engine.buffer[k].header.publisherId == s.pub.publisherId
    {
      assert Genuine(s.rx.engine.buffer[k], s.log);
    }
  }

  // ---------------------------------------------------------------- the replay service

  /** The frames published under the publisher's current identity. */
  function Current(run: Run): seq<OwnedFrame> {
    match run
    case Start(_) => []
    case Then(before, ev, _) =>
      match ev
      case Publish(payload, ts) =>
        if CanPublish(Now(before).pub) then Current(before) + [NextFrame(Now(before).pub, payload, ts)]
        else Current(before)
      case Restart(_) => []
      case _ => Current(before)
  }

  /** Frame i is sequence i + 1 of the publisher's current identity. */
  ghost predicate LogNumbered(log: seq<OwnedFrame>, pub: Publisher) {
    && |log| == pub.nextSequence - 1
    && forall i :: 0 <= i < |log| ==>
         log[i].header.sequence == i + 1 && log[i].header.publisherId == pub.publisherId
  }

  ghost predicate PublisherOk(pub: Publisher, current: seq<OwnedFrame>) {
    && |pub.ring.slots| > 0
    && pub.ring == RetentionRing.After(|pub.ring.slots|, current)
    && LogNumbered(current, pub)
  }

  lemma PublishKeepsRing(pub: Publisher, current: seq<OwnedFrame>, payload: seq<byte>, ts: u64)
    requires PublisherOk(pub, current) && CanPublish(pub) && pub.nextSequence >= 1
    ensures PublisherOk(Published(pub, payload, ts).0, current + [NextFrame(pub, payload, ts)])
  {
    var more := current + [NextFrame(pub, payload, ts)];
    assert more[..|more| - 1] == current;
  }

  lemma {:induction false} RingHoldsCurrent(run: Run)
    requires Valid(run)
    ensures PublisherOk(Now(run).pub, Current(run))
  {
    match run
    case Start(s) =>
    case Then(before, ev, s') =>
      RingHoldsCurrent(before);
      var current := Current(run);
      if ev.Publish? {
        PublishKeepsRing(Now(before).pub, Current(before), ev.payload, ev.timestampNs);
      } else {
        TickChangesReceiverOnly(Now(before), ev, s');
      }
  }

  /** The frames in the ring's history carry what was published under the current identity. */
  lemma {:induction false} CurrentCarries(run: Run)
    requires Valid(run)
    ensures CarriesAll(Current(run), Recent(run))
  {
    if run.Then? {
      CurrentCarries(run.before);
      PublisherCounts(run.before);
      if run.event.Publish? {
        NextFrameCarries(Now(run.before).pub, run.event.payload, run.event.timestampNs);
      }
    }
  }

  /** The oldest sequence still retained after publishing 1..newest. */
  function Oldest(newest: nat, capacity: nat): nat {
    if newest > capacity then newest - capacity + 1 else 1
  }

  /** A replay is served exactly when the range lies in the retention window, and then with the published frames. */
  lemma ReplayServesWindow(run: Run, low: nat, high: nat)
    requires Valid(run) && low <= high
    ensures |Now(run).pub.ring.slots| > 0
    ensures var pub, current := Now(run).pub, Current(run);
            var range := RetentionRing.Range(pub.ring, low, high);
            && (range.Retained? <==> Oldest(|current|, |pub.ring.slots|) <= low && high <= |current|)
            && (range.Retained? ==> 1 <= low && high <= |current| && range.frames == current[low - 1..high])
            && CarriesAll(current, Recent(run))
  {
    CurrentCarries(run);
    var pub, current := Now(run).pub, Current(run);
    var capacity := |pub.ring.slots|;
    RingHoldsCurrent(run);
    if |current| > 0 {
      RetentionRing.ConsecutivePushes(capacity, current, low, high);
      if RetentionRing.Range(pub.ring, low, high).Retained? {
        RetentionRing.RangeServed(capacity, current, low, high);
        ServedFrames(current, RetentionRing.Range(pub.ring, low, high).frames, low, high, pub);
      }
    } else {
      RetentionRing.CollectMeaning(pub.ring, low, high);
    }
  }

  lemma ServedFrames(current: seq<OwnedFrame>, fs: seq<OwnedFrame>, low: nat, high: nat, pub: Publisher)
    requires LogNumbered(current, pub) && 1 <= low <= high <= |current| && |fs| == high - low + 1
    requires forall i :: 0 <= i < |fs| ==> fs[i].header.sequence == low + i
                                           && Some(fs[i]) == RetentionRing.LastPushed(current, low + i)
    ensures fs == current[low - 1..high]
  {
    forall i | 0 <= i < |fs|
      ensures fs[i] == current[low - 1..high][i]
    {
      RetentionRing.LastPushedMeaning(current, low + i);
      var j :| 0 <= j < |current| && current[j] == fs[i];
      assert current[low - 1..high][i] == current[low - 1 + i];
    }
  }

  /** The request id survives at the front of the response payload. */
  lemma RequestIdRestored(id: u64, payload: seq<byte>)
    ensures var all := BigEndian.Write(8, id) + payload;
            BigEndian.ReadU64(all[0..8]) == id && all[8..] == payload
  {
    var all := BigEndian.Write(8, id) + payload;
    assert all[0..8] == BigEndian.Write(8, id);
    BigEndian.RoundTrip64(id);
  }

  /**
   A response fits exactly when header, request id and payload stay within the frame limit and the send buffer;
   encoded, decoded and stripped it restores the retained frame's identity, timestamp and payload.
   */
  lemma ReplayResponseRoundTrip(maxFrame: nat, subMaxFrame: nat, id: u64, f: OwnedFrame)
    requires IsData(f)
    ensures var packets := Sent(Checked(maxFrame), ResponseFrame(id, f), SEND_BUFFER);
            && (packets != [] <==> 56 + |f.payload| <= maxFrame && 56 + |f.payload| <= SEND_BUFFER)
            && (packets != [] && |packets[0]| <= subMaxFrame ==>
                  var view := Viewed(subMaxFrame, packets[0]);
                  view.Ok? && |view.value.payload| >= 8 && RequestIdOf(view.value) == id
                  && SameMessage(Recovered(view.value), f))
  {
    var g := ResponseFrame(id, f);
    var packets := Sent(Checked(maxFrame), g, SEND_BUFFER);
    RequestIdRestored(id, f.payload);
    if packets != [] && |packets[0]| <= subMaxFrame {
      var p := packets[0];
      assert Codec.EncodeFrame(Checked(subMaxFrame), g, SEND_BUFFER) == Ok(p);
      ResponseWellFormed(id, f);
      Codec.DecodeEncode(Checked(subMaxFrame), g, SEND_BUFFER);
    }
  }

  lemma ResponseWellFormed(id: u64, f: OwnedFrame)
    requires |f.payload| < 0x1_0000
    ensures Codec.WellFormed(ResponseFrame(id, f))
  {}

  /** A well-formed control frame of 72 bytes passes any receive buffer that holds it. */
  lemma ControlFrameViewed(g: OwnedFrame, maxFrame: nat)
    requires Codec.WellFormed(g) && g.extensionBytes == [] && |g.payload| == REPLAY_PAYLOAD_SIZE && 72 <= maxFrame
    ensures Sent(Checked(maxFrame), g, SEND_BUFFER) == [Codec.Bytes(Codec.Filled(g))]
    ensures Viewed(maxFrame, Codec.Bytes(Codec.Filled(g))) == Ok(Codec.Filled(g))
  {
    Codec.DecodeEncode(Checked(maxFrame), g, SEND_BUFFER);
  }

  lemma RequestWellFormed(streamId: u64, q: RequestPayload)
    requires FitWords(q.requestId, q.fromSequence, q.toSequence) && q.fromSequence <= q.toSequence
    ensures Codec.WellFormed(RequestFrame(streamId, q))
  {
    WordsRoundTrip(q.requestId, q.fromSequence, q.toSequence);
  }

  /** The request the subscriber meant is the request the publisher serves. */
  lemma RequestReachesPublisher(streamId: u64, subMaxFrame: nat, pub: Publisher, q: RequestPayload)
    requires FitWords(q.requestId, q.fromSequence, q.toSequence) && q.fromSequence <= q.toSequence
    requires 72 <= subMaxFrame && 72 <= pub.maxFrame && |pub.ring.slots| > 0
    ensures |SentRequest(streamId, subMaxFrame, q)| == 1
    ensures Replies(pub, SentRequest(streamId, subMaxFrame, q)[0]) == Served(pub, q)
  {
    var g := RequestFrame(streamId, q);
    RequestWellFormed(streamId, q);
    ControlFrameViewed(g, subMaxFrame);
    ControlFrameViewed(g, pub.maxFrame);
    RequestRoundTrip(q);
  }

  /** A refused range reaches the subscriber as it was refused: that request is given up, no other. */
  lemma RefusalReachesSubscriber(pub: Publisher, q: RequestPayload, rx: Receiver, subMaxFrame: nat, now: nat)
    requires |pub.ring.slots| > 0 && 72 <= subMaxFrame && 72 <= pub.maxFrame
    requires RetentionRing.Range(pub.ring, q.fromSequence, q.toSequence).Unavailable?
    requires var Unavailable(a, b) := RetentionRing.Range(pub.ring, q.fromSequence, q.toSequence);
             FitWords(q.requestId, a, b)
    ensures |Served(pub, q)| == 1
    ensures var p := Served(pub, q)[0];
            && CanHandle(rx, subMaxFrame, p)
            && var turn := Handled(rx, subMaxFrame, p, now);
               && turn.delivered == [] && turn.packets == []
               && turn.rx == rx.(engine := rx.engine.(outstanding := rx.engine.outstanding - {q.requestId},
                                                      mode := Recovery.RecoveryFailed))
  {
    hide Codec.DecodeFrame, Codec.EncodeFrame, Codec.WellFormed, RetentionRing.Range;
    var Unavailable(a, b) := RetentionRing.Range(pub.ring, q.fromSequence, q.toSequence);
    var u := UnavailablePayload(q.requestId, a, b);
    var g := UnavailableFrame(pub, u);
    UnavailableWellFormed(pub, u);
    ControlFrameViewed(g, pub.maxFrame);
    ControlFrameViewed(g, subMaxFrame);
    UnavailableRoundTrip(u);
    hide Sent, Viewed, Dispatched, Codec.Bytes;
    assert Served(pub, q) == [Codec.Bytes(Codec.Filled(g))];
    NoticeDispatched(rx, subMaxFrame, Codec.Filled(g), u, now);
  }

  lemma NoticeDispatched(rx: Receiver, maxFrame: nat, view: OwnedFrame, u: UnavailablePayload, now: nat)
    requires view.header.messageType == MessageType.ReplayUnavailable && DecodeUnavailable(view.payload) == Ok(u)
    ensures Dispatched(rx, maxFrame, view, now)
         == Turn(rx.(engine := rx.engine.(outstanding := rx.engine.outstanding - {u.requestId},
                                          mode := Recovery.RecoveryFailed)),
                 [], [])
  {
    hide DataTurn, DecodeUnavailable, Replayed;
  }

  lemma UnavailableWellFormed(pub: Publisher, u: UnavailablePayload)
    ensures Codec.WellFormed(UnavailableFrame(pub, u))
  {}
}
