/**
 Publisher and subscriber over a network that loses, duplicates, reorders and corrupts datagrams. The network
 is the set of all datagrams ever sent: any of them may arrive any number of times, at any moment, or never.
 */
module Protocol {
  import opened Outcomes
  import opened Frames
  import opened ReplayPayloads
  import opened Delivery
  import opened Transport
  import Codec
  import DeliveryRuns
  import Headers
  import Recovery
  import RetentionRing

  // ---------------------------------------------------------------- the system

  /** The last three fields are history: frames published, brought within the receiver's reach, and delivered. */
  datatype System = System(
    pub: Publisher,
    rx: Receiver,
    subMaxFrame: nat,
    net: set<Packet>,
    log: seq<OwnedFrame>,
    arrivals: seq<OwnedFrame>,
    delivered: seq<OwnedFrame>)

  datatype Event =
    | Publish(payload: seq<byte>, timestampNs: u64)
    | Restart(publisherId: u64)
    | ToPublisher(packet: Packet)
    | ToSubscriber(packet: Packet, now: nat)
    | Tick(now: nat)
    | Corrupt(packet: Packet, at: nat, value: byte)

  function All(packets: seq<Packet>): set<Packet> {
    set p | p in packets
  }

  /** The frame a datagram brings to the receiver, as DATA or inside a replay response. */
  function Arriving(s: System, packet: Packet): seq<OwnedFrame> {
    var view := Viewed(s.subMaxFrame, packet);
    if view.Err? || view.value.header.streamId != s.rx.streamId then []
    else if view.value.header.messageType == Data then [view.value]
    else if view.value.header.messageType == MessageType.ReplayResponse && |view.value.payload| >= 8 then
      DeliveryRuns.Arriving(s.rx, DeliveryRuns.Respond(RequestIdOf(view.value), Recovered(view.value)))
    else []
  }

  ghost predicate Step(s: System, ev: Event, s': System) {
    match ev
    case Publish(payload, ts) =>
      && CanPublish(s.pub)
      && var (pub, packets) := Published(s.pub, payload, ts);
         s' == s.(pub := pub, net := s.net + All(packets), log := s.log + [NextFrame(s.pub, payload, ts)])
    case Restart(id) => s' == s.(pub := Restarted(s.pub, id))
    case ToPublisher(p) =>
      && p in s.net && |s.pub.ring.slots| > 0
      && s' == s.(net := s.net + All(Replies(s.pub, p)))
    case ToSubscriber(p, now) =>
      && p in s.net && CanHandle(s.rx, s.subMaxFrame, p)
      && var turn := Handled(s.rx, s.subMaxFrame, p, now);
         s' == s.(rx := turn.rx, net := s.net + All(turn.packets), arrivals := s.arrivals + Arriving(s, p),
                  delivered := s.delivered + turn.delivered)
    case Tick(now) =>
      exists turn :: Ticked(s.rx, s.subMaxFrame, now, turn)
                     && s' == s.(rx := turn.rx, net := s.net + All(turn.packets))
    case Corrupt(p, at, b) =>
      && p in s.net && Intact(s, p)
      && |p| <= s.subMaxFrame
      && at < |p| && p[at] != b
      && s' == s.(net := s.net + {p[at := b]})
  }

  ghost predicate Initial(s: System) {
    && s.pub.nextSequence == 1 && |s.pub.ring.slots| > 0
    && s.pub.ring == RetentionRing.Empty(|s.pub.ring.slots|)
    && s.pub.replayPublisherId == s.pub.publisherId
    && (exists config :: s.rx == NewReceiver(s.rx.streamId, s.rx.mode, config))
    && s.net == {} && s.log == [] && s.arrivals == [] && s.delivered == []
  }

  datatype Run = Start(initial: System) | Then(before: Run, event: Event, system: System)

  function Now(run: Run): System {
    match run
    case Start(s) => s
    case Then(_, _, s) => s
  }

  ghost predicate Valid(run: Run) {
    match run
    case Start(s) => Initial(s)
    case Then(before, ev, s) => Valid(before) && Step(Now(before), ev, s)
  }

  // ---------------------------------------------------------------- integrity

  /** d carries the identity, timestamp and payload of the published frame f. */
  predicate SameMessage(d: OwnedFrame, f: OwnedFrame) {
    && d.header.messageType == f.header.messageType == Data
    && d.header.streamId == f.header.streamId
    && d.header.publisherId == f.header.publisherId
    && d.header.sequence == f.header.sequence
    && d.header.timestampNs == f.header.timestampNs
    && d.payload == f.payload
  }

  ghost predicate Genuine(d: OwnedFrame, log: seq<OwnedFrame>) {
    exists f :: f in log && SameMessage(d, f)
  }

  predicate IsData(f: OwnedFrame) {
    f.header.sequence >= 1
    && f == NewData(f.header.streamId, f.header.sequence, f.header.timestampNs, f.header.publisherId, f.payload)
  }

  /** The frames either side ever encodes. */
  ghost predicate Sendable(g: OwnedFrame, log: seq<OwnedFrame>) {
    || (g in log && IsData(g))
    || (exists id, f :: f in log && IsData(f) && g == ResponseFrame(id, f))
    || (exists streamId, q :: g == RequestFrame(streamId, q))
    || (exists pub, u :: g == UnavailableFrame(pub, u))
  }

  ghost predicate Encodes(p: Packet, g: OwnedFrame) {
    p == Codec.Bytes(Codec.Filled(g)) && |p| <= MAX_DATAGRAM
  }

  ghost predicate IntactIn(p: Packet, log: seq<OwnedFrame>) {
    exists g :: Sendable(g, log) && Encodes(p, g)
  }

  /** A datagram as a sender produced it. */
  ghost predicate Intact(s: System, p: Packet) {
    IntactIn(p, s.log)
  }

  /** A datagram with one byte changed on the way, short enough for the subscriber's receive buffer. */
  ghost predicate Damaged(s: System, p: Packet) {
    exists q, at :: OneByteOff(q, p, at) && IntactIn(q, s.log) && |q| <= s.subMaxFrame
  }

  predicate OneByteOff(q: Packet, p: Packet, at: nat) {
    |p| == |q| && at < |p| && p[at] != q[at] && p[..at] == q[..at] && p[at + 1..] == q[at + 1..]
  }

  ghost predicate RingFrom(ring: RetentionRing.Ring, log: seq<OwnedFrame>) {
    |ring.slots| > 0 && forall i :: 0 <= i < |ring.slots| && ring.slots[i].Some? ==> ring.slots[i].value in log
  }

  ghost predicate BufferFrom(buffer: Recovery.ReorderBuffer, log: seq<OwnedFrame>) {
    forall k :: k in buffer ==> buffer[k].header.sequence == k && Genuine(buffer[k], log)
  }

  ghost predicate AllGenuine(fs: seq<OwnedFrame>, log: seq<OwnedFrame>) {
    forall d :: d in fs ==> Genuine(d, log)
  }

  ghost predicate Integrity(s: System) {
    && s.pub.nextSequence >= 1
    && RingFrom(s.pub.ring, s.log)
    && (forall f :: f in s.log ==> IsData(f))
    && (forall p :: p in s.net ==> Intact(s, p) || Damaged(s, p))
    && BufferFrom(s.rx.engine.buffer, s.log)
    && AllGenuine(s.arrivals, s.log)
    && AllGenuine(s.delivered, s.log)
  }

  // ---------------------------------------------------------------- what is sent is intact

  lemma SentIsIntact(cfg: Codec.Config, g: OwnedFrame, n: nat, log: seq<OwnedFrame>)
    requires Sendable(g, log)
    ensures forall p :: p in Sent(cfg, g, n) ==> IntactIn(p, log)
  {
    forall p | p in Sent(cfg, g, n)
      ensures IntactIn(p, log)
    {
      assert Encodes(p, g);
    }
  }

  lemma {:induction false} ResponsesIntact(pub: Publisher, id: nat, fs: seq<OwnedFrame>, log: seq<OwnedFrame>)
    requires forall f :: f in fs ==> f in log && IsData(f)
    ensures forall p :: p in Responses(pub, id, fs) ==> IntactIn(p, log)
  {
    if |fs| != 0 {
      var f := fs[|fs| - 1];
      ResponsesIntact(pub, id, fs[..|fs| - 1], log);
      assert f in fs;
      assert Sendable(ResponseFrame(id, f), log);
      SentIsIntact(Checked(pub.maxFrame), ResponseFrame(id, f), SEND_BUFFER, log);
    }
  }

  lemma {:induction false} RequestsIntact(streamId: u64, maxFrame: nat, qs: seq<RequestPayload>, log: seq<OwnedFrame>)
    ensures forall p :: p in SentRequests(streamId, maxFrame, qs) ==> IntactIn(p, log)
  {
    if |qs| != 0 {
      RequestsIntact(streamId, maxFrame, qs[..|qs| - 1], log);
      RequestIntact(streamId, maxFrame, qs[|qs| - 1], log);
    }
  }

  lemma RequestIntact(streamId: u64, maxFrame: nat, q: RequestPayload, log: seq<OwnedFrame>)
    ensures forall p :: p in SentRequest(streamId, maxFrame, q) ==> IntactIn(p, log)
  {
    assert Sendable(RequestFrame(streamId, q), log);
    SentIsIntact(Checked(maxFrame), RequestFrame(streamId, q), SEND_BUFFER, log);
  }

  lemma RangeFromLog(ring: RetentionRing.Ring, log: seq<OwnedFrame>, low: nat, high: nat)
    requires RingFrom(ring, log) && low <= high
    ensures RetentionRing.Range(ring, low, high).Retained? ==>
              forall f :: f in RetentionRing.Range(ring, low, high).frames ==> f in log
  {
    RetentionRing.CollectMeaning(ring, low, high);
    if RetentionRing.Range(ring, low, high).Retained? {
      var fs := RetentionRing.Range(ring, low, high).frames;
      forall f | f in fs
        ensures f in log
      {
        var i :| 0 <= i < |fs| && fs[i] == f;
        assert RetentionRing.Lookup(ring, low + i) == Some(f);
      }
    }
  }

  lemma RepliesIntact(s: System, packet: Packet)
    requires Integrity(s)
    ensures forall p :: p in Replies(s.pub, packet) ==> Intact(s, p)
  {
    var view := Codec.DecodeFrame(Checked(s.pub.maxFrame), Received(packet, s.pub.maxFrame));
    if view.Ok? && view.value.header.messageType == MessageType.ReplayRequest {
      var r := DecodeRequest(view.value.payload);
      if r.Ok? {
        ServedIntact(s, r.value);
      }
    }
  }

  lemma ServedIntact(s: System, q: RequestPayload)
    requires Integrity(s) && q.fromSequence <= q.toSequence
    ensures forall p :: p in Served(s.pub, q) ==> Intact(s, p)
  {
    RangeFromLog(s.pub.ring, s.log, q.fromSequence, q.toSequence);
    match RetentionRing.Range(s.pub.ring, q.fromSequence, q.toSequence)
    case Retained(fs) => ResponsesIntact(s.pub, q.requestId, fs, s.log);
    case Unavailable(a, b) =>
      var g := UnavailableFrame(s.pub, UnavailablePayload(q.requestId, a, b));
      assert Sendable(g, s.log);
      SentIsIntact(Checked(s.pub.maxFrame), g, SEND_BUFFER, s.log);
  }

  // ---------------------------------------------------------------- what is accepted was sent

  lemma SendableShape(g: OwnedFrame, log: seq<OwnedFrame>)
    requires Sendable(g, log) && |Codec.Bytes(g)| <= MAX_DATAGRAM
    ensures Codec.FitsFields(g) && Headers.CanonicalType(g.header.messageType)
    ensures g.extensionBytes == []
    ensures g.header.messageType == Data ==> g in log && IsData(g)
    ensures g.header.messageType == MessageType.ReplayResponse ==>
              exists id, f :: f in log && IsData(f) && g == ResponseFrame(id, f)
  {}

  /** An intact datagram, possibly cut short by the receive buffer, decodes to what was sent or is refused. */
  lemma IntactViewed(p: Packet, g: OwnedFrame, log: seq<OwnedFrame>, maxFrame: nat)
    requires Sendable(g, log) && Encodes(p, g)
    ensures Viewed(maxFrame, p).Ok? ==> Viewed(maxFrame, p) == Ok(Codec.Filled(g))
  {
    var filled := Codec.Filled(g);
    assert |Codec.Bytes(g)| == |p|;
    SendableShape(g, log);
    Codec.SizedLengths(g, filled.header.checksum);
    if |p| <= maxFrame {
      Codec.DecodesToItselfOrFails(Checked(maxFrame), filled);
    } else {
      Codec.TruncationRefused(Checked(maxFrame), g, maxFrame);
    }
  }

  lemma DamagedRefused(s: System, p: Packet)
    requires Damaged(s, p)
    ensures Viewed(s.subMaxFrame, p).Err?
  {
    var q, at :| OneByteOff(q, p, at) && IntactIn(q, s.log) && |q| <= s.subMaxFrame;
    var g :| Sendable(g, s.log) && Encodes(q, g);
    OneByteRefused(Checked(s.subMaxFrame), g, q, p, at);
  }

  lemma OneByteRefused(cfg: Codec.Config, g: OwnedFrame, q: Packet, p: Packet, at: nat)
    requires cfg.validateChecksum && q == Codec.Bytes(Codec.Filled(g)) && OneByteOff(q, p, at)
    ensures Codec.DecodeFrame(cfg, p).Err?
  {
    Codec.EncodedChecksumMatches(g);
    OneByteUpdate(q, p, at);
    Codec.SingleByteRefused(cfg, q, at, p[at]);
  }

  lemma OneByteUpdate(q: Packet, p: Packet, at: nat)
    requires OneByteOff(q, p, at)
    ensures p == q[at := p[at]]
  {
    assert p == p[..at] + [p[at]] + p[at + 1..];
    assert q[at := p[at]] == q[..at] + [p[at]] + q[at + 1..];
  }

  /** The subscriber only ever accepts published frames: as DATA, or inside a replay response. */
  lemma AcceptedIsGenuine(s: System, p: Packet)
    requires Integrity(s) && p in s.net && Viewed(s.subMaxFrame, p).Ok?
    ensures var view := Viewed(s.subMaxFrame, p).value;
            && (view.header.messageType == Data ==> Genuine(view, s.log) && view.header.sequence >= 1)
            && (view.header.messageType == MessageType.ReplayResponse && |view.payload| >= 8 ==>
                  Genuine(Recovered(view), s.log))
  {
    if Damaged(s, p) {
      DamagedRefused(s, p);
    }
    var g :| Sendable(g, s.log) && Encodes(p, g);
    IntactViewed(p, g, s.log, s.subMaxFrame);
    SendableShape(g, s.log);
    var view := Codec.Filled(g);
    if g.header.messageType == Data {
      assert SameMessage(view, g);
    } else if g.header.messageType == MessageType.ReplayResponse {
      var id, f :| f in s.log && IsData(f) && g == ResponseFrame(id, f);
      assert view.payload[8..] == f.payload;
      assert SameMessage(Recovered(view), f);
    }
  }

  // ---------------------------------------------------------------- the receiver adds nothing

  lemma DrainedFrom(buffer: Recovery.ReorderBuffer, start: nat, log: seq<OwnedFrame>)
    requires BufferFrom(buffer, log)
    ensures AllGenuine(Recovery.Drained(buffer, start).0, log)
    ensures BufferFrom(Recovery.Drained(buffer, start).1, log)
  {
    var (fs, left) := Recovery.Drained(buffer, start);
    Recovery.DrainedMeaning(buffer, start);
    forall d | d in fs
      ensures Genuine(d, log)
    {
      var i :| 0 <= i < |fs| && fs[i] == d;
      assert start + i in buffer && fs[start + i - start] == buffer[start + i];
    }
  }

  lemma ProcessedGenuine(rx: Receiver, f: OwnedFrame, now: nat, log: seq<OwnedFrame>)
    requires CanProcess(rx, f) && BufferFrom(rx.engine.buffer, log) && Genuine(f, log)
    ensures var (rx', r) := Processed(rx, f, now);
            && BufferFrom(rx'.engine.buffer, log)
            && AllGenuine(DeliveryRuns.FramesOf(r), log)
  {
    hide Processed, Recovery.Drained, Genuine;
    DrainedFrom(rx.engine.buffer, f.header.sequence + 1, log);
    assert BufferFrom(rx.engine.buffer[f.header.sequence := f], log);
    ProcessedShape(rx, f, now);
  }

  /** Processing delivers nothing, the frame, or the frame and a drained run; it buffers at most the frame. */
  lemma ProcessedShape(rx: Receiver, f: OwnedFrame, now: nat)
    requires CanProcess(rx, f)
    ensures var (rx', r) := Processed(rx, f, now);
            var fs, (run, left) := DeliveryRuns.FramesOf(r), Recovery.Drained(rx.engine.buffer, f.header.sequence + 1);
            && (fs == [] || fs == [f] || (fs == [f] + run))
            && (rx'.engine.buffer == rx.engine.buffer || rx'.engine.buffer == map[] || rx'.engine.buffer == left
                || rx'.engine.buffer == rx.engine.buffer[f.header.sequence := f])
  {
    match rx.mode
    case ReliableOrdered => ReliableShape(rx, f, now);
    case AtLeastOnce => AtLeastOnceShape(rx, f, now);
    case _ =>
  }

  lemma AtLeastOnceShape(rx: Receiver, f: OwnedFrame, now: nat)
    requires CanProcess(rx, f)
    ensures var (rx', r) := AtLeastOnceStep(rx, f, now);
            && (DeliveryRuns.FramesOf(r) == [] || DeliveryRuns.FramesOf(r) == [f])
            && rx'.engine.buffer == rx.engine.buffer
  {}

  lemma ReliableShape(rx: Receiver, f: OwnedFrame, now: nat)
    requires CanProcess(rx, f)
    ensures var (rx', r) := ReliableStep(rx, f, now);
            var fs, (run, left) := DeliveryRuns.FramesOf(r), Recovery.Drained(rx.engine.buffer, f.header.sequence + 1);
            && (fs == [] || fs == [f] || (fs == [f] + run))
            && (rx'.engine.buffer == rx.engine.buffer || rx'.engine.buffer == map[] || rx'.engine.buffer == left
                || rx'.engine.buffer == rx.engine.buffer[f.header.sequence := f])
  {
    hide Recovery.Drained, Dedup.Record;
  }

  lemma ReplayedGenuine(rx: Receiver, id: nat, f: OwnedFrame, log: seq<OwnedFrame>)
    requires BufferFrom(rx.engine.buffer, log) && Genuine(f, log)
    ensures var (rx', fs) := Replayed(rx, id, f);
            BufferFrom(rx'.engine.buffer, log) && AllGenuine(fs, log)
  {
    var buffer := rx.engine.buffer[f.header.sequence := f];
    assert BufferFrom(buffer, log);
    Recovery.AscendingMeaning(buffer);
  }

  lemma HandledGenuine(s: System, p: Packet, now: nat)
    requires Integrity(s) && p in s.net && CanHandle(s.rx, s.subMaxFrame, p)
    ensures var turn := Handled(s.rx, s.subMaxFrame, p, now);
            && BufferFrom(turn.rx.engine.buffer, s.log)
            && AllGenuine(turn.delivered, s.log)
            && AllGenuine(Arriving(s, p), s.log)
            && forall q :: q in turn.packets ==> Intact(s, q)
  {
    var view := Viewed(s.subMaxFrame, p);
    if view.Ok? {
      AcceptedIsGenuine(s, p);
      DispatchedGenuine(s, view.value, now);
    }
  }

  lemma DispatchedGenuine(s: System, view: OwnedFrame, now: nat)
    requires Integrity(s)
    requires view.header.messageType == Data ==> Genuine(view, s.log)
    requires view.header.messageType == MessageType.ReplayResponse && |view.payload| >= 8 ==>
               Genuine(Recovered(view), s.log)
    requires view.header.messageType == Data && view.header.streamId == s.rx.streamId ==> CanProcess(s.rx, view)
    ensures var turn := Dispatched(s.rx, s.subMaxFrame, view, now);
            && BufferFrom(turn.rx.engine.buffer, s.log)
            && AllGenuine(turn.delivered, s.log)
            && forall q :: q in turn.packets ==> Intact(s, q)
  {
    match view.header.messageType
    case Data =>
      if view.header.streamId == s.rx.streamId {
        ProcessedGenuine(s.rx, view, now, s.log);
        var r := Processed(s.rx, view, now).1;
        if r.Ok? && r.value.request.Some? {
          RequestIntact(s.rx.streamId, s.subMaxFrame, r.value.request.value, s.log);
        }
      }
    case ReplayResponse =>
      if |view.payload| >= 8 {
        ReplayedGenuine(s.rx, RequestIdOf(view), Recovered(view), s.log);
      }
    case _ =>
  }

  // ---------------------------------------------------------------- every step keeps integrity

  lemma GrowingLog(d: OwnedFrame, log: seq<OwnedFrame>, f: OwnedFrame)
    requires Genuine(d, log)
    ensures Genuine(d, log + [f])
  {
    var g :| g in log && SameMessage(d, g);
    assert g in log + [f];
  }

  lemma GrowingIntact(p: Packet, log: seq<OwnedFrame>, f: OwnedFrame)
    requires IntactIn(p, log)
    ensures IntactIn(p, log + [f])
  {
    var g :| Sendable(g, log) && Encodes(p, g);
    assert forall h :: h in log ==> h in log + [f];
    assert Sendable(g, log + [f]);
  }

  lemma PublishKeepsIntegrity(s: System, payload: seq<byte>, ts: u64, s': System)
    requires Integrity(s) && Step(s, Publish(payload, ts), s')
    ensures Integrity(s')
  {
    var f := NextFrame(s.pub, payload, ts);
    var log := s.log + [f];
    assert f in log && IsData(f);
    assert Sendable(f, log);
    SentIsIntact(Checked(s.pub.maxFrame), f, s.pub.maxFrame, log);
    forall p | p in s'.net
      ensures Intact(s', p) || Damaged(s', p)
    {
      if p in s.net {
        StillThere(s, s', p, f);
      }
    }
    forall d | Genuine(d, s.log)
      ensures Genuine(d, log)
    {
      GrowingLog(d, s.log, f);
    }
  }

  lemma StillThere(s: System, s': System, p: Packet, f: OwnedFrame)
    requires Intact(s, p) || Damaged(s, p)
    requires s'.log == s.log + [f] && s'.subMaxFrame == s.subMaxFrame
    ensures Intact(s', p) || Damaged(s', p)
  {
    if Intact(s, p) {
      GrowingIntact(p, s.log, f);
    } else {
      var q, at :| OneByteOff(q, p, at) && IntactIn(q, s.log) && |q| <= s.subMaxFrame;
      GrowingIntact(q, s.log, f);
    }
  }

  /** Steps that leave log and ring alone and add only intact or singly damaged datagrams. */
  lemma NetGrows(s: System, s': System)
    requires Integrity(s)
    requires s'.pub == s.pub && s'.log == s.log && s'.subMaxFrame == s.subMaxFrame
    requires forall p :: p in s'.net ==> p in s.net || Intact(s, p) || Damaged(s, p)
    requires BufferFrom(s'.rx.engine.buffer, s.log)
    requires AllGenuine(s'.arrivals, s.log) && AllGenuine(s'.delivered, s.log)
    ensures Integrity(s')
  {
    forall p | p in s'.net
      ensures Intact(s', p) || Damaged(s', p)
    {
      if Damaged(s, p) {
        var q, at :| OneByteOff(q, p, at) && IntactIn(q, s.log) && |q| <= s.subMaxFrame;
        assert Damaged(s', p);
      }
    }
  }

  lemma StepKeepsIntegrity(s: System, ev: Event, s': System)
    requires Integrity(s) && Step(s, ev, s')
    ensures Integrity(s')
  {
    match ev
    case Publish(payload, ts) => PublishKeepsIntegrity(s, payload, ts, s');
    case Restart(id) => RestartKeepsIntegrity(s, id, s');
    case ToPublisher(p) =>
      RepliesIntact(s, p);
      NetGrows(s, s');
    case ToSubscriber(p, now) =>
      HandledGenuine(s, p, now);
      NetGrows(s, s');
    case Tick(now) => TickKeepsIntegrity(s, now, s');
    case Corrupt(p, at, b) =>
      assert OneByteOff(p, p[at := b], at);
      assert Damaged(s, p[at := b]);
      NetGrows(s, s');
  }

  lemma RestartKeepsIntegrity(s: System, id: u64, s': System)
    requires Integrity(s) && Step(s, Restart(id), s')
    ensures Integrity(s')
  {
    forall p | p in s'.net
      ensures Intact(s', p) || Damaged(s', p)
    {
      if Damaged(s, p) {
        var q, at :| OneByteOff(q, p, at) && IntactIn(q, s.log) && |q| <= s.subMaxFrame;
        assert Damaged(s', p);
      }
    }
  }

  lemma TickKeepsIntegrity(s: System, now: nat, s': System)
    requires Integrity(s) && Step(s, Tick(now), s')
    ensures Integrity(s')
  {
    var turn :| Ticked(s.rx, s.subMaxFrame, now, turn) && s' == s.(rx := turn.rx, net := s.net + All(turn.packets));
    var r :| Recovery.Swept(s.rx.engine, now, turn.rx.engine, r)
             && turn.rx == s.rx.(engine := turn.rx.engine)
             && turn.packets == if r.Ok? then SentRequests(s.rx.streamId, s.subMaxFrame, r.value) else [];
    DeliveryRuns.SweepKeepsBuffer(s.rx.engine, now, turn.rx.engine, r);
    if r.Ok? {
      RequestsIntact(s.rx.streamId, s.subMaxFrame, r.value, s.log);
    }
    NetGrows(s, s');
  }

  lemma {:induction false} RunKeepsIntegrity(run: Run)
    requires Valid(run)
    ensures Integrity(Now(run))
  {
    if run.Then? {
      RunKeepsIntegrity(run.before);
      StepKeepsIntegrity(Now(run.before), run.event, run.system);
    }
  }

  // ---------------------------------------------------------------- what the application published

  /** One publication as the application asked for it. */
  datatype Message = Message(streamId: u64, publisherId: u64, sequence: nat, timestampNs: u64, payload: seq<byte>)

  /** The frame is DATA and carries the message. */
  predicate Carries(f: OwnedFrame, m: Message) {
    && f.header.messageType == Data
    && f.header.streamId == m.streamId && f.header.publisherId == m.publisherId && f.header.sequence == m.sequence
    && f.header.timestampNs == m.timestampNs && f.payload == m.payload
  }

  function Stream(run: Run): u64 {
    match run
    case Start(s) => s.pub.streamId
    case Then(before, _, _) => Stream(before)
  }

  /** The identity last given to the publisher. */
  function Identity(run: Run): u64 {
    match run
    case Start(s) => s.pub.publisherId
    case Then(before, ev, _) => if ev.Restart? then ev.publisherId else Identity(before)
  }

  /** The publications since the publisher got that identity: the n-th, counted from 1, has sequence n. */
  function Recent(run: Run): seq<Message> {
    match run
    case Start(_) => []
    case Then(before, ev, _) =>
      match ev
      case Publish(payload, ts) =>
        Recent(before) + [Message(Stream(run), Identity(run), |Recent(before)| + 1, ts, payload)]
      case Restart(_) => []
      case _ => Recent(before)
  }

  /** Everything ever published. */
  function Publications(run: Run): seq<Message> {
    match run
    case Start(_) => []
    case Then(before, ev, _) =>
      Publications(before) + if ev.Publish? then [Recent(run)[|Recent(run)| - 1]] else []
  }

  ghost predicate CarriesAll(fs: seq<OwnedFrame>, ms: seq<Message>) {
    |fs| == |ms| && forall i :: 0 <= i < |fs| ==> Carries(fs[i], ms[i])
  }

  lemma TickLeavesPublisher(s: System, ev: Event, s': System)
    requires Step(s, ev, s')
    ensures ev.Tick? ==> s'.pub == s.pub && s'.log == s.log
  {
    if ev.Tick? {
      var turn :| Ticked(s.rx, s.subMaxFrame, ev.now, turn) && s' == s.(rx := turn.rx, net := s.net + All(turn.packets));
    }
  }

  /** What a successful or failed publication retains, whatever the publisher's code makes of it. */
  lemma NextFrameCarries(pub: Publisher, payload: seq<byte>, ts: u64)
    requires CanPublish(pub)
    ensures Carries(NextFrame(pub, payload, ts),
                    Message(pub.streamId, pub.publisherId, pub.nextSequence, ts, payload))
  {}

  lemma {:induction false} PublisherCounts(run: Run)
    requires Valid(run)
    ensures var pub := Now(run).pub;
            pub.streamId == Stream(run) && pub.publisherId == Identity(run) && pub.nextSequence == |Recent(run)| + 1
  {
    if run.Then? {
      PublisherCounts(run.before);
      TickLeavesPublisher(Now(run.before), run.event, run.system);
    }
  }

  /** The log holds exactly what the application published, in order. */
  lemma {:induction false} LogIsPublications(run: Run)
    requires Valid(run)
    ensures CarriesAll(Now(run).log, Publications(run))
  {
    if run.Then? {
      LogIsPublications(run.before);
      PublisherCounts(run.before);
      TickLeavesPublisher(Now(run.before), run.event, run.system);
      if run.event.Publish? {
        NextFrameCarries(Now(run.before).pub, run.event.payload, run.event.timestampNs);
      }
    }
  }

  /**
   Every frame ever delivered, in any mode, carries something the application published, with that stream, identity,
   sequence, timestamp and payload, restarts, replays and damage included.
   */
  lemma EndToEndIntegrity(run: Run, d: OwnedFrame)
    requires Valid(run) && d in Now(run).delivered
    ensures exists f :: f in Now(run).log && SameMessage(d, f)
    ensures exists i :: 0 <= i < |Publications(run)| && Carries(d, Publications(run)[i])
  {
    RunKeepsIntegrity(run);
    assert Genuine(d, Now(run).log);
    LogIsPublications(run);
    var f :| f in Now(run).log && SameMessage(d, f);
    var i :| 0 <= i < |Now(run).log| && Now(run).log[i] == f;
    assert Carries(d, Publications(run)[i]);
  }

  /** No datagram that can be in the network makes the subscriber's sequence arithmetic underflow. */
  lemma SubscriberNeverUnderflows(run: Run, p: Packet)
    requires Valid(run) && p in Now(run).net
    ensures CanHandle(Now(run).rx, Now(run).subMaxFrame, p)
  {
    RunKeepsIntegrity(run);
    if Viewed(Now(run).subMaxFrame, p).Ok? {
      AcceptedIsGenuine(Now(run), p);
    }
  }
}
