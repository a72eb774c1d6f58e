/**
 What goes on the wire and what the other side makes of it: publications, replay requests, the answers to them and
 retransmissions, datagram by datagram.
 */
module Exchange {
  import opened Outcomes
  import opened Frames
  import opened ReplayPayloads
  import opened Delivery
  import opened Transport
  import opened Protocol
  import BigEndian
  import Codec
  import Crc32c
  import DeliveryRequests
  import Headers
  import ProtocolOrder
  import Recovery
  import RetentionRing

  /** The datagram decodes, without extensions, flags or surprises in its header. */
  ghost predicate Headed(p: Packet, maxFrame: nat, kind: MessageType, streamId: u64, publisherId: u64, sequence: nat,
                         timestampNs: u64) {
    var view := Viewed(maxFrame, p);
    && view.Ok? && view.value.extensionBytes == []
    && var h := view.value.header;
       && h.magic == 0x5254 && h.version == 1 && h.flags == 0 && h.messageType == kind && h.headerLength == 48
       && h.streamId == streamId && h.sequence == sequence && h.timestampNs == timestampNs
       && h.publisherId == publisherId && h.payloadLength == |view.value.payload|
  }

  /** What encoding adds to a frame: lengths and checksum. */
  lemma FilledHeader(g: OwnedFrame)
    requires g.extensionBytes == [] && |g.payload| < 0x1_0000_0000
    ensures var f := Codec.Filled(g);
            && f.payload == g.payload && f.extensionBytes == []
            && f.header == g.header.(headerLength := 48, payloadLength := |g.payload|, checksum := f.header.checksum)
  {
    hide Crc32c.Checksum, Codec.Bytes;
  }

  lemma HeadedAs(g: OwnedFrame, p: Packet, maxFrame: nat)
    requires Viewed(maxFrame, p) == Ok(Codec.Filled(g))
    requires g.extensionBytes == [] && |g.payload| < 0x1_0000_0000
    requires g.header.magic == 0x5254 && g.header.version == 1 && g.header.flags == 0
    ensures Headed(p, maxFrame, g.header.messageType, g.header.streamId, g.header.publisherId, g.header.sequence,
                   g.header.timestampNs)
    ensures Viewed(maxFrame, p).value.payload == g.payload
  {
    hide Viewed, Codec.Filled;
    FilledHeader(g);
  }

  // ---------------------------------------------------------------- publications

  /** A receiver with this frame limit decodes the datagram to DATA carrying the message. */
  ghost predicate Brings(p: Packet, maxFrame: nat, m: Message) {
    && Headed(p, maxFrame, Data, m.streamId, m.publisherId, m.sequence, m.timestampNs)
    && Carries(Viewed(maxFrame, p).value, m)
  }

  lemma DataViewed(g: OwnedFrame, maxFrame: nat)
    requires IsData(g) && 48 + |g.payload| <= maxFrame && |g.payload| < 0x1_0000
    ensures Viewed(maxFrame, Codec.Bytes(Codec.Filled(g))) == Ok(Codec.Filled(g))
  {
    DataWellFormed(g);
    FitsEncoded(g, maxFrame);
    hide IsData, Codec.EncodeFrame, Codec.DecodeFrame, Codec.WellFormed, Codec.Bytes, Codec.Filled;
    Codec.DecodeEncode(Checked(maxFrame), g, maxFrame);
  }

  lemma FitsEncoded(g: OwnedFrame, maxFrame: nat)
    requires g.extensionBytes == [] && 48 + |g.payload| <= maxFrame
    ensures Codec.EncodeFrame(Checked(maxFrame), g, maxFrame) == Ok(Codec.Bytes(Codec.Filled(g)))
    ensures |Codec.Bytes(Codec.Filled(g))| <= maxFrame
  {
    FilledSize(g);
    hide Crc32c.Checksum, Headers.EncodeHeader, Codec.Filled;
  }

  lemma DataWellFormed(g: OwnedFrame)
    requires IsData(g) && |g.payload| < 0x1_0000
    ensures Codec.WellFormed(g)
  {}

  /**
   A successful publication puts one datagram on the wire, which every receiver with a large enough limit decodes to the
   payload and timestamp given, under the publisher's stream, identity and next sequence; a failed one puts none. Either
   way the ring retains a frame that carries the same.
   */
  lemma PublicationOnTheWire(pub: Publisher, payload: seq<byte>, ts: u64, maxFrame: nat)
    requires CanPublish(pub) && pub.nextSequence >= 1
    ensures var (pub', packets) := Published(pub, payload, ts);
            var r := PublishResult(pub, payload, ts);
            var m := Message(pub.streamId, pub.publisherId, pub.nextSequence, ts, payload);
            var slot := pub'.ring.slots[pub.nextSequence % |pub.ring.slots|];
            && slot.Some? && Carries(slot.value, m)
            && (r.Err? ==> packets == [])
            && (r.Ok? ==> |packets| == 1 && (48 + |payload| <= maxFrame ==> Brings(packets[0], maxFrame, m)))
  {
    var g := NextFrame(pub, payload, ts);
    PublishOutcome(pub, payload, ts);
    NextFrameCarries(pub, payload, ts);
    var packets := Published(pub, payload, ts).1;
    if PublishResult(pub, payload, ts).Ok? && 48 + |payload| <= maxFrame {
      assert packets[0] == Codec.Bytes(Codec.Filled(g));
      hide Headed, Viewed, Codec.Filled, Codec.Bytes, Published, PublishResult;
      DataViewed(g, maxFrame);
      HeadedAs(g, packets[0], maxFrame);
    }
  }

  // ---------------------------------------------------------------- requests

  /** A publisher with this frame limit decodes the datagram to exactly this request. */
  ghost predicate AsksFor(p: Packet, maxFrame: nat, streamId: u64, q: RequestPayload) {
    var view := Viewed(maxFrame, p);
    && view.Ok? && view.value.header.messageType == MessageType.ReplayRequest
    && view.value.header.streamId == streamId
    && DecodeRequest(view.value.payload) == Ok(q)
  }

  ghost predicate Sendable64(q: RequestPayload) {
    FitWords(q.requestId, q.fromSequence, q.toSequence) && q.fromSequence <= q.toSequence
  }

  lemma RequestOnTheWire(streamId: u64, subMaxFrame: nat, pubMaxFrame: nat, q: RequestPayload)
    requires Sendable64(q) && 72 <= subMaxFrame && 72 <= pubMaxFrame
    ensures |SentRequest(streamId, subMaxFrame, q)| == 1
    ensures AsksFor(SentRequest(streamId, subMaxFrame, q)[0], pubMaxFrame, streamId, q)
    ensures Headed(SentRequest(streamId, subMaxFrame, q)[0], pubMaxFrame, ReplayRequest, streamId, 0, 0, 0)
  {
    var g := RequestFrame(streamId, q);
    ProtocolOrder.RequestWellFormed(streamId, q);
    ProtocolOrder.ControlFrameViewed(g, subMaxFrame);
    ProtocolOrder.ControlFrameViewed(g, pubMaxFrame);
    RequestRoundTrip(q);
    hide Codec.Bytes, Codec.Filled, DecodeRequest, EncodeRequest, Sent, Headed, Viewed;
    HeadedAs(g, Codec.Bytes(Codec.Filled(g)), pubMaxFrame);
  }

  /** One datagram says one thing. */
  lemma AsksForOne(p: Packet, maxFrame: nat, streamId: u64, q: RequestPayload, q': RequestPayload)
    requires AsksFor(p, maxFrame, streamId, q) && AsksFor(p, maxFrame, streamId, q')
    ensures q == q'
  {}

  /**
   On a DATA datagram ahead of what is awaited the subscriber sends exactly one datagram, which the publisher decodes to
   the request for everything missing, if the limits allow; otherwise, and for any other DATA, none.
   */
  lemma ArrivalAsksOnTheWire(rx: Receiver, subMaxFrame: nat, pubMaxFrame: nat, packet: Packet, f: OwnedFrame, now: nat)
    requires Viewed(subMaxFrame, packet) == Ok(f) && CanHandle(rx, subMaxFrame, packet)
    requires f.header.messageType == Data && f.header.streamId == rx.streamId
    requires rx.engine.nextRequestId < 0x1_0000_0000_0000_0000 && 72 <= subMaxFrame && 72 <= pubMaxFrame
    ensures var packets := Handled(rx, subMaxFrame, packet, now).packets;
            if DeliveryRequests.Wants(rx, f)
            then |packets| == 1
                 && AsksFor(packets[0], pubMaxFrame, rx.streamId, DeliveryRequests.MissingBefore(rx, f))
            else packets == []
  {
    hide Codec.DecodeFrame, Processed, SentRequest, AsksFor;
    DeliveryRequests.AsksExactly(rx, f, now);
    if DeliveryRequests.Wants(rx, f) {
      RequestOnTheWire(rx.streamId, subMaxFrame, pubMaxFrame, DeliveryRequests.MissingBefore(rx, f));
    }
  }

  /** Any other datagram leads to none, and one of another stream changes nothing unless it is a refusal. */
  lemma OthersLeadToNone(rx: Receiver, maxFrame: nat, packet: Packet, now: nat)
    requires CanHandle(rx, maxFrame, packet)
    ensures var view, turn := Viewed(maxFrame, packet), Handled(rx, maxFrame, packet, now);
            && (view.Err? || view.value.header.messageType != Data ==> turn.packets == [])
            && (view.Err? || (view.value.header.streamId != rx.streamId
                              && view.value.header.messageType != MessageType.ReplayUnavailable) ==>
                  turn == Turn(rx, [], []))
  {
    hide Codec.DecodeFrame, Processed;
  }

  /** Without ordering the application gets the frame at once, in the cases the modes promise. */
  lemma UnorderedHandsOver(rx: Receiver, maxFrame: nat, packet: Packet, f: OwnedFrame, now: nat)
    requires Viewed(maxFrame, packet) == Ok(f) && CanHandle(rx, maxFrame, packet) && rx.mode != ReliableOrdered
    requires f.header.messageType == Data && f.header.streamId == rx.streamId
    ensures Handled(rx, maxFrame, packet, now).delivered
         == if || rx.mode == BestEffort
               || (rx.mode == Latest && rx.highestDelivered < f.header.sequence)
               || (rx.mode == AtLeastOnce && (DeliveryRequests.Ahead(rx, f) ==> DeliveryRequests.MayAsk(rx, f)))
            then [f] else []
  {
    hide Codec.DecodeFrame, Processed;
    if rx.mode == AtLeastOnce {
      DeliveryRequests.AtLeastOnceAsksExactly(rx, f, now);
    } else {
      DeliveryRequests.UnorderedNeverAsks(rx, f, now);
    }
  }

  // ---------------------------------------------------------------- every open request is well formed

  /** Open requests sit under their ids, which have been issued, and their ranges are nonempty and fit 64 bits. */
  ghost predicate RequestsSound(e: Recovery.Engine) {
    && e.nextRequestId >= 1
    && forall id :: id in e.outstanding ==>
         && 1 <= id < e.nextRequestId && e.outstanding[id].requestId == id
         && 1 <= e.outstanding[id].fromSequence <= e.outstanding[id].toSequence < 0x1_0000_0000_0000_0000
  }

  lemma RequestedSound(e: Recovery.Engine, low: nat, high: nat, now: nat)
    requires RequestsSound(e) && 1 <= low <= high < 0x1_0000_0000_0000_0000
    ensures RequestsSound(Recovery.Requested(e, low, high, now).0)
  {}

  lemma AnsweredSound(e: Recovery.Engine, id: nat, f: OwnedFrame)
    requires RequestsSound(e)
    ensures RequestsSound(Recovery.Answered(e, id, f).0)
  {
    hide Recovery.Ascending;
  }

  lemma SweptSound(e: Recovery.Engine, now: nat, e': Recovery.Engine, r: Result<seq<RequestPayload>>)
    requires RequestsSound(e) && Recovery.Swept(e, now, e', r)
    ensures RequestsSound(e')
  {
    hide Recovery.ListsRetries;
  }

  /** What the arrival leaves of the engine: a request opened, nothing changed, or everything forgotten. */
  lemma ProcessedSound(rx: Receiver, f: OwnedFrame, now: nat)
    requires CanProcess(rx, f) && RequestsSound(rx.engine) && rx.tracker.expected >= 1
    ensures var rx' := Processed(rx, f, now).0;
            RequestsSound(rx'.engine) && rx'.tracker.expected >= 1
            && rx'.engine.nextRequestId <= rx.engine.nextRequestId + 1
  {
    hide Recovery.Drained;
    if DeliveryRequests.Ahead(rx, f) {
      RequestedSound(rx.engine, DeliveryRequests.Awaited(rx, f), f.header.sequence as nat - 1, now);
      RequestedSound(Recovery.Buffered(rx.engine, f), DeliveryRequests.Awaited(rx, f), f.header.sequence as nat - 1,
                     now);
    }
  }

  lemma HandledSound(rx: Receiver, maxFrame: nat, packet: Packet, now: nat)
    requires CanHandle(rx, maxFrame, packet) && RequestsSound(rx.engine) && rx.tracker.expected >= 1
    ensures var rx' := Handled(rx, maxFrame, packet, now).rx;
            RequestsSound(rx'.engine) && rx'.tracker.expected >= 1
  {
    hide Codec.DecodeFrame, Processed, Recovery.Answered;
    var view := Viewed(maxFrame, packet);
    if view.Ok? {
      var f := view.value;
      if f.header.messageType == Data && f.header.streamId == rx.streamId {
        ProcessedSound(rx, f, now);
      } else if f.header.messageType == MessageType.ReplayResponse && |f.payload| >= 8 {
        AnsweredSound(rx.engine, RequestIdOf(f), Recovered(f));
      }
    }
  }

  /** In every run, in every mode. */
  lemma {:induction false} RunKeepsRequestsSound(run: Run)
    requires Valid(run)
    ensures RequestsSound(Now(run).rx.engine) && Now(run).rx.tracker.expected >= 1
  {
    if run.Then? {
      var s := Now(run.before);
      RunKeepsRequestsSound(run.before);
      match run.event
      case ToSubscriber(p, now) => HandledSound(s.rx, s.subMaxFrame, p, now);
      case Tick(now) =>
        var turn :| Ticked(s.rx, s.subMaxFrame, now, turn)
                    && run.system == s.(rx := turn.rx, net := s.net + All(turn.packets));
        var r :| Recovery.Swept(s.rx.engine, now, turn.rx.engine, r) && turn.rx == s.rx.(engine := turn.rx.engine);
        SweptSound(s.rx.engine, now, turn.rx.engine, r);
      case _ =>
    }
  }

  // ---------------------------------------------------------------- retransmissions

  /** Datagram i asks for request i of the list, and there are no others. */
  lemma {:induction false} RequestsOnTheWire(streamId: u64, subMaxFrame: nat, pubMaxFrame: nat,
                                             qs: seq<RequestPayload>)
    requires forall q :: q in qs ==> Sendable64(q)
    requires 72 <= subMaxFrame && 72 <= pubMaxFrame
    ensures var packets := SentRequests(streamId, subMaxFrame, qs);
            && |packets| == |qs|
            && forall i :: 0 <= i < |qs| ==> AsksFor(packets[i], pubMaxFrame, streamId, qs[i])
  {
    hide SentRequest, AsksFor, Sendable64;
    if |qs| != 0 {
      var init, last := qs[..|qs| - 1], qs[|qs| - 1];
      assert last in qs && forall q :: q in init ==> q in qs;
      hide Headed;
      RequestsOnTheWire(streamId, subMaxFrame, pubMaxFrame, init);
      RequestOnTheWire(streamId, subMaxFrame, pubMaxFrame, last);
      var packets := SentRequests(streamId, subMaxFrame, qs);
      assert packets == SentRequests(streamId, subMaxFrame, init) + SentRequest(streamId, subMaxFrame, last);
    }
  }

  /** The request that is open under an id. */
  function Open(e: Recovery.Engine, id: nat): RequestPayload
    requires id in e.outstanding
  {
    RequestPayload(id, e.outstanding[id].fromSequence, e.outstanding[id].toSequence)
  }

  /** Some datagram asks for q. */
  ghost predicate Asked(packets: seq<Packet>, maxFrame: nat, streamId: u64, q: RequestPayload) {
    exists i :: 0 <= i < |packets| && AsksFor(packets[i], maxFrame, streamId, q)
  }

  /** Every due request has its datagram. */
  ghost predicate EveryDueAsked(packets: seq<Packet>, maxFrame: nat, streamId: u64, e: Recovery.Engine, now: nat) {
    forall id :: Recovery.Due(e, id, now) ==> Asked(packets, maxFrame, streamId, Open(e, id))
  }

  ghost predicate AsksForDue(p: Packet, maxFrame: nat, streamId: u64, e: Recovery.Engine, now: nat) {
    exists id :: Recovery.Due(e, id, now) && AsksFor(p, maxFrame, streamId, Open(e, id))
  }

  /** Every datagram asks for a due request. */
  ghost predicate OnlyDueAsked(packets: seq<Packet>, maxFrame: nat, streamId: u64, e: Recovery.Engine, now: nat) {
    forall i :: 0 <= i < |packets| ==> AsksForDue(packets[i], maxFrame, streamId, e, now)
  }

  /** No two datagrams ask for the same. */
  ghost predicate NoneTwice(packets: seq<Packet>, maxFrame: nat, streamId: u64) {
    forall i, j, q :: 0 <= i < j < |packets| && AsksFor(packets[i], maxFrame, streamId, q) ==>
                        !AsksFor(packets[j], maxFrame, streamId, q)
  }

  /**
   A timeout check puts on the wire exactly one datagram for every due request, which the publisher decodes to that
   request, and nothing else; if a due request is out of retries it puts nothing on the wire at all.
   */
  lemma TickOnTheWire(rx: Receiver, subMaxFrame: nat, pubMaxFrame: nat, now: nat, turn: Turn)
    requires Ticked(rx, subMaxFrame, now, turn) && RequestsSound(rx.engine)
    requires rx.engine.nextRequestId <= 0x1_0000_0000_0000_0000 && 72 <= subMaxFrame && 72 <= pubMaxFrame
    ensures if exists id :: Recovery.Due(rx.engine, id, now) && Recovery.Exhausted(rx.engine, id)
            then turn.packets == []
            else
              && EveryDueAsked(turn.packets, pubMaxFrame, rx.streamId, rx.engine, now)
              && OnlyDueAsked(turn.packets, pubMaxFrame, rx.streamId, rx.engine, now)
              && NoneTwice(turn.packets, pubMaxFrame, rx.streamId)
  {
    var r :| Recovery.Swept(rx.engine, now, turn.rx.engine, r)
             && turn.rx == rx.(engine := turn.rx.engine)
             && turn.packets == if r.Ok? then SentRequests(rx.streamId, subMaxFrame, r.value) else [];
    if r.Ok? {
      ListOnTheWire(rx, subMaxFrame, pubMaxFrame, now, r.value);
    }
  }

  lemma ListOnTheWire(rx: Receiver, subMaxFrame: nat, pubMaxFrame: nat, now: nat, qs: seq<RequestPayload>)
    requires RequestsSound(rx.engine) && Recovery.ListsRetries(rx.engine, now, qs)
    requires forall id :: Recovery.Due(rx.engine, id, now) ==> !Recovery.Exhausted(rx.engine, id)
    requires rx.engine.nextRequestId <= 0x1_0000_0000_0000_0000 && 72 <= subMaxFrame && 72 <= pubMaxFrame
    ensures var packets := SentRequests(rx.streamId, subMaxFrame, qs);
            && EveryDueAsked(packets, pubMaxFrame, rx.streamId, rx.engine, now)
            && OnlyDueAsked(packets, pubMaxFrame, rx.streamId, rx.engine, now)
            && NoneTwice(packets, pubMaxFrame, rx.streamId)
  {
    var packets, streamId := SentRequests(rx.streamId, subMaxFrame, qs), rx.streamId;
    ListFacts(rx.engine, now, qs);
    RequestsOnTheWire(streamId, subMaxFrame, pubMaxFrame, qs);
    hide AsksFor, SentRequests, RequestsSound, Recovery.ListsRetries, Recovery.Exhausted, Recovery.Due, EveryDueAsked,
         OnlyDueAsked, NoneTwice;
    DueFromList(packets, pubMaxFrame, streamId, rx.engine, now, qs);
    NoTwoAlike(packets, pubMaxFrame, streamId, qs);
  }

  lemma DueFromList(packets: seq<Packet>, maxFrame: nat, streamId: u64, e: Recovery.Engine, now: nat,
                    qs: seq<RequestPayload>)
    requires |packets| == |qs| && forall i :: 0 <= i < |qs| ==> AsksFor(packets[i], maxFrame, streamId, qs[i])
    requires forall i :: 0 <= i < |qs| ==>
               Recovery.Due(e, qs[i].requestId, now) && qs[i].requestId in e.outstanding
               && qs[i] == Open(e, qs[i].requestId)
    requires forall id :: Recovery.Due(e, id, now) ==> id in e.outstanding && Open(e, id) in qs
    ensures EveryDueAsked(packets, maxFrame, streamId, e, now)
    ensures OnlyDueAsked(packets, maxFrame, streamId, e, now)
  {
    hide AsksFor, Recovery.Due;
    forall id | Recovery.Due(e, id, now)
      ensures Asked(packets, maxFrame, streamId, Open(e, id))
    {
      var i :| 0 <= i < |qs| && qs[i] == Open(e, id);
      assert AsksFor(packets[i], maxFrame, streamId, Open(e, id));
    }
    forall i | 0 <= i < |packets|
      ensures AsksForDue(packets[i], maxFrame, streamId, e, now)
    {
      assert AsksFor(packets[i], maxFrame, streamId, Open(e, qs[i].requestId));
    }
  }

  /** The list holds the open request of every due id, once each. */
  lemma ListFacts(e: Recovery.Engine, now: nat, qs: seq<RequestPayload>)
    requires RequestsSound(e) && Recovery.ListsRetries(e, now, qs) && e.nextRequestId <= 0x1_0000_0000_0000_0000
    requires forall id :: Recovery.Due(e, id, now) ==> !Recovery.Exhausted(e, id)
    ensures forall q :: q in qs ==> Sendable64(q)
    ensures forall i :: 0 <= i < |qs| ==>
              Recovery.Due(e, qs[i].requestId, now) && qs[i].requestId in e.outstanding
              && qs[i] == Open(e, qs[i].requestId)
    ensures forall id :: Recovery.Due(e, id, now) ==> id in e.outstanding && Open(e, id) in qs
    ensures forall i, j :: 0 <= i < j < |qs| ==> qs[i] != qs[j]
  {
    hide Recovery.Exhausted;
    forall i | 0 <= i < |qs|
      ensures Recovery.Due(e, qs[i].requestId, now) && qs[i].requestId in e.outstanding
              && qs[i] == Open(e, qs[i].requestId)
    {
      assert qs[i] in qs;
    }
    forall id | Recovery.Due(e, id, now)
      ensures id in e.outstanding && Open(e, id) in qs
    {
      assert Recovery.PayloadOf(e, id) == Open(e, id);
    }
  }

  lemma NoTwoAlike(packets: seq<Packet>, maxFrame: nat, streamId: u64, qs: seq<RequestPayload>)
    requires |packets| == |qs| && forall i :: 0 <= i < |qs| ==> AsksFor(packets[i], maxFrame, streamId, qs[i])
    requires forall i, j :: 0 <= i < j < |qs| ==> qs[i] != qs[j]
    ensures NoneTwice(packets, maxFrame, streamId)
  {
    hide AsksFor;
    forall i, j, q | 0 <= i < j < |packets| && AsksFor(packets[i], maxFrame, streamId, q)
      ensures !AsksFor(packets[j], maxFrame, streamId, q)
    {
      AsksForOne(packets[i], maxFrame, streamId, q, qs[i]);
      if AsksFor(packets[j], maxFrame, streamId, q) {
        AsksForOne(packets[j], maxFrame, streamId, q, qs[j]);
      }
    }
  }

  // ---------------------------------------------------------------- answers

  /** A subscriber with this frame limit reads the datagram as the answer to request id that carries the message. */
  ghost predicate Answers(p: Packet, maxFrame: nat, id: nat, m: Message) {
    && Headed(p, maxFrame, MessageType.ReplayResponse, m.streamId, m.publisherId, m.sequence, m.timestampNs)
    && var payload := Viewed(maxFrame, p).value.payload;
       |payload| >= 8 && BigEndian.ReadU64(payload[..8]) == id && payload[8..] == m.payload
  }

  /** Header, request id and payload fit the frame limit and the 1500-byte send buffer. */
  predicate Answerable(maxFrame: nat, m: Message) {
    56 + |m.payload| <= maxFrame && 56 + |m.payload| <= 1500
  }

  function AnswerableOf(maxFrame: nat, ms: seq<Message>): seq<Message> {
    if |ms| == 0 then []
    else AnswerableOf(maxFrame, ms[..|ms| - 1]) + if Answerable(maxFrame, ms[|ms| - 1]) then [ms[|ms| - 1]] else []
  }

  lemma AnswerOnTheWire(pubMaxFrame: nat, subMaxFrame: nat, id: u64, f: OwnedFrame, m: Message)
    requires IsData(f) && Carries(f, m) && 1500 <= subMaxFrame
    ensures var packets := Sent(Checked(pubMaxFrame), ResponseFrame(id, f), SEND_BUFFER);
            if Answerable(pubMaxFrame, m) then |packets| == 1 && Answers(packets[0], subMaxFrame, id, m)
            else packets == []
  {
    var g := ResponseFrame(id, f);
    AnswerSize(pubMaxFrame, g);
    if Answerable(pubMaxFrame, m) {
      ProtocolOrder.ResponseWellFormed(id, f);
      Codec.DecodeEncode(Checked(subMaxFrame), g, SEND_BUFFER);
      ProtocolOrder.RequestIdRestored(id, f.payload);
      assert Viewed(subMaxFrame, Codec.Bytes(Codec.Filled(g))) == Ok(Codec.Filled(g));
      hide Codec.Bytes, Codec.Filled, BigEndian.ReadU64, BigEndian.Write, Headed, Viewed, Sent;
      HeadedAs(g, Codec.Bytes(Codec.Filled(g)), subMaxFrame);
    }
  }

  lemma AnswerSize(maxFrame: nat, g: OwnedFrame)
    requires g.extensionBytes == []
    ensures Sent(Checked(maxFrame), g, SEND_BUFFER)
         == if 48 + |g.payload| <= maxFrame && 48 + |g.payload| <= 1500 then [Codec.Bytes(Codec.Filled(g))] else []
  {
    FilledSize(g);
    hide Crc32c.Checksum, Headers.EncodeHeader, Codec.Filled;
  }

  lemma FilledSize(g: OwnedFrame)
    ensures |Codec.Bytes(Codec.Filled(g))| == 48 + |g.extensionBytes| + |g.payload|
  {
    hide Crc32c.Checksum, Headers.EncodeHeader;
  }

  /** The answers to a request: one for every frame that fits, in order, and no more. */
  lemma {:induction false} AnswersOnTheWire(pub: Publisher, subMaxFrame: nat, id: u64, fs: seq<OwnedFrame>,
                                            ms: seq<Message>)
    requires CarriesAll(fs, ms) && (forall f :: f in fs ==> IsData(f)) && 1500 <= subMaxFrame
    ensures var packets, answered := Responses(pub, id, fs), AnswerableOf(pub.maxFrame, ms);
            && |packets| == |answered|
            && forall i :: 0 <= i < |packets| ==> Answers(packets[i], subMaxFrame, id, answered[i])
    decreases |fs|
  {
    hide Answers, Sent, ResponseFrame, Carries, IsData;
    if |fs| != 0 {
      var n := |fs| - 1;
      assert fs[n] in fs && forall f :: f in fs[..n] ==> f in fs;
      AnswersOnTheWire(pub, subMaxFrame, id, fs[..n], ms[..n]);
      AnswerOnTheWire(pub.maxFrame, subMaxFrame, id, fs[n], ms[n]);
    }
  }

  lemma {:induction false} AllAnswerable(maxFrame: nat, ms: seq<Message>)
    requires forall i :: 0 <= i < |ms| ==> Answerable(maxFrame, ms[i])
    ensures AnswerableOf(maxFrame, ms) == ms
  {
    if |ms| != 0 {
      AllAnswerable(maxFrame, ms[..|ms| - 1]);
      assert ms == ms[..|ms| - 1] + [ms[|ms| - 1]];
    }
  }

  /**
   In every run, a request for a range inside the retention window is answered with exactly the publications of that
   range under the current identity that fit, in order, one datagram each: with all of them if all fit.
   */
  lemma WindowIsAnswered(run: Run, q: RequestPayload, subMaxFrame: nat)
    requires Valid(run) && q.requestId < 0x1_0000_0000_0000_0000 && 1500 <= subMaxFrame
    requires |Now(run).pub.ring.slots| > 0
    requires ProtocolOrder.Oldest(|Recent(run)|, |Now(run).pub.ring.slots|) <= q.fromSequence <= q.toSequence
    requires q.toSequence <= |Recent(run)|
    ensures var pub, range := Now(run).pub, Recent(run)[q.fromSequence - 1..q.toSequence];
            var packets, answered := Served(pub, q), AnswerableOf(pub.maxFrame, range);
            && |packets| == |answered|
            && (forall i :: 0 <= i < |packets| ==> Answers(packets[i], subMaxFrame, q.requestId, answered[i]))
            && ((forall i :: 0 <= i < |range| ==> Answerable(pub.maxFrame, range[i])) ==> answered == range)
  {
    var pub, range := Now(run).pub, Recent(run)[q.fromSequence - 1..q.toSequence];
    var fs := RetainedRange(run, q.fromSequence, q.toSequence);
    hide Valid, ProtocolOrder.Oldest, RetentionRing.Range, Answers, Answerable, IsData, CarriesAll;
    AnswersOnTheWire(pub, subMaxFrame, q.requestId, fs, range);
    if forall i :: 0 <= i < |range| ==> Answerable(pub.maxFrame, range[i]) {
      AllAnswerable(pub.maxFrame, range);
    }
  }

  /** The retained frames of a range inside the window carry its publications. */
  lemma RetainedRange(run: Run, low: nat, high: nat) returns (fs: seq<OwnedFrame>)
    requires Valid(run) && |Now(run).pub.ring.slots| > 0
    requires ProtocolOrder.Oldest(|Recent(run)|, |Now(run).pub.ring.slots|) <= low <= high <= |Recent(run)|
    ensures 1 <= low && RetentionRing.Range(Now(run).pub.ring, low, high) == RetentionRing.Retained(fs)
    ensures CarriesAll(fs, Recent(run)[low - 1..high]) && forall f :: f in fs ==> IsData(f)
  {
    ProtocolOrder.ReplayServesWindow(run, low, high);
    fs := RetentionRing.Range(Now(run).pub.ring, low, high).frames;
    RetainedAreData(run, low, high);
    CarriedSlice(ProtocolOrder.Current(run), Recent(run), low - 1, high);
  }

  lemma CarriedSlice(fs: seq<OwnedFrame>, ms: seq<Message>, i: nat, j: nat)
    requires CarriesAll(fs, ms) && i <= j <= |fs|
    ensures CarriesAll(fs[i..j], ms[i..j])
  {}

  lemma RetainedAreData(run: Run, low: nat, high: nat)
    requires Valid(run) && low <= high && |Now(run).pub.ring.slots| > 0
    requires RetentionRing.Range(Now(run).pub.ring, low, high).Retained?
    ensures forall f :: f in RetentionRing.Range(Now(run).pub.ring, low, high).frames ==> IsData(f)
  {
    RunKeepsIntegrity(run);
    RangeFromLog(Now(run).pub.ring, Now(run).log, low, high);
  }

  // ---------------------------------------------------------------- refusals

  /** A subscriber with this frame limit reads the datagram as this notice. */
  ghost predicate Refuses(p: Packet, maxFrame: nat, streamId: u64, publisherId: u64, u: UnavailablePayload) {
    && Headed(p, maxFrame, MessageType.ReplayUnavailable, streamId, publisherId, 0, 0)
    && DecodeUnavailable(Viewed(maxFrame, p).value.payload) == Ok(u)
  }

  /** What a refusal names, n publications after the last restart: what has gone, or else what is yet to come. */
  function RefusedPart(n: nat, capacity: nat, low: nat, high: nat): (nat, nat) {
    if n == 0 then if high == 0 then (0, 0) else (1, high)
    else if low < ProtocolOrder.Oldest(n, capacity) then (low, ProtocolOrder.Oldest(n, capacity) - 1)
    else (n + 1, high)
  }

  function FirstIdentity(run: Run): u64 {
    match run
    case Start(s) => s.pub.publisherId
    case Then(before, _, _) => FirstIdentity(before)
  }

  lemma {:induction false} ReplayIdentityIsFirst(run: Run)
    requires Valid(run)
    ensures Now(run).pub.replayPublisherId == FirstIdentity(run) && Now(run).pub.streamId == Stream(run)
  {
    if run.Then? {
      ReplayIdentityIsFirst(run.before);
      TickLeavesPublisher(Now(run.before), run.event, run.system);
    }
  }

  lemma RefusedRange(run: Run, low: nat, high: nat)
    requires Valid(run) && low <= high && |Now(run).pub.ring.slots| > 0
    requires RetentionRing.Range(Now(run).pub.ring, low, high).Unavailable?
    ensures var (a, b) := RefusedPart(|Recent(run)|, |Now(run).pub.ring.slots|, low, high);
            RetentionRing.Range(Now(run).pub.ring, low, high) == RetentionRing.Unavailable(a, b)
  {
    var pub, current := Now(run).pub, ProtocolOrder.Current(run);
    var capacity := |pub.ring.slots|;
    ProtocolOrder.RingHoldsCurrent(run);
    ProtocolOrder.CurrentCarries(run);
    RetentionRing.RangeRefused(capacity, current, low, high);
    if |current| > 0 {
      RetentionRing.ConsecutivePushes(capacity, current, low, high);
    }
  }

  /**
   In every run, any other request is refused with one datagram: a notice under the stream and the identity the publisher
   was started with, for that request, naming the part that has gone or is yet to come.
   */
  lemma OutsideWindowIsRefused(run: Run, q: RequestPayload, subMaxFrame: nat)
    requires Valid(run) && |Now(run).pub.ring.slots| > 0 && 72 <= subMaxFrame && 72 <= Now(run).pub.maxFrame
    requires q.fromSequence <= q.toSequence && FitWords(q.requestId, q.fromSequence, q.toSequence)
    requires |Recent(run)| < 0xFFFF_FFFF_FFFF_FFFF
    requires !(ProtocolOrder.Oldest(|Recent(run)|, |Now(run).pub.ring.slots|) <= q.fromSequence
               && q.toSequence <= |Recent(run)|)
    ensures var pub := Now(run).pub;
            var (a, b) := RefusedPart(|Recent(run)|, |pub.ring.slots|, q.fromSequence, q.toSequence);
            var packets := Served(pub, q);
            |packets| == 1
            && Refuses(packets[0], subMaxFrame, Stream(run), FirstIdentity(run),
                       UnavailablePayload(q.requestId, a, b))
  {
    var pub := Now(run).pub;
    ProtocolOrder.ReplayServesWindow(run, q.fromSequence, q.toSequence);
    RefusedRange(run, q.fromSequence, q.toSequence);
    ReplayIdentityIsFirst(run);
    var (a, b) := RefusedPart(|Recent(run)|, |pub.ring.slots|, q.fromSequence, q.toSequence);
    NoticeOnTheWire(pub, subMaxFrame, UnavailablePayload(q.requestId, a, b));
  }

  lemma NoticeOnTheWire(pub: Publisher, subMaxFrame: nat, u: UnavailablePayload)
    requires FitWords(u.requestId, u.firstUnavailable, u.lastUnavailable) && 72 <= subMaxFrame && 72 <= pub.maxFrame
    ensures var packets := Sent(Checked(pub.maxFrame), UnavailableFrame(pub, u), SEND_BUFFER);
            |packets| == 1 && Refuses(packets[0], subMaxFrame, pub.streamId, pub.replayPublisherId, u)
  {
    var g := UnavailableFrame(pub, u);
    ProtocolOrder.UnavailableWellFormed(pub, u);
    ProtocolOrder.ControlFrameViewed(g, pub.maxFrame);
    ProtocolOrder.ControlFrameViewed(g, subMaxFrame);
    UnavailableRoundTrip(u);
    hide Codec.Bytes, Codec.Filled, DecodeUnavailable, EncodeUnavailable, Sent, Headed, Viewed;
    HeadedAs(g, Codec.Bytes(Codec.Filled(g)), subMaxFrame);
  }

  /** The replay thread answers nothing but decodable requests, and those as they are meant. */
  lemma OnlyRequestsAreAnswered(pub: Publisher, packet: Packet)
    requires |pub.ring.slots| > 0
    ensures if exists streamId, q :: AsksFor(packet, pub.maxFrame, streamId, q)
            then forall streamId, q :: AsksFor(packet, pub.maxFrame, streamId, q) ==>
                                         Replies(pub, packet) == Served(pub, q)
            else Replies(pub, packet) == []
  {
    hide Codec.DecodeFrame, Served, DecodeRequest;
    var view := Viewed(pub.maxFrame, packet);
    if view.Ok? && view.value.header.messageType == MessageType.ReplayRequest {
      var r := DecodeRequest(view.value.payload);
      if r.Ok? {
        assert AsksFor(packet, pub.maxFrame, view.value.header.streamId, r.value);
      }
    }
  }
}
