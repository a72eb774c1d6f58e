/** Publisher and subscriber of the UDP transport; sockets are replaced by lists of datagrams to send. */
module Transport {
  import opened Outcomes
  import opened Frames
  import opened ReplayPayloads
  import opened Delivery
  import BigEndian
  import Codec
  import Recovery
  import RetentionRing

  type Packet = seq<byte>

  /** The 16-bit length field of a UDP datagram counts its 8-byte header too. */
  const MAX_DATAGRAM := 0xFFFF - 8
  const SEND_BUFFER := 1500

  /** What one attempt to encode and send puts on the network. */
  function Sent(cfg: Codec.Config, f: OwnedFrame, bufferLength: nat): seq<Packet> {
    var r := Codec.EncodeFrame(cfg, f, bufferLength);
    if r.Ok? && |r.value| <= MAX_DATAGRAM then [r.value] else []
  }

  /** A datagram longer than the receive buffer loses its tail. */
  function Received(packet: Packet, bufferLength: nat): Packet {
    if |packet| <= bufferLength then packet else packet[..bufferLength]
  }

  method Transmit(cfg: Codec.Config, f: OwnedFrame, bufferLength: nat) returns (packets: seq<Packet>)
    ensures packets == Sent(cfg, f, bufferLength)
  {
    var buf := new byte[bufferLength](_ => 0);
    var r := Codec.Encode(cfg, f, buf);
    if r.Err? {
      return [];
    }
    assert buf[..r.value] == Codec.EncodeFrame(cfg, f, bufferLength).value;
    if r.value > MAX_DATAGRAM {
      return [];
    }
    return [buf[..r.value]];
  }

  // ---------------------------------------------------------------- publisher

  datatype Publisher = Publisher(
    streamId: u64,
    publisherId: u64,
    replayPublisherId: u64,
    maxFrame: nat,
    nextSequence: nat,
    ring: RetentionRing.Ring)

  function Checked(maxFrame: nat): Codec.Config {
    Codec.Config(maxFrame, true)
  }

  function NewPublisher(streamId: u64, publisherId: u64, capacity: nat, maxFrame: nat): Publisher {
    Publisher(streamId, publisherId, publisherId, maxFrame, 1, RetentionRing.Empty(capacity))
  }

  /** The sequence counter must not be exhausted. */
  predicate CanPublish(p: Publisher) {
    p.nextSequence < 0xFFFF_FFFF_FFFF_FFFF && |p.ring.slots| > 0
  }

  function NextFrame(p: Publisher, payload: seq<byte>, timestampNs: u64): OwnedFrame
    requires CanPublish(p)
  {
    NewData(p.streamId, p.nextSequence, timestampNs, p.publisherId, payload)
  }

  /** The frame is retained before it is encoded, so it is kept even when it is too large to send. */
  function Published(p: Publisher, payload: seq<byte>, timestampNs: u64): (Publisher, seq<Packet>)
    requires CanPublish(p)
  {
    var f := NextFrame(p, payload, timestampNs);
    (p.(nextSequence := p.nextSequence + 1, ring := RetentionRing.Pushed(p.ring, f)),
     Sent(Checked(p.maxFrame), f, p.maxFrame))
  }

  /** What publishing reports: the sequence, or why the frame did not go out. */
  function PublishResult(p: Publisher, payload: seq<byte>, timestampNs: u64): Result<nat>
    requires CanPublish(p)
  {
    var packet :- Codec.EncodeFrame(Checked(p.maxFrame), NextFrame(p, payload, timestampNs), p.maxFrame);
    if |packet| <= MAX_DATAGRAM then Ok(p.nextSequence) else Err(Io)
  }

  /** Publishing succeeds exactly when header and payload fit frame limit and datagram; the frame is retained anyway. */
  lemma PublishOutcome(p: Publisher, payload: seq<byte>, timestampNs: u64)
    requires CanPublish(p)
    ensures var (p', packets), r := Published(p, payload, timestampNs), PublishResult(p, payload, timestampNs);
            && (r.Ok? <==> 48 + |payload| <= p.maxFrame && 48 + |payload| <= MAX_DATAGRAM)
            && (r.Ok? ==> r.value == p.nextSequence && |packets| == 1 && |packets[0]| == 48 + |payload|)
            && (r.Err? ==> packets == [])
            && (r.Err? ==> r.error == if 48 + |payload| > p.maxFrame then Outcomes.Protocol(FrameTooLarge) else Io)
            && p'.ring.slots[p.nextSequence % |p.ring.slots|] == Some(NextFrame(p, payload, timestampNs))
            && p'.nextSequence == p.nextSequence + 1
  {}

  /** The replay thread keeps announcing the identity it was started with. */
  function Restarted(p: Publisher, newPublisherId: u64): Publisher {
    p.(publisherId := newPublisherId, nextSequence := 1, ring := RetentionRing.Empty(|p.ring.slots|))
  }

  /** The response to one request for one retained frame. */
  function ResponseFrame(requestId: nat, f: OwnedFrame): OwnedFrame {
    var payload := BigEndian.Write(8, requestId) + f.payload;
    OwnedFrame(NewHeader(MessageType.ReplayResponse, f.header.streamId, f.header.sequence, f.header.timestampNs,
                         f.header.publisherId, |payload| % 0x1_0000_0000),
               [], payload)
  }

  function Responses(p: Publisher, requestId: nat, fs: seq<OwnedFrame>): seq<Packet> {
    if |fs| == 0 then []
    else Responses(p, requestId, fs[..|fs| - 1])
         + Sent(Checked(p.maxFrame), ResponseFrame(requestId, fs[|fs| - 1]), SEND_BUFFER)
  }

  function UnavailableFrame(p: Publisher, u: UnavailablePayload): OwnedFrame {
    OwnedFrame(NewHeader(MessageType.ReplayUnavailable, p.streamId, 0, 0, p.replayPublisherId, 24), [],
               EncodeUnavailable(u))
  }

  function Served(p: Publisher, q: RequestPayload): seq<Packet>
    requires |p.ring.slots| > 0
  {
    match RetentionRing.Range(p.ring, q.fromSequence, q.toSequence)
    case Retained(fs) => Responses(p, q.requestId, fs)
    case Unavailable(first, last) =>
      Sent(Checked(p.maxFrame), UnavailableFrame(p, UnavailablePayload(q.requestId, first, last)), SEND_BUFFER)
  }

  /** The publisher's replay thread on one datagram. */
  function Replies(p: Publisher, packet: Packet): seq<Packet>
    requires |p.ring.slots| > 0
  {
    match Codec.DecodeFrame(Checked(p.maxFrame), Received(packet, p.maxFrame))
    case Err(_) => []
    case Ok(view) =>
      if view.header.messageType != MessageType.ReplayRequest then []
      else
        match DecodeRequest(view.payload)
        case Err(_) => []
        case Ok(q) => Served(p, q)
  }

  class UdpPublisher {
    const streamId: u64
    var publisherId: u64
    const replayPublisherId: u64
    const maxFrame: nat
    var sequenceCounter: nat
    const ring: RetentionRing.BoundedRingBuffer

    ghost predicate Valid()
      reads this
    {
      ring.Valid()
    }

    ghost function Model(): Publisher
      reads this, ring, ring.buffer
    {
      Publisher(streamId, publisherId, replayPublisherId, maxFrame, sequenceCounter, ring.Model())
    }

    constructor (streamId: u64, publisherId: u64, capacity: nat, maxFrame: nat)
      requires capacity > 0
      ensures Valid() && Model() == NewPublisher(streamId, publisherId, capacity, maxFrame)
      ensures fresh(ring) && fresh(ring.buffer)
    {
      this.streamId := streamId;
      this.publisherId := publisherId;
      this.replayPublisherId := publisherId;
      this.maxFrame := maxFrame;
      sequenceCounter := 1;
      ring := new RetentionRing.BoundedRingBuffer(capacity);
    }

    method Publish(payload: seq<byte>, timestampNs: u64) returns (r: Result<nat>, packets: seq<Packet>)
      requires Valid() && CanPublish(Model())
      modifies this, ring, ring.buffer
      ensures Valid()
      ensures (Model(), packets) == Published(old(Model()), payload, timestampNs)
      ensures r == PublishResult(old(Model()), payload, timestampNs)
    {
      hide Codec.EncodeFrame, RetentionRing.Pushed;
      var n := sequenceCounter;
      sequenceCounter := sequenceCounter + 1;
      var f := NewData(streamId, n, timestampNs, publisherId, payload);
      ring.Push(f);
      var buf := new byte[maxFrame](_ => 0);
      var encoded := Codec.Encode(Checked(maxFrame), f, buf);
      if encoded.Err? {
        return Err(encoded.error), [];
      }
      assert buf[..encoded.value] == Codec.EncodeFrame(Checked(maxFrame), f, maxFrame).value;
      if encoded.value > MAX_DATAGRAM {
        return Err(Io), [];
      }
      return Ok(n), [buf[..encoded.value]];
    }

    method RestartWithNewPublisherId(newPublisherId: u64)
      requires Valid()
      modifies this, ring, ring.buffer
      ensures Valid()
      ensures Model() == Restarted(old(Model()), newPublisherId)
    {
      publisherId := newPublisherId;
      sequenceCounter := 1;
      ring.Clear();
    }

    method HandleReplayRequest(q: RequestPayload) returns (packets: seq<Packet>)
      requires Valid() && q.fromSequence <= q.toSequence
      ensures packets == Served(Model(), q)
    {
      var range := ring.GetRange(q.fromSequence, q.toSequence);
      match range {
        case Retained(frames) =>
          packets := [];
          for i := 0 to |frames|
            invariant packets == Responses(Model(), q.requestId, frames[..i])
          {
            var one := Transmit(Checked(maxFrame), ResponseFrame(q.requestId, frames[i]), SEND_BUFFER);
            assert frames[..i + 1][..i] == frames[..i];
            packets := packets + one;
          }
          assert frames[..|frames|] == frames;
        case Unavailable(first, last) =>
          var notice := UnavailablePayload(q.requestId, first, last);
          var payload := new byte[24](_ => 0);
          var wrote := EncodeInto(q.requestId, first, last, payload);
          assert payload[..] == EncodeUnavailable(notice);
          var header := NewHeader(MessageType.ReplayUnavailable, streamId, 0, 0, replayPublisherId, 24);
          var f := OwnedFrame(header, [], payload[..]);
          packets := Transmit(Checked(maxFrame), f, SEND_BUFFER);
      }
    }

    /** One turn of the replay thread: the datagram sits in the receive buffer. */
    method OnPacket(packet: Packet) returns (packets: seq<Packet>)
      requires Valid()
      ensures packets == Replies(Model(), packet)
    {
      var buf := Fill(Received(packet, maxFrame));
      var view := Codec.Decode(Checked(maxFrame), buf);
      if view.Err? || view.value.header.messageType != MessageType.ReplayRequest {
        return [];
      }
      var q := DecodeRequest(view.value.payload);
      if q.Err? {
        return [];
      }
      packets := HandleReplayRequest(q.value);
    }
  }

  method Fill(s: seq<byte>) returns (buf: array<byte>)
    ensures fresh(buf) && buf[..] == s
  {
    buf := new byte[|s|](i requires 0 <= i < |s| => s[i]);
  }

  // ---------------------------------------------------------------- subscriber

  function RequestFrame(streamId: u64, q: RequestPayload): OwnedFrame {
    OwnedFrame(NewHeader(MessageType.ReplayRequest, streamId, 0, 0, 0, 24), [], EncodeRequest(q))
  }

  function SentRequest(streamId: u64, maxFrame: nat, q: RequestPayload): seq<Packet> {
    Sent(Checked(maxFrame), RequestFrame(streamId, q), SEND_BUFFER)
  }

  function SentRequests(streamId: u64, maxFrame: nat, qs: seq<RequestPayload>): seq<Packet> {
    if |qs| == 0 then []
    else SentRequests(streamId, maxFrame, qs[..|qs| - 1]) + SentRequest(streamId, maxFrame, qs[|qs| - 1])
  }

  /** The DATA frame a response stands for: the request id is cut off the payload. */
  function Recovered(view: OwnedFrame): OwnedFrame
    requires |view.payload| >= 8
  {
    OwnedFrame(view.header.(messageType := Data), view.extensionBytes, view.payload[8..])
  }

  function RequestIdOf(view: OwnedFrame): u64
    requires |view.payload| >= 8
  {
    BigEndian.ReadU64(view.payload[0..8])
  }

  function HighestOf(highest: nat, fs: seq<OwnedFrame>): nat {
    if |fs| == 0 then highest else Max(HighestOf(highest, fs[..|fs| - 1]), fs[|fs| - 1].header.sequence)
  }

  /** The cursor becomes the highest sequence among itself and the frames handed out. */
  lemma {:induction false} HighestOfMeaning(highest: nat, fs: seq<OwnedFrame>)
    ensures var h := HighestOf(highest, fs);
            && highest <= h && (forall f :: f in fs ==> f.header.sequence <= h)
            && (h == highest || exists f :: f in fs && f.header.sequence == h)
  {
    if |fs| != 0 {
      HighestOfMeaning(highest, fs[..|fs| - 1]);
    }
  }

  /** The replay path goes straight to the recovery engine: tracker and duplicate filter never see the frame. */
  ghost function Replayed(rx: Receiver, requestId: nat, f: OwnedFrame): (Receiver, seq<OwnedFrame>) {
    var (engine, drained) := Recovery.Answered(rx.engine, requestId, f);
    match drained
    case None => (rx.(engine := engine), [])
    case Some(fs) => (rx.(engine := engine, highestDelivered := HighestOf(rx.highestDelivered, fs)), fs)
  }

  /** Receiver, frames handed to the application, datagrams sent. */
  datatype Turn = Turn(rx: Receiver, delivered: seq<OwnedFrame>, packets: seq<Packet>)

  ghost function DataTurn(rx: Receiver, maxFrame: nat, f: OwnedFrame, now: nat): Turn
    requires CanProcess(rx, f)
  {
    var (rx', r) := Processed(rx, f, now);
    match r
    case Err(_) => Turn(rx', [], [])
    case Ok(d) => Turn(rx', d.frames, if d.request.Some? then SentRequest(rx.streamId, maxFrame, d.request.value) else [])
  }

  /** Dispatch of a decoded frame. */
  ghost function Dispatched(rx: Receiver, maxFrame: nat, view: OwnedFrame, now: nat): Turn
    requires view.header.messageType == Data && view.header.streamId == rx.streamId ==> CanProcess(rx, view)
  {
    if view.header.streamId != rx.streamId && view.header.messageType != MessageType.ReplayUnavailable then
      Turn(rx, [], [])
    else
      match view.header.messageType
      case Data => DataTurn(rx, maxFrame, view, now)
      case ReplayResponse =>
        if |view.payload| < 8 then Turn(rx, [], [])
        else
          var (rx', fs) := Replayed(rx, RequestIdOf(view), Recovered(view));
          Turn(rx', fs, [])
      case ReplayUnavailable =>
        var u := DecodeUnavailable(view.payload);
        if u.Err? then Turn(rx, [], [])
        else Turn(rx.(engine := Recovery.Refused(rx.engine, u.value).0), [], [])
      case _ => Turn(rx, [], [])
  }

  function Viewed(maxFrame: nat, packet: Packet): Result<OwnedFrame> {
    Codec.DecodeFrame(Checked(maxFrame), Received(packet, maxFrame))
  }

  /** A datagram the worker can take: a DATA frame for its stream must not make the tracker underflow. */
  predicate CanHandle(rx: Receiver, maxFrame: nat, packet: Packet) {
    var view := Viewed(maxFrame, packet);
    view.Ok? && view.value.header.messageType == Data && view.value.header.streamId == rx.streamId ==>
      CanProcess(rx, view.value)
  }

  ghost function Handled(rx: Receiver, maxFrame: nat, packet: Packet, now: nat): Turn
    requires CanHandle(rx, maxFrame, packet)
  {
    var view := Viewed(maxFrame, packet);
    if view.Err? then Turn(rx, [], []) else Dispatched(rx, maxFrame, view.value, now)
  }

  /** The timeout check at the top of the worker loop. */
  ghost predicate Ticked(rx: Receiver, maxFrame: nat, now: nat, turn: Turn) {
    exists r :: Recovery.Swept(rx.engine, now, turn.rx.engine, r)
                && turn.rx == rx.(engine := turn.rx.engine)
                && turn.delivered == []
                && turn.packets == if r.Ok? then SentRequests(rx.streamId, maxFrame, r.value) else []
  }

  class UdpSubscriber {
    const rx: StreamReceiver
    const maxFrame: nat

    constructor (streamId: u64, mode: DeliveryMode, config: Recovery.Config, maxFrame: nat)
      ensures rx.Valid() && rx.Model() == NewReceiver(streamId, mode, config) && this.maxFrame == maxFrame
      ensures fresh(rx) && fresh(rx.tracker) && fresh(rx.dedup) && fresh(rx.recovery)
    {
      this.rx := new StreamReceiver(streamId, mode, config);
      this.maxFrame := maxFrame;
    }

    method SendReplayRequest(q: RequestPayload) returns (packets: seq<Packet>)
      ensures packets == SentRequest(rx.streamId, maxFrame, q)
    {
      var payload := new byte[24](_ => 0);
      var wrote := EncodeInto(q.requestId, q.fromSequence, q.toSequence, payload);
      assert payload[..] == EncodeRequest(q);
      var f := OwnedFrame(NewHeader(MessageType.ReplayRequest, rx.streamId, 0, 0, 0, 24), [], payload[..]);
      packets := Transmit(Checked(maxFrame), f, SEND_BUFFER);
    }

    method OnTick(now: nat) returns (packets: seq<Packet>)
      requires rx.Valid()
      modifies rx.recovery
      ensures rx.Valid()
      ensures Ticked(old(rx.Model()), maxFrame, now, Turn(rx.Model(), [], packets))
    {
      ghost var before := rx.Model();
      var r := rx.recovery.CheckTimeouts(now);
      assert rx.Model() == before.(engine := rx.recovery.Model());
      packets := [];
      if r.Ok? {
        packets := SendAll(r.value);
      }
    }

    method SendAll(qs: seq<RequestPayload>) returns (packets: seq<Packet>)
      ensures packets == SentRequests(rx.streamId, maxFrame, qs)
    {
      packets := [];
      for i := 0 to |qs|
        invariant packets == SentRequests(rx.streamId, maxFrame, qs[..i])
      {
        var one := SendReplayRequest(qs[i]);
        assert qs[..i + 1][..i] == qs[..i];
        packets := packets + one;
      }
      assert qs[..|qs|] == qs;
    }

    /** The body of the worker loop for one datagram. */
    method OnPacket(packet: Packet, now: nat) returns (delivered: seq<OwnedFrame>, packets: seq<Packet>)
      requires rx.Valid() && CanHandle(rx.Model(), maxFrame, packet)
      modifies rx, rx.tracker, rx.dedup, rx.recovery
      ensures rx.Valid()
      ensures Turn(rx.Model(), delivered, packets) == Handled(old(rx.Model()), maxFrame, packet, now)
    {
      var buf := Fill(Received(packet, maxFrame));
      var view := Codec.Decode(Checked(maxFrame), buf);
      delivered, packets := [], [];
      if view.Err? {
        return;
      }
      var f := view.value;
      if f.header.streamId != rx.streamId && f.header.messageType != MessageType.ReplayUnavailable {
        return;
      }
      match f.header.messageType {
        case Data =>
          var r := rx.ProcessDataFrame(f, now);
          if r.Ok? {
            delivered := r.value.frames;
            if r.value.request.Some? {
              packets := SendReplayRequest(r.value.request.value);
            }
          }
        case ReplayResponse =>
          if |f.payload| >= 8 {
            delivered := OnResponse(RequestIdOf(f), Recovered(f));
          }
        case ReplayUnavailable =>
          var u := DecodeUnavailable(f.payload);
          if u.Ok? {
            var r := rx.recovery.HandleReplayUnavailable(u.value);
          }
        case _ =>
      }
    }

    method OnResponse(requestId: nat, f: OwnedFrame) returns (delivered: seq<OwnedFrame>)
      requires rx.Valid()
      modifies rx, rx.recovery
      ensures rx.Valid()
      ensures (rx.Model(), delivered) == Replayed(old(rx.Model()), requestId, f)
    {
      ghost var before := rx.Model();
      var drained := rx.recovery.HandleReplayResponse(requestId, f);
      delivered := [];
      if drained.Some? {
        var fs := drained.value;
        for i := 0 to |fs|
          invariant rx.Valid()
          invariant rx.Model() == before.(engine := Recovery.Answered(before.engine, requestId, f).0,
                                          highestDelivered := HighestOf(before.highestDelivered, fs[..i]))
          invariant delivered == fs[..i]
        {
          assert fs[..i + 1][..i] == fs[..i];
          rx.highestDeliveredSequence := Max(rx.highestDeliveredSequence, fs[i].header.sequence);
          delivered := delivered + [fs[i]];
        }
        assert fs[..|fs|] == fs;
      }
    }
  }
}
