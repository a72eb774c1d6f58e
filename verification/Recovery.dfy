/** The recovery engine: outstanding replay requests, their retries, and the reorder buffer. */
module Recovery {
  import opened Outcomes
  import opened Frames
  import opened ReplayPayloads

  // ---------------------------------------------------------------- state

  /** Times are readings of a monotone clock passed in by the caller. */
  datatype Config = Config(retryTimeout: nat, maxRetries: nat, maxReplayRange: nat, maxOutstanding: nat)

  const DEFAULT_CONFIG := Config(50, 3, 1000, 16)

  datatype Mode = Live | Recovering | RecoveryFailed

  datatype ActiveRequest = ActiveRequest(
    requestId: nat,
    fromSequence: nat,
    toSequence: nat,
    createdAt: nat,
    lastSentAt: nat,
    retriesAttempted: nat,
    received: seq<nat>)

  type ReorderBuffer = map<nat, OwnedFrame>

  datatype Engine = Engine(
    config: Config,
    mode: Mode,
    nextRequestId: nat,
    outstanding: map<nat, ActiveRequest>,
    buffer: ReorderBuffer)

  function NewEngine(config: Config): Engine {
    Engine(config, Live, 1, map[], map[])
  }

  /** Frames are buffered under their own sequence. */
  ghost predicate Keyed(buffer: ReorderBuffer) {
    forall k :: k in buffer ==> buffer[k].header.sequence == k
  }

  // ---------------------------------------------------------------- operations

  function Buffered(e: Engine, f: OwnedFrame): Engine {
    e.(buffer := e.buffer[f.header.sequence := f])
  }

  /** Length of an inclusive range; a reversed one counts as length one. */
  function RangeLength(low: nat, high: nat): nat {
    if high >= low then high - low + 1 else 1
  }

  function Requested(e: Engine, low: nat, high: nat, now: nat): (Engine, Result<RequestPayload>) {
    if RangeLength(low, high) > e.config.maxReplayRange then
      (e, Err(Protocol(ReplayRangeInvalid)))
    else if |e.outstanding| >= e.config.maxOutstanding then
      (e, Err(Protocol(Backpressure)))
    else
      var id := e.nextRequestId;
      (e.(nextRequestId := id + 1,
          outstanding := e.outstanding[id := ActiveRequest(id, low, high, now, now, 0, [])],
          mode := Recovering),
       Ok(RequestPayload(id, low, high)))
  }

  predicate InRange(r: ActiveRequest, n: nat) {
    r.fromSequence <= n <= r.toSequence
  }

  /** The request after a response carrying sequence n. */
  function Noted(r: ActiveRequest, n: nat): ActiveRequest {
    if InRange(r, n) && n !in r.received then r.(received := r.received + [n]) else r
  }

  ghost predicate Complete(r: ActiveRequest) {
    forall n :: r.fromSequence <= n <= r.toSequence ==> n in r.received
  }

  ghost predicate Completes(e: Engine, id: nat, f: OwnedFrame) {
    id in e.outstanding && Complete(Noted(e.outstanding[id], f.header.sequence))
  }

  ghost predicate IsLeast(k: nat, s: set<nat>) {
    k in s && forall j :: j in s ==> k <= j
  }

  /** The least element of a nonempty set. */
  ghost function Least(s: set<nat>): (k: nat)
    requires s != {}
    ensures IsLeast(k, s)
  {
    LeastExists(s);
    var k :| IsLeast(k, s);
    k
  }

  lemma LeastExists(s: set<nat>)
    requires s != {}
    ensures exists k :: IsLeast(k, s)
  {
    var k := FindLeast(s);
  }

  lemma {:induction false} FindLeast(s: set<nat>) returns (k: nat)
    requires s != {}
    ensures IsLeast(k, s)
    decreases |s|
  {
    var x :| x in s;
    k := x;
    if !IsLeast(x, s) {
      var rest := s - {x};
      var y :| y in s && y < x;
      assert y in rest;
      k := FindLeast(rest);
      assert forall j :: j in s ==> j == x || j in rest;
    }
  }

  /** The buffered frames in order of their keys. */
  ghost function Ascending(buffer: ReorderBuffer): seq<OwnedFrame>
    decreases |buffer|
  {
    if buffer == map[] then [] else
      assert buffer.Keys != {};
      var k := Least(buffer.Keys);
      [buffer[k]] + Ascending(buffer - {k})
  }

  /** A response to a known request; the frames drained when it completes the request. */
  ghost function Answered(e: Engine, id: nat, f: OwnedFrame): (Engine, Option<seq<OwnedFrame>>) {
    if id !in e.outstanding then (e, None) else
      var r := Noted(e.outstanding[id], f.header.sequence);
      var buffer := e.buffer[f.header.sequence := f];
      if Complete(r) then
        var left := e.outstanding - {id};
        (e.(outstanding := left, mode := if left == map[] then Live else e.mode, buffer := map[]),
         Some(Ascending(buffer)))
      else
        (e.(outstanding := e.outstanding[id := r], buffer := buffer), None)
  }

  function Refused(e: Engine, u: UnavailablePayload): (Engine, Result<()>) {
    (e.(outstanding := e.outstanding - {u.requestId}, mode := RecoveryFailed),
     Err(UnrecoverableGap(u.firstUnavailable, u.lastUnavailable)))
  }

  function Elapsed(since: nat, now: nat): nat {
    if now >= since then now - since else 0
  }

  predicate Due(e: Engine, id: nat, now: nat) {
    id in e.outstanding && Elapsed(e.outstanding[id].lastSentAt, now) >= e.config.retryTimeout
  }

  predicate Exhausted(e: Engine, id: nat) {
    id in e.outstanding && e.outstanding[id].retriesAttempted >= e.config.maxRetries
  }

  function Retried(e: Engine, now: nat): map<nat, ActiveRequest> {
    map id | id in e.outstanding ::
      if Due(e, id, now) && !Exhausted(e, id)
      then e.outstanding[id].(retriesAttempted := e.outstanding[id].retriesAttempted + 1, lastSentAt := now)
      else e.outstanding[id]
  }

  function PayloadOf(e: Engine, id: nat): RequestPayload
    requires id in e.outstanding
  {
    RequestPayload(id, e.outstanding[id].fromSequence, e.outstanding[id].toSequence)
  }

  /** The list holds the payload of every due request with retries left, once each, in any order. */
  ghost predicate ListsRetries(e: Engine, now: nat, sent: seq<RequestPayload>) {
    && (forall i, j :: 0 <= i < j < |sent| ==> sent[i].requestId != sent[j].requestId)
    && (forall q :: q in sent ==> Due(e, q.requestId, now) && !Exhausted(e, q.requestId)
                                  && q == PayloadOf(e, q.requestId))
    && (forall id :: Due(e, id, now) && !Exhausted(e, id) ==> PayloadOf(e, id) in sent)
  }

  /** One timeout sweep. Requests are visited in any order; of those out of retries only one is dropped. */
  ghost predicate Swept(e: Engine, now: nat, e': Engine, r: Result<seq<RequestPayload>>) {
    match r
    case Ok(sent) =>
      && (forall id :: Due(e, id, now) ==> !Exhausted(e, id))
      && e' == e.(outstanding := Retried(e, now))
      && ListsRetries(e, now, sent)
    case Err(_) =>
      exists id :: Due(e, id, now) && Exhausted(e, id)
                   && e' == e.(outstanding := Retried(e, now) - {id}, mode := RecoveryFailed)
                   && r == Err(UnrecoverableGap(e.outstanding[id].fromSequence, e.outstanding[id].toSequence))
  }

  /** The frames buffered without a hole from `start` on, and what stays buffered. */
  function Drained(buffer: ReorderBuffer, start: nat): (seq<OwnedFrame>, ReorderBuffer)
    decreases |buffer|
  {
    if start in buffer then
      var (rest, left) := Drained(buffer - {start}, start + 1);
      ([buffer[start]] + rest, left)
    else
      ([], buffer)
  }

  function WasReset(e: Engine): Engine {
    e.(mode := Live, outstanding := map[], buffer := map[])
  }

  // ---------------------------------------------------------------- the engine itself

  class RecoveryEngine {
    const config: Config
    var mode: Mode
    var nextRequestId: nat
    var outstandingRequests: map<nat, ActiveRequest>
    var bufferedOutOfOrder: ReorderBuffer

    ghost function Model(): Engine
      reads this
    {
      Engine(config, mode, nextRequestId, outstandingRequests, bufferedOutOfOrder)
    }

    constructor (config: Config)
      ensures Model() == NewEngine(config)
    {
      this.config := config;
      mode := Live;
      nextRequestId := 1;
      outstandingRequests := map[];
      bufferedOutOfOrder := map[];
    }

    method BufferFrame(f: OwnedFrame)
      modifies this
      ensures Model() == Buffered(old(Model()), f)
    {
      bufferedOutOfOrder := bufferedOutOfOrder[f.header.sequence := f];
    }

    method CreateReplayRequest(low: nat, high: nat, now: nat) returns (r: Result<RequestPayload>)
      modifies this
      ensures (Model(), r) == Requested(old(Model()), low, high, now)
    {
      var rangeLen := RangeLength(low, high);
      if rangeLen > config.maxReplayRange {
        return Err(Protocol(ReplayRangeInvalid));
      }
      if |outstandingRequests| >= config.maxOutstanding {
        return Err(Protocol(Backpressure));
      }
      var requestId := nextRequestId;
      nextRequestId := nextRequestId + 1;
      var req := ActiveRequest(requestId, low, high, now, now, 0, []);
      outstandingRequests := outstandingRequests[requestId := req];
      mode := Recovering;
      return Ok(RequestPayload(requestId, low, high));
    }

    method HandleReplayResponse(requestId: nat, f: OwnedFrame) returns (drained: Option<seq<OwnedFrame>>)
      modifies this
      ensures (Model(), drained) == Answered(old(Model()), requestId, f)
    {
      if requestId !in outstandingRequests {
        return None;
      }
      var n := f.header.sequence;
      var req := outstandingRequests[requestId];
      if req.fromSequence <= n <= req.toSequence && n !in req.received {
        req := req.(received := req.received + [n]);
      }
      assert req == Noted(old(outstandingRequests)[requestId], n);
      outstandingRequests := outstandingRequests[requestId := req];
      bufferedOutOfOrder := bufferedOutOfOrder[n := f];
      var allArrived := true;
      var s := req.fromSequence;
      while s <= req.toSequence
        invariant req.fromSequence <= s
        invariant allArrived
        invariant forall k :: req.fromSequence <= k < s ==> k in req.received
        decreases req.toSequence + 1 - s
      {
        if s !in req.received {
          allArrived := false;
          break;
        }
        s := s + 1;
      }
      assert allArrived <==> Complete(req);
      if allArrived {
        outstandingRequests := outstandingRequests - {requestId};
        assert outstandingRequests == old(outstandingRequests) - {requestId};
        if outstandingRequests == map[] {
          mode := Live;
        }
        var frames := DrainBuffered();
        return Some(frames);
      }
      return None;
    }

    method HandleReplayUnavailable(u: UnavailablePayload) returns (r: Result<()>)
      modifies this
      ensures (Model(), r) == Refused(old(Model()), u)
    {
      outstandingRequests := outstandingRequests - {u.requestId};
      mode := RecoveryFailed;
      return Err(UnrecoverableGap(u.firstUnavailable, u.lastUnavailable));
    }

    method CheckTimeouts(now: nat) returns (r: Result<seq<RequestPayload>>)
      modifies this
      ensures Swept(old(Model()), now, Model(), r)
    {
      ghost var e := Model();
      var retries: seq<RequestPayload> := [];
      var failed: seq<RequestPayload> := [];
      var todo := outstandingRequests.Keys;
      while todo != {}
        invariant todo <= e.outstanding.Keys
        invariant mode == e.mode && nextRequestId == e.nextRequestId && bufferedOutOfOrder == e.buffer
        invariant Visited(e, now, todo, outstandingRequests)
        invariant RetriesSoFar(e, now, todo, retries)
        invariant FailuresSoFar(e, now, todo, failed)
        decreases |todo|
      {
        var id :| id in todo;
        var req := outstandingRequests[id];
        var payload := RequestPayload(id, req.fromSequence, req.toSequence);
        VisitedStep(e, now, todo, outstandingRequests, id);
        RetriesStep(e, now, todo, retries, id);
        FailuresStep(e, now, todo, failed, id);
        if Elapsed(req.lastSentAt, now) >= config.retryTimeout {
          if req.retriesAttempted >= config.maxRetries {
            failed := failed + [payload];
          } else {
            var again := req.(retriesAttempted := req.retriesAttempted + 1, lastSentAt := now);
            outstandingRequests := outstandingRequests[id := again];
            retries := retries + [payload];
          }
        }
        todo := todo - {id};
      }
      assert outstandingRequests == Retried(e, now);
      if |failed| > 0 {
        var q := failed[0];
        assert q in failed;
        outstandingRequests := outstandingRequests - {q.requestId};
        mode := RecoveryFailed;
        return Err(UnrecoverableGap(q.fromSequence, q.toSequence));
      }
      return Ok(retries);
    }

    method DrainContiguous(start: nat) returns (frames: seq<OwnedFrame>)
      modifies this
      ensures (frames, bufferedOutOfOrder) == Drained(old(bufferedOutOfOrder), start)
      ensures Model() == old(Model()).(buffer := bufferedOutOfOrder)
    {
      var current := start;
      frames := [];
      assert frames + Drained(bufferedOutOfOrder, current).0 == Drained(bufferedOutOfOrder, current).0;
      while current in bufferedOutOfOrder
        invariant Model() == old(Model()).(buffer := bufferedOutOfOrder)
        invariant Drained(old(bufferedOutOfOrder), start)
               == (frames + Drained(bufferedOutOfOrder, current).0, Drained(bufferedOutOfOrder, current).1)
        decreases |bufferedOutOfOrder|
      {
        ghost var rest := Drained(bufferedOutOfOrder - {current}, current + 1).0;
        assert frames + ([bufferedOutOfOrder[current]] + rest) == (frames + [bufferedOutOfOrder[current]]) + rest;
        frames := frames + [bufferedOutOfOrder[current]];
        bufferedOutOfOrder := bufferedOutOfOrder - {current};
        current := current + 1;
      }
      assert frames + [] == frames;
    }

    method DrainBuffered() returns (frames: seq<OwnedFrame>)
      modifies this
      ensures frames == Ascending(old(bufferedOutOfOrder))
      ensures Model() == old(Model()).(buffer := map[])
    {
      frames := ValuesInKeyOrder(bufferedOutOfOrder);
      bufferedOutOfOrder := map[];
    }

    method Reset()
      modifies this
      ensures Model() == WasReset(old(Model()))
    {
      mode := Live;
      outstandingRequests := map[];
      bufferedOutOfOrder := map[];
    }
  }

  /** Iterates over the buffer the way a sorted map does. */
  method ValuesInKeyOrder(buffer: ReorderBuffer) returns (frames: seq<OwnedFrame>)
    ensures frames == Ascending(buffer)
  {
    frames := [];
    var left := buffer;
    assert frames + Ascending(left) == Ascending(left);
    while left != map[]
      invariant Ascending(buffer) == frames + Ascending(left)
      decreases |left|
    {
      assert left.Keys != {};
      ghost var least := FindLeast(left.Keys);
      var k :| k in left && forall j :: j in left ==> k <= j;
      AscendingUnfold(left, k, frames);
      frames := frames + [left[k]];
      left := left - {k};
    }
    assert frames + [] == frames;
  }

  // ---------------------------------------------------------------- progress of a sweep

  ghost predicate Visited(e: Engine, now: nat, todo: set<nat>, outstanding: map<nat, ActiveRequest>) {
    && outstanding.Keys == e.outstanding.Keys
    && forall id :: id in outstanding ==>
         outstanding[id] == if id in todo then e.outstanding[id] else Retried(e, now)[id]
  }

  ghost predicate RetriesSoFar(e: Engine, now: nat, todo: set<nat>, sent: seq<RequestPayload>) {
    && (forall i, j :: 0 <= i < j < |sent| ==> sent[i].requestId != sent[j].requestId)
    && (forall q :: q in sent ==> q.requestId !in todo && Due(e, q.requestId, now)
                                  && !Exhausted(e, q.requestId) && q == PayloadOf(e, q.requestId))
    && (forall id :: id !in todo && Due(e, id, now) && !Exhausted(e, id) ==> PayloadOf(e, id) in sent)
  }

  ghost predicate FailuresSoFar(e: Engine, now: nat, todo: set<nat>, failed: seq<RequestPayload>) {
    && (forall q :: q in failed ==> Due(e, q.requestId, now) && Exhausted(e, q.requestId)
                                    && q == PayloadOf(e, q.requestId))
    && (forall id :: id !in todo && Due(e, id, now) && Exhausted(e, id) ==> PayloadOf(e, id) in failed)
  }

  lemma VisitedStep(e: Engine, now: nat, todo: set<nat>, outstanding: map<nat, ActiveRequest>, id: nat)
    requires Visited(e, now, todo, outstanding) && id in todo && id in e.outstanding
    ensures outstanding[id] == e.outstanding[id]
    ensures Visited(e, now, todo - {id}, outstanding[id := Retried(e, now)[id]])
    ensures Retried(e, now)[id] == outstanding[id] ==> Visited(e, now, todo - {id}, outstanding)
  {}

  lemma RetriesStep(e: Engine, now: nat, todo: set<nat>, sent: seq<RequestPayload>, id: nat)
    requires RetriesSoFar(e, now, todo, sent) && id in todo && id in e.outstanding
    ensures RetriesSoFar(e, now, todo - {id},
                         if Due(e, id, now) && !Exhausted(e, id) then sent + [PayloadOf(e, id)] else sent)
  {
    assert forall q :: q in sent ==> q.requestId != id;
  }

  lemma FailuresStep(e: Engine, now: nat, todo: set<nat>, failed: seq<RequestPayload>, id: nat)
    requires FailuresSoFar(e, now, todo, failed) && id in todo && id in e.outstanding
    ensures FailuresSoFar(e, now, todo - {id},
                          if Due(e, id, now) && Exhausted(e, id) then failed + [PayloadOf(e, id)] else failed)
  {}

  // ---------------------------------------------------------------- what the drains return

  ghost predicate IsRun(buffer: ReorderBuffer, start: nat, fs: seq<OwnedFrame>) {
    forall k :: start <= k < start + |fs| ==> k in buffer && fs[k - start] == buffer[k]
  }

  lemma RunExtends(buffer: ReorderBuffer, start: nat, rest: seq<OwnedFrame>)
    requires start in buffer && IsRun(buffer - {start}, start + 1, rest)
    ensures IsRun(buffer, start, [buffer[start]] + rest)
  {
    forall k | start <= k < start + 1 + |rest|
      ensures k in buffer && ([buffer[start]] + rest)[k - start] == buffer[k]
    {
      assert k == start || (k in buffer - {start} && rest[k - (start + 1)] == buffer[k]);
    }
  }

  /** A contiguous drain returns the maximal hole-free run and leaves everything else buffered. */
  lemma {:induction false} DrainedMeaning(buffer: ReorderBuffer, start: nat)
    ensures var (fs, left) := Drained(buffer, start);
            && IsRun(buffer, start, fs)
            && start + |fs| !in buffer
            && left.Keys == (set k | k in buffer && !(start <= k < start + |fs|))
            && forall k :: k in left ==> left[k] == buffer[k]
    decreases |buffer|
  {
    if start in buffer {
      DrainedMeaning(buffer - {start}, start + 1);
      RunExtends(buffer, start, Drained(buffer - {start}, start + 1).0);
    }
  }

  lemma AscendingUnfold(left: ReorderBuffer, k: nat, frames: seq<OwnedFrame>)
    requires k in left && forall j :: j in left ==> k <= j
    ensures frames + Ascending(left) == (frames + [left[k]]) + Ascending(left - {k})
  {
    assert k in left.Keys;
    assert k == Least(left.Keys);
  }

  ghost predicate StrictlyAscending(fs: seq<OwnedFrame>) {
    forall i, j :: 0 <= i < j < |fs| ==> fs[i].header.sequence < fs[j].header.sequence
  }

  ghost predicate Holds(buffer: ReorderBuffer, f: OwnedFrame) {
    f.header.sequence in buffer && buffer[f.header.sequence] == f
  }

  /** Draining everything returns each buffered frame once, in strictly ascending order. */
  lemma {:induction false} AscendingMeaning(buffer: ReorderBuffer)
    requires Keyed(buffer)
    ensures |Ascending(buffer)| == |buffer|
    ensures forall f :: f in Ascending(buffer) <==> Holds(buffer, f)
    ensures StrictlyAscending(Ascending(buffer))
    decreases |buffer|
  {
    if buffer != map[] {
      assert buffer.Keys != {};
      var k := Least(buffer.Keys);
      AscendingMeaning(buffer - {k});
      AscendingStep(buffer, k, Ascending(buffer - {k}));
    }
  }

  lemma AscendingStep(buffer: ReorderBuffer, k: nat, rest: seq<OwnedFrame>)
    requires Keyed(buffer) && IsLeast(k, buffer.Keys)
    requires StrictlyAscending(rest) && forall f :: f in rest <==> Holds(buffer - {k}, f)
    ensures forall f :: f in [buffer[k]] + rest <==> Holds(buffer, f)
    ensures StrictlyAscending([buffer[k]] + rest)
  {
    var fs := [buffer[k]] + rest;
    forall f
      ensures f in fs <==> Holds(buffer, f)
    {
      assert f in fs <==> f == buffer[k] || f in rest;
      assert Holds(buffer - {k}, f) <==> Holds(buffer, f) && f.header.sequence != k;
    }
    forall i, j | 0 <= i < j < |fs|
      ensures fs[i].header.sequence < fs[j].header.sequence
    {
      assert fs[j] == rest[j - 1] && rest[j - 1] in rest;
      assert Holds(buffer - {k}, fs[j]);
      assert i == 0 || fs[i] == rest[i - 1];
    }
  }
}
