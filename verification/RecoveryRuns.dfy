/** Safety of the recovery engine over every run: bookkeeping, completion without loss, bounded retries. */
module RecoveryRuns {
  import opened Outcomes
  import opened Frames
  import opened ReplayPayloads
  import opened Recovery
  import Dedup

  // ---------------------------------------------------------------- runs

  datatype Event =
    | BufferFrame(frame: OwnedFrame)
    | Create(low: nat, high: nat, now: nat)
    | Response(requestId: nat, frame: OwnedFrame)
    | Unavailable(notice: UnavailablePayload)
    | Sweep(now: nat)
    | DrainRun(start: nat)
    | DrainAll
    | Reset

  /** What a step hands out: frames drained from the buffer and requests put on the wire. */
  datatype Output = Output(emitted: seq<OwnedFrame>, sent: seq<RequestPayload>)

  const SILENT := Output([], [])

  ghost predicate Step(e: Engine, ev: Event, e': Engine, out: Output) {
    match ev
    case BufferFrame(f) => e' == Buffered(e, f) && out == SILENT
    case Create(low, high, now) =>
      var (x, r) := Requested(e, low, high, now);
      e' == x && out == Output([], if r.Ok? then [r.value] else [])
    case Response(id, f) =>
      var (x, drained) := Answered(e, id, f);
      e' == x && out == Output(if drained.Some? then drained.value else [], [])
    case Unavailable(u) => e' == Refused(e, u).0 && out == SILENT
    case Sweep(now) => exists r :: Swept(e, now, e', r) && out == Output([], if r.Ok? then r.value else [])
    case DrainRun(start) =>
      e' == e.(buffer := Drained(e.buffer, start).1) && out == Output(Drained(e.buffer, start).0, [])
    case DrainAll => e' == e.(buffer := map[]) && out == Output(Ascending(e.buffer), [])
    case Reset => e' == WasReset(e) && out == SILENT
  }

  datatype Run = Start(config: Config) | Then(before: Run, event: Event, engine: Engine, output: Output)

  function Now(run: Run): Engine {
    match run
    case Start(config) => NewEngine(config)
    case Then(_, _, e, _) => e
  }

  ghost predicate Valid(run: Run) {
    run.Then? ==> Valid(run.before) && Step(Now(run.before), run.event, run.engine, run.output)
  }

  // ---------------------------------------------------------------- bookkeeping

  ghost predicate RequestOk(config: Config, nextRequestId: nat, id: nat, r: ActiveRequest) {
    && r.requestId == id
    && 1 <= id < nextRequestId
    && r.retriesAttempted <= config.maxRetries
    && RangeLength(r.fromSequence, r.toSequence) <= config.maxReplayRange
    && Dedup.NoRepeats(r.received)
    && (forall n :: n in r.received ==> InRange(r, n))
    && (r.fromSequence <= r.toSequence ==> !Complete(r))
  }

  ghost predicate EngineOk(e: Engine) {
    && e.nextRequestId >= 1
    && (e.mode == Live ==> e.outstanding == map[])
    && (e.mode == Recovering ==> e.outstanding != map[])
    && |e.outstanding| <= e.config.maxOutstanding
    && (forall id :: id in e.outstanding ==> RequestOk(e.config, e.nextRequestId, id, e.outstanding[id]))
    && Keyed(e.buffer)
  }

  lemma CreateKeepsOk(e: Engine, low: nat, high: nat, now: nat)
    requires EngineOk(e)
    ensures EngineOk(Requested(e, low, high, now).0)
  {
    var (x, r) := Requested(e, low, high, now);
    if r.Ok? {
      var id := e.nextRequestId;
      assert id !in e.outstanding;
      assert id in x.outstanding;
      assert low <= high ==> low !in x.outstanding[id].received;
    }
  }

  lemma ResponseKeepsOk(e: Engine, id: nat, f: OwnedFrame)
    requires EngineOk(e)
    ensures EngineOk(Answered(e, id, f).0)
  {
    if id in e.outstanding {
      var r := Noted(e.outstanding[id], f.header.sequence);
      if Complete(r) {
        var left := e.outstanding - {id};
        assert |left.Keys| <= |e.outstanding.Keys|;
      } else {
        NotedOk(e.config, e.nextRequestId, id, e.outstanding[id], f.header.sequence);
      }
    }
  }

  lemma NotedOk(config: Config, nextRequestId: nat, id: nat, r: ActiveRequest, n: nat)
    requires RequestOk(config, nextRequestId, id, r) && !Complete(Noted(r, n))
    ensures RequestOk(config, nextRequestId, id, Noted(r, n))
  {}

  lemma SweepKeepsOk(e: Engine, now: nat, e': Engine, r: Result<seq<RequestPayload>>)
    requires EngineOk(e) && Swept(e, now, e', r)
    ensures EngineOk(e')
  {
    var kept := Retried(e, now);
    assert kept.Keys == e.outstanding.Keys;
    assert |kept| == |e.outstanding|;
    forall id | id in kept
      ensures RequestOk(e.config, e.nextRequestId, id, kept[id])
    {
      assert RequestOk(e.config, e.nextRequestId, id, e.outstanding[id]);
    }
    assert kept == map[] <==> e.outstanding == map[];
    if r.Err? {
      var id :| Due(e, id, now) && Exhausted(e, id)
                && e' == e.(outstanding := kept - {id}, mode := RecoveryFailed);
      assert |e'.outstanding.Keys| <= |kept.Keys|;
    }
  }

  lemma UnavailableKeepsOk(e: Engine, u: UnavailablePayload)
    requires EngineOk(e)
    ensures EngineOk(Refused(e, u).0)
  {
    var left := e.outstanding - {u.requestId};
    assert |left.Keys| <= |e.outstanding.Keys|;
  }

  /** Steps that touch only the buffer, or forget everything. */
  lemma BufferStepKeepsOk(e: Engine, ev: Event, e': Engine, out: Output)
    requires EngineOk(e) && Step(e, ev, e', out)
    requires ev.BufferFrame? || ev.DrainRun? || ev.DrainAll? || ev.Reset?
    ensures EngineOk(e')
  {
    if ev.DrainRun? {
      DrainedMeaning(e.buffer, ev.start);
    }
  }

  lemma SweepStep(e: Engine, ev: Event, e': Engine, out: Output) returns (r: Result<seq<RequestPayload>>)
    requires Step(e, ev, e', out) && ev.Sweep?
    ensures Swept(e, ev.now, e', r) && out == Output([], if r.Ok? then r.value else [])
    ensures e'.buffer == e.buffer && e'.nextRequestId == e.nextRequestId && e'.config == e.config
    ensures forall id :: id in e'.outstanding ==> id in e.outstanding && e'.outstanding[id] == Retried(e, ev.now)[id]
  {
    r :| Swept(e, ev.now, e', r) && out == Output([], if r.Ok? then r.value else []);
  }

  lemma StepKeepsOk(e: Engine, ev: Event, e': Engine, out: Output)
    requires EngineOk(e) && Step(e, ev, e', out)
    ensures EngineOk(e')
  {
    match ev
    case Create(low, high, now) => CreateKeepsOk(e, low, high, now);
    case Response(id, f) => ResponseKeepsOk(e, id, f);
    case Unavailable(u) => UnavailableKeepsOk(e, u);
    case Sweep(now) =>
      var r := SweepStep(e, ev, e', out);
      SweepKeepsOk(e, now, e', r);
    case _ => BufferStepKeepsOk(e, ev, e', out);
  }

  lemma ConfigIsFixed(e: Engine, ev: Event, e': Engine, out: Output)
    requires Step(e, ev, e', out)
    ensures e'.config == e.config
  {
    if ev.Sweep? {
      var r := SweepStep(e, ev, e', out);
    }
  }

  /** In every reachable state modes agree with the outstanding set, and ids, ranges and retries are in bounds. */
  lemma {:induction false} ReachableOk(run: Run)
    requires Valid(run)
    ensures EngineOk(Now(run))
  {
    if run.Then? {
      ReachableOk(run.before);
      StepKeepsOk(Now(run.before), run.event, run.engine, run.output);
    }
  }

  // ---------------------------------------------------------------- identifiers

  /** Whether this step created a request. */
  predicate Created(e: Engine, ev: Event) {
    ev.Create? && Requested(e, ev.low, ev.high, ev.now).1.Ok?
  }

  function IssuedIds(run: Run): seq<nat> {
    if run.Start? then []
    else
      var e, ev := Now(run.before), run.event;
      IssuedIds(run.before)
      + if Created(e, ev) then [Requested(e, ev.low, ev.high, ev.now).1.value.requestId] else []
  }

  lemma CounterStep(e: Engine, ev: Event, e': Engine, out: Output)
    requires Step(e, ev, e', out)
    ensures Created(e, ev) ==> e'.nextRequestId == e.nextRequestId + 1
                               && Requested(e, ev.low, ev.high, ev.now).1.value.requestId == e.nextRequestId
    ensures !Created(e, ev) ==> e'.nextRequestId == e.nextRequestId
  {
    if ev.Sweep? {
      var r := SweepStep(e, ev, e', out);
    }
  }

  /** Ids are issued as 1, 2, 3, ... over the whole run, resets included, so none is ever reused. */
  lemma {:induction false} IdsNeverReused(run: Run)
    requires Valid(run)
    ensures |IssuedIds(run)| == Now(run).nextRequestId - 1
    ensures forall i :: 0 <= i < |IssuedIds(run)| ==> IssuedIds(run)[i] == i + 1
  {
    if run.Then? {
      IdsNeverReused(run.before);
      CounterStep(Now(run.before), run.event, run.engine, run.output);
    }
  }

  // ---------------------------------------------------------------- completion

  /** The frames drained since request `id` was created. */
  function EmittedSince(run: Run, id: nat): seq<OwnedFrame> {
    if run.Start? then []
    else if Created(Now(run.before), run.event) && Now(run.before).nextRequestId == id then []
    else EmittedSince(run.before, id) + run.output.emitted
  }

  ghost predicate HasSequence(fs: seq<OwnedFrame>, n: nat) {
    exists f :: f in fs && f.header.sequence == n
  }

  /** Everything a live request has received is still buffered or was drained in its lifetime. */
  ghost predicate Accounted(e: Engine, emitted: seq<OwnedFrame>, id: nat) {
    id in e.outstanding ==>
      forall n :: n in e.outstanding[id].received ==> n in e.buffer || HasSequence(emitted, n)
  }

  lemma HasMore(a: seq<OwnedFrame>, b: seq<OwnedFrame>, n: nat)
    requires HasSequence(a, n) || HasSequence(b, n)
    ensures HasSequence(a + b, n)
  {
    var f :| (f in a || f in b) && f.header.sequence == n;
    assert f in a + b;
  }

  lemma OnlyDrainsDrop(e: Engine, ev: Event, e': Engine, out: Output)
    requires Step(e, ev, e', out)
    requires ev.BufferFrame? || ev.Create? || ev.Unavailable? || ev.Sweep?
    ensures e.buffer.Keys <= e'.buffer.Keys
  {
    if ev.Sweep? {
      var r := SweepStep(e, ev, e', out);
    }
  }

  /** A step that drops a key from the buffer hands that frame out, or forgets all requests. */
  lemma DroppedIsEmitted(e: Engine, ev: Event, e': Engine, out: Output, n: nat)
    requires EngineOk(e) && Step(e, ev, e', out) && !ev.Reset?
    requires n in e.buffer
    ensures n in e'.buffer || HasSequence(out.emitted, n)
  {
    hide Drained, Ascending, Dedup.NoRepeats, Holds;
    match ev
    case Response(id, f) => AllEmitted(e.buffer[f.header.sequence := f], n);
    case DrainRun(start) => RunEmitted(e.buffer, start, n);
    case DrainAll => AllEmitted(e.buffer, n);
    case _ => OnlyDrainsDrop(e, ev, e', out);
  }

  lemma AllEmitted(buffer: ReorderBuffer, n: nat)
    requires n in buffer
    ensures Keyed(buffer) ==> HasSequence(Ascending(buffer), n)
  {
    if Keyed(buffer) {
      AscendingMeaning(buffer);
      assert Holds(buffer, buffer[n]);
    }
  }

  lemma RunEmitted(buffer: ReorderBuffer, start: nat, n: nat)
    requires Keyed(buffer) && n in buffer
    ensures n in Drained(buffer, start).1 || HasSequence(Drained(buffer, start).0, n)
  {
    var (run, left) := Drained(buffer, start);
    DrainedMeaning(buffer, start);
    if n !in left {
      assert run[n - start] == buffer[n];
    }
  }

  lemma {:induction false} ReceivedIsAccounted(run: Run, id: nat)
    requires Valid(run)
    ensures Accounted(Now(run), EmittedSince(run, id), id)
  {
    if run.Then? {
      ReceivedIsAccounted(run.before, id);
      ReachableOk(run.before);
      var e, e', out := Now(run.before), run.engine, run.output;
      if id in e'.outstanding {
        forall n | n in e'.outstanding[id].received
          ensures n in e'.buffer || HasSequence(EmittedSince(run, id), n)
        {
          ReceivedBefore(e, run.event, e', out, id, n);
          if n !in e'.buffer {
            if n in e.buffer {
              DroppedIsEmitted(e, run.event, e', out, n);
            }
            HasMore(EmittedSince(run.before, id), out.emitted, n);
          }
        }
      }
    }
  }

  /** What a request has received after a step it had received before, or is buffered now. */
  lemma ReceivedBefore(e: Engine, ev: Event, e': Engine, out: Output, id: nat, n: nat)
    requires EngineOk(e) && Step(e, ev, e', out)
    requires id in e'.outstanding && n in e'.outstanding[id].received
    ensures !ev.Reset? && !(Created(e, ev) && e.nextRequestId == id)
    ensures n in e'.buffer || (id in e.outstanding && n in e.outstanding[id].received)
  {
    match ev
    case Sweep(now) =>
      var r := SweepStep(e, ev, e', out);
    case Create(low, high, now) =>
      assert e.nextRequestId !in e.outstanding;
    case _ =>
  }

  /** When a response completes a request, its whole range has been drained since the request was created. */
  lemma NothingLostOnCompletion(run: Run, id: nat, n: nat)
    requires Valid(run) && run.Then? && run.event.Response? && run.event.requestId == id
    requires Completes(Now(run.before), id, run.event.frame)
    requires InRange(Now(run.before).outstanding[id], n)
    ensures id !in Now(run).outstanding
    ensures HasSequence(EmittedSince(run, id), n)
  {
    ReachableOk(run.before);
    ReceivedIsAccounted(run.before, id);
    CompletionEmits(Now(run.before), id, run.event.frame, EmittedSince(run.before, id), n);
  }

  lemma CompletionEmits(e: Engine, id: nat, f: OwnedFrame, before: seq<OwnedFrame>, n: nat)
    requires Keyed(e.buffer) && Accounted(e, before, id) && Completes(e, id, f) && InRange(e.outstanding[id], n)
    ensures HasSequence(before + Answered(e, id, f).1.value, n)
  {
    var r := Noted(e.outstanding[id], f.header.sequence);
    assert n in r.received;
    var buffer := e.buffer[f.header.sequence := f];
    AscendingMeaning(buffer);
    if n in buffer {
      assert Holds(buffer, buffer[n]);
    } else {
      assert n in e.outstanding[id].received;
      assert HasSequence(before, n);
    }
    HasMore(before, Ascending(buffer), n);
  }

  // ---------------------------------------------------------------- counting arrivals

  /** The distinct in-range sequences carried by responses to `id` since it was created. */
  function ArrivedFor(run: Run, id: nat, low: nat, high: nat): set<nat> {
    if run.Start? then {}
    else if Created(Now(run.before), run.event) && Now(run.before).nextRequestId == id then {}
    else ArrivedFor(run.before, id, low, high)
         + if run.event.Response? && run.event.requestId == id && low <= run.event.frame.header.sequence <= high
           then {run.event.frame.header.sequence as nat} else {}
  }

  ghost function Elements(s: seq<nat>): set<nat> {
    set n | n in s
  }

  lemma {:induction false} ReceivedIsArrived(run: Run, id: nat)
    requires Valid(run) && id in Now(run).outstanding
    ensures var r := Now(run).outstanding[id];
            Elements(r.received) == ArrivedFor(run, id, r.fromSequence, r.toSequence)
  {
    ReachableOk(run);
    if run.Then? {
      ReachableOk(run.before);
      var e, e', ev := Now(run.before), run.engine, run.event;
      var r' := e'.outstanding[id];
      if Created(e, ev) && e.nextRequestId == id {
        assert r'.received == [];
      } else {
        SameRequest(e, ev, e', run.output, id);
        ReceivedIsArrived(run.before, id);
      }
    }
  }

  lemma SameRequest(e: Engine, ev: Event, e': Engine, out: Output, id: nat)
    requires EngineOk(e) && Step(e, ev, e', out)
    requires id in e'.outstanding && !(Created(e, ev) && e.nextRequestId == id)
    ensures id in e.outstanding
    ensures e'.outstanding[id].fromSequence == e.outstanding[id].fromSequence
    ensures e'.outstanding[id].toSequence == e.outstanding[id].toSequence
    ensures e'.outstanding[id].received
         == if ev.Response? && ev.requestId == id
            then Noted(e.outstanding[id], ev.frame.header.sequence).received
            else e.outstanding[id].received
  {
    hide Drained, Ascending, Dedup.NoRepeats;
    if ev.Sweep? {
      var r := SweepStep(e, ev, e', out);
    }
  }

  ghost function Interval(low: nat, high: nat): (s: set<nat>)
    ensures forall n :: n in s <==> low <= n <= high
    decreases high + 1 - low
  {
    if low > high then {} else {low} + Interval(low + 1, high)
  }

  lemma {:induction false} IntervalSize(low: nat, high: nat)
    requires low <= high + 1
    ensures |Interval(low, high)| == high + 1 - low
    decreases high + 1 - low
  {
    if low <= high {
      IntervalSize(low + 1, high);
    }
  }

  lemma SubsetSize(a: set<nat>, b: set<nat>)
    requires a <= b
    ensures |a| <= |b| && (|a| == |b| <==> a == b)
  {
    assert b == a + (b - a);
    assert |b| == |a| + |b - a|;
  }

  /** A request completes exactly when the distinct in-range arrivals number its whole range. */
  lemma CompletesByCount(run: Run, id: nat, f: OwnedFrame)
    requires Valid(run) && id in Now(run).outstanding
    requires Now(run).outstanding[id].fromSequence <= Now(run).outstanding[id].toSequence
    ensures var r := Now(run).outstanding[id];
            var arrived := ArrivedFor(run, id, r.fromSequence, r.toSequence);
            var n := f.header.sequence as nat;
            && |arrived| < RangeLength(r.fromSequence, r.toSequence)
            && (Completes(Now(run), id, f) <==>
                |arrived + (if InRange(r, n) then {n} else {})| == RangeLength(r.fromSequence, r.toSequence))
  {
    ReachableOk(run);
    ReceivedIsArrived(run, id);
    var r, n := Now(run).outstanding[id], f.header.sequence as nat;
    assert RequestOk(Now(run).config, Now(run).nextRequestId, id, r);
    NotedByCount(r, n);
  }

  lemma NotedByCount(r: ActiveRequest, n: nat)
    requires r.fromSequence <= r.toSequence && forall k :: k in r.received ==> InRange(r, k)
    requires !Complete(r)
    ensures |Elements(r.received)| < RangeLength(r.fromSequence, r.toSequence)
    ensures Complete(Noted(r, n)) <==>
            |Elements(r.received) + (if InRange(r, n) then {n} else {})| == RangeLength(r.fromSequence, r.toSequence)
  {
    CompleteByCount(r);
    CompleteByCount(Noted(r, n));
    assert Elements(Noted(r, n).received) == Elements(r.received) + (if InRange(r, n) then {n} else {});
  }

  lemma CompleteByCount(r: ActiveRequest)
    requires r.fromSequence <= r.toSequence && forall n :: n in r.received ==> InRange(r, n)
    ensures |Elements(r.received)| <= RangeLength(r.fromSequence, r.toSequence)
    ensures Complete(r) <==> |Elements(r.received)| == RangeLength(r.fromSequence, r.toSequence)
  {
    var all := Interval(r.fromSequence, r.toSequence);
    IntervalSize(r.fromSequence, r.toSequence);
    SubsetSize(Elements(r.received), all);
    if Complete(r) {
      forall k | k in all
        ensures k in Elements(r.received)
      {
        assert r.fromSequence <= k <= r.toSequence;
      }
    }
    if Elements(r.received) == all {
      forall k | r.fromSequence <= k <= r.toSequence
        ensures k in r.received
      {
        assert k in all;
      }
    }
  }

  // ---------------------------------------------------------------- bounded retries

  /** The sends request `id` still has: itself plus its remaining retries; zero once it is gone. */
  function Share(e: Engine, id: nat): int {
    if id in e.outstanding then e.config.maxRetries - e.outstanding[id].retriesAttempted + 1 else 0
  }

  function BudgetBelow(e: Engine, n: nat): int {
    if n == 0 then 0 else BudgetBelow(e, n - 1) + Share(e, n - 1)
  }

  /** Sum of the shares of all outstanding requests. */
  function Budget(e: Engine): int {
    BudgetBelow(e, e.nextRequestId)
  }

  lemma {:induction false} BudgetCompare(e: Engine, e': Engine, n: nat)
    requires forall id :: 0 <= id < n ==> Share(e', id) <= Share(e, id)
    ensures BudgetBelow(e', n) <= BudgetBelow(e, n)
    ensures (exists id :: 0 <= id < n && Share(e', id) < Share(e, id)) ==> BudgetBelow(e', n) < BudgetBelow(e, n)
  {
    if n != 0 {
      BudgetCompare(e, e', n - 1);
    }
  }

  /** A sweep that finds a due request lowers the budget; one that does not changes nothing. */
  lemma SweepLowersBudget(e: Engine, now: nat, e': Engine, r: Result<seq<RequestPayload>>)
    requires EngineOk(e) && Swept(e, now, e', r)
    ensures (exists id :: Due(e, id, now)) ==> Budget(e') < Budget(e)
    ensures (forall id :: !Due(e, id, now)) ==> e' == e
  {
    forall id | 0 <= id < e.nextRequestId
      ensures Share(e', id) <= Share(e, id)
    {
      assert id in e.outstanding ==> RequestOk(e.config, e.nextRequestId, id, e.outstanding[id]);
      assert id in e'.outstanding ==> id in Retried(e, now);
    }
    BudgetCompare(e, e', e.nextRequestId);
    if id :| Due(e, id, now) {
      assert RequestOk(e.config, e.nextRequestId, id, e.outstanding[id]);
      var hit := DueShareFalls(e, now, e', r, id);
    } else {
      assert Retried(e, now) == e.outstanding;
    }
  }

  lemma DueShareFalls(e: Engine, now: nat, e': Engine, r: Result<seq<RequestPayload>>, id: nat) returns (hit: nat)
    requires EngineOk(e) && Swept(e, now, e', r) && Due(e, id, now)
    ensures hit < e.nextRequestId && Share(e', hit) < Share(e, hit)
  {
    hit := id;
    if r.Err? {
      var gone :| Due(e, gone, now) && Exhausted(e, gone)
                  && e' == e.(outstanding := Retried(e, now) - {gone}, mode := RecoveryFailed);
      hit := gone;
    }
    assert RequestOk(e.config, e.nextRequestId, hit, e.outstanding[hit]);
  }

  /** However many requests are out of retries, one sweep gives up at most one of them. */
  lemma SweepDropsAtMostOne(e: Engine, now: nat, e': Engine, r: Result<seq<RequestPayload>>)
    requires Swept(e, now, e', r)
    ensures |e.outstanding| - 1 <= |e'.outstanding| <= |e.outstanding|
    ensures |e'.outstanding| < |e.outstanding| <==> exists id :: Due(e, id, now) && Exhausted(e, id)
  {
    var kept := Retried(e, now);
    assert kept.Keys == e.outstanding.Keys;
    if r.Err? {
      var gone :| Due(e, gone, now) && Exhausted(e, gone)
                  && e' == e.(outstanding := kept - {gone}, mode := RecoveryFailed);
      assert e'.outstanding.Keys == kept.Keys - {gone};
    }
  }

  /**
   A due request with retries left always has its attempt counted, but it is put on the wire exactly when no due
   request is out of retries: a sweep that gives one up discards the retransmissions it had prepared.
   */
  lemma RetriesSentExactly(e: Engine, now: nat, e': Engine, r: Result<seq<RequestPayload>>, id: nat)
    requires Swept(e, now, e', r) && Due(e, id, now) && !Exhausted(e, id)
    ensures id in e'.outstanding
    ensures e'.outstanding[id].retriesAttempted == e.outstanding[id].retriesAttempted + 1
    ensures PayloadOf(e, id) in (if r.Ok? then r.value else []) <==>
            forall other :: Due(e, other, now) ==> !Exhausted(e, other)
  {
    assert id in Retried(e, now);
  }

  /** No step but a creation raises the budget, and a creation raises it by exactly one full share. */
  lemma OnlyCreationRaisesBudget(e: Engine, ev: Event, e': Engine, out: Output)
    requires EngineOk(e) && Step(e, ev, e', out)
    ensures Created(e, ev) ==> Budget(e') == Budget(e) + e.config.maxRetries + 1
    ensures !Created(e, ev) ==> Budget(e') <= Budget(e)
  {
    if Created(e, ev) {
      CreationRaisesBudget(e, ev.low, ev.high, ev.now);
    } else {
      OthersKeepBudget(e, ev, e', out);
    }
  }

  lemma CreationRaisesBudget(e: Engine, low: nat, high: nat, now: nat)
    requires EngineOk(e) && Requested(e, low, high, now).1.Ok?
    ensures Budget(Requested(e, low, high, now).0) == Budget(e) + e.config.maxRetries + 1
  {
    var e' := Requested(e, low, high, now).0;
    forall id | 0 <= id < e.nextRequestId
      ensures Share(e', id) == Share(e, id)
    {}
    BudgetCompare(e, e', e.nextRequestId);
    BudgetCompare(e', e, e.nextRequestId);
    assert Share(e', e.nextRequestId) == e.config.maxRetries + 1;
  }

  lemma OthersKeepBudget(e: Engine, ev: Event, e': Engine, out: Output)
    requires EngineOk(e) && Step(e, ev, e', out) && !Created(e, ev)
    ensures Budget(e') <= Budget(e)
  {
    forall id | 0 <= id < e.nextRequestId
      ensures Share(e', id) <= Share(e, id)
    {
      if id in e'.outstanding {
        KeptRequest(e, ev, e', out, id);
      } else if id in e.outstanding {
        assert RequestOk(e.config, e.nextRequestId, id, e.outstanding[id]);
      }
    }
    BudgetCompare(e, e', e.nextRequestId);
    CounterStep(e, ev, e', out);
  }

  lemma KeptRequest(e: Engine, ev: Event, e': Engine, out: Output, id: nat)
    requires EngineOk(e) && Step(e, ev, e', out)
    requires id in e'.outstanding && !(Created(e, ev) && e.nextRequestId == id)
    ensures id in e.outstanding && e'.config == e.config
    ensures e'.outstanding[id].retriesAttempted >= e.outstanding[id].retriesAttempted
  {
    hide Drained, Ascending, Dedup.NoRepeats;
    ConfigIsFixed(e, ev, e', out);
    if ev.Sweep? {
      var r := SweepStep(e, ev, e', out);
    }
  }

  /** Consecutive sweeps, each of which found a request due. */
  ghost predicate DueSweeps(es: seq<Engine>) {
    forall i :: 0 <= i < |es| - 1 ==> DueSweep(es[i], es[i + 1])
  }

  ghost predicate DueSweep(e: Engine, e': Engine) {
    exists now, r :: Swept(e, now, e', r) && exists id :: Due(e, id, now)
  }

  ghost function IdsBelow(e: Engine, n: nat): set<nat> {
    set id | id in e.outstanding && id < n
  }

  function Times(k: nat, share: nat): nat {
    if k == 0 then 0 else Times(k - 1, share) + share
  }

  lemma {:induction false} TimesIsProduct(k: nat, share: nat)
    ensures Times(k, share) == k * share
  {
    if k != 0 { TimesIsProduct(k - 1, share); }
  }

  ghost predicate SharesBounded(e: Engine, share: nat) {
    forall id :: id in e.outstanding ==> 1 <= Share(e, id) <= share
  }

  lemma {:induction false} BudgetBelowBound(e: Engine, n: nat, share: nat)
    requires SharesBounded(e, share)
    ensures |IdsBelow(e, n)| <= BudgetBelow(e, n) <= Times(|IdsBelow(e, n)|, share)
  {
    if n == 0 {
      assert IdsBelow(e, n) == {};
    } else {
      BudgetBelowBound(e, n - 1, share);
      if n - 1 in e.outstanding {
        assert IdsBelow(e, n) == IdsBelow(e, n - 1) + {n - 1};
      } else {
        assert IdsBelow(e, n) == IdsBelow(e, n - 1);
      }
    }
  }

  lemma BudgetBound(e: Engine)
    requires EngineOk(e)
    ensures |e.outstanding| <= Budget(e) <= |e.outstanding| * (e.config.maxRetries + 1)
  {
    var share := e.config.maxRetries + 1;
    assert forall id :: id in e.outstanding ==> RequestOk(e.config, e.nextRequestId, id, e.outstanding[id]);
    assert e.outstanding.Keys == IdsBelow(e, e.nextRequestId);
    BudgetBelowBound(e, e.nextRequestId, share);
    TimesIsProduct(|e.outstanding|, share);
  }

  /** At most |outstanding| * (maxRetries + 1) sweeps can find a request due; after that many none is outstanding. */
  lemma RetriesTerminate(es: seq<Engine>)
    requires |es| > 0 && EngineOk(es[0]) && DueSweeps(es)
    ensures |es| - 1 <= |es[0].outstanding| * (es[0].config.maxRetries + 1)
    ensures |es| - 1 == |es[0].outstanding| * (es[0].config.maxRetries + 1) ==> es[|es| - 1].outstanding == map[]
  {
    SweepsSpendBudget(es);
    BudgetBound(es[0]);
    BudgetBound(es[|es| - 1]);
  }

  lemma {:induction false} SweepsSpendBudget(es: seq<Engine>)
    requires |es| > 0 && EngineOk(es[0]) && DueSweeps(es)
    ensures EngineOk(es[|es| - 1])
    ensures |es| - 1 + Budget(es[|es| - 1]) <= Budget(es[0])
    decreases |es|
  {
    if |es| > 1 {
      var init := es[..|es| - 1];
      forall i | 0 <= i < |init| - 1
        ensures DueSweep(init[i], init[i + 1])
      {
        assert DueSweep(es[i], es[i + 1]);
      }
      SweepsSpendBudget(init);
      var e, e' := es[|es| - 2], es[|es| - 1];
      assert DueSweep(es[|es| - 2], es[|es| - 2 + 1]);
      var now, r :| Swept(e, now, e', r) && exists id :: Due(e, id, now);
      SweepKeepsOk(e, now, e', r);
      SweepLowersBudget(e, now, e', r);
    }
  }

  // ---------------------------------------------------------------- sends per request

  function Sent(run: Run): seq<RequestPayload> {
    if run.Start? then [] else Sent(run.before) + run.output.sent
  }

  function Count(sent: seq<RequestPayload>, id: nat): nat {
    if |sent| == 0 then 0
    else Count(sent[..|sent| - 1], id) + if sent[|sent| - 1].requestId == id then 1 else 0
  }

  lemma {:induction false} CountConcat(a: seq<RequestPayload>, b: seq<RequestPayload>, id: nat)
    ensures Count(a + b, id) == Count(a, id) + Count(b, id)
    decreases |b|
  {
    if |b| == 0 {
      assert a + b == a;
    } else {
      assert (a + b)[..|a + b| - 1] == a + b[..|b| - 1];
      CountConcat(a, b[..|b| - 1], id);
    }
  }

  lemma {:induction false} CountDistinct(sent: seq<RequestPayload>, id: nat)
    requires forall i, j :: 0 <= i < j < |sent| ==> sent[i].requestId != sent[j].requestId
    ensures Count(sent, id) <= 1
    ensures Count(sent, id) > 0 ==> exists q :: q in sent && q.requestId == id
  {
    if |sent| != 0 {
      var init, q := sent[..|sent| - 1], sent[|sent| - 1];
      CountDistinct(init, id);
      assert q in sent;
      assert forall p :: p in init ==> p in sent && p.requestId != q.requestId;
    }
  }

  /** How often a request may have been sent in a given state. */
  function SendLimit(e: Engine, id: nat): nat {
    if id >= e.nextRequestId || id == 0 then 0
    else if id in e.outstanding && e.outstanding[id].retriesAttempted <= e.config.maxRetries
    then 1 + e.outstanding[id].retriesAttempted
    else 1 + e.config.maxRetries
  }

  /** A request is put on the wire at most 1 + maxRetries times in any run, and never before it is issued. */
  lemma {:induction false} SendsBounded(run: Run, id: nat)
    requires Valid(run)
    ensures Count(Sent(run), id) <= SendLimit(Now(run), id) <= 1 + Now(run).config.maxRetries
  {
    if run.Then? {
      SendsBounded(run.before, id);
      ReachableOk(run.before);
      CountConcat(Sent(run.before), run.output.sent, id);
      StepSends(Now(run.before), run.event, run.engine, run.output, id);
    }
  }

  lemma StepSends(e: Engine, ev: Event, e': Engine, out: Output, id: nat)
    requires EngineOk(e) && Step(e, ev, e', out)
    ensures Count(out.sent, id) + SendLimit(e, id) <= SendLimit(e', id)
    ensures e'.config == e.config
  {
    ConfigIsFixed(e, ev, e', out);
    match ev {
      case Sweep(now) =>
        var r := SweepStep(e, ev, e', out);
        SweepSends(e, now, e', r, id);
      case Create(low, high, now) => CreateSends(e, low, high, now, id);
      case _ => OthersSendNothing(e, ev, e', out, id);
    }
  }

  lemma CreateSends(e: Engine, low: nat, high: nat, now: nat, id: nat)
    requires EngineOk(e)
    ensures var (e', r) := Requested(e, low, high, now);
            Count(if r.Ok? then [r.value] else [], id) + SendLimit(e, id) <= SendLimit(e', id)
  {
    var (e', r) := Requested(e, low, high, now);
    assert e.nextRequestId !in e.outstanding;
    if r.Ok? {
      assert [r.value][..0] == [];
      assert Count([r.value], id) == if id == e.nextRequestId then 1 else 0;
    }
  }

  lemma OthersSendNothing(e: Engine, ev: Event, e': Engine, out: Output, id: nat)
    requires EngineOk(e) && Step(e, ev, e', out) && !ev.Sweep? && !ev.Create?
    ensures out.sent == [] && SendLimit(e, id) <= SendLimit(e', id)
  {
    ConfigIsFixed(e, ev, e', out);
    CounterStep(e, ev, e', out);
    SilentStep(e, ev, e', out);
    hide Step, EngineOk;
    if id in e'.outstanding {
      KeptRequest(e, ev, e', out, id);
    }
  }

  lemma SilentStep(e: Engine, ev: Event, e': Engine, out: Output)
    requires Step(e, ev, e', out) && !ev.Sweep? && !ev.Create?
    ensures out.sent == []
  {
    hide Drained, Ascending;
  }

  lemma SweepSends(e: Engine, now: nat, e': Engine, r: Result<seq<RequestPayload>>, id: nat)
    requires EngineOk(e) && Swept(e, now, e', r)
    ensures Count(if r.Ok? then r.value else [], id) + SendLimit(e, id) <= SendLimit(e', id)
  {
    if id in e.outstanding {
      assert RequestOk(e.config, e.nextRequestId, id, e.outstanding[id]);
    }
    if r.Ok? {
      CountDistinct(r.value, id);
      if Count(r.value, id) > 0 {
        var q :| q in r.value && q.requestId == id;
        assert Due(e, id, now) && !Exhausted(e, id);
        assert e'.outstanding[id].retriesAttempted == e.outstanding[id].retriesAttempted + 1;
      }
    }
  }

  // ---------------------------------------------------------------- what a step shows

  /** A request has just been given up: a due one is out of retries, or the publisher refused. */
  ghost predicate GivesUp(e: Engine, ev: Event) {
    || ev.Unavailable?
    || (ev.Sweep? && exists id :: Due(e, id, ev.now) && Exhausted(e, id))
  }

  /** The response completes the last open request. */
  ghost predicate CompletesLast(e: Engine, ev: Event) {
    && ev.Response? && Completes(e, ev.requestId, ev.frame)
    && e.outstanding.Keys == {ev.requestId}
  }

  /** The mode after every step: recovering once a request is opened, failed once one is given up, live once none is. */
  lemma ModeAfterStep(e: Engine, ev: Event, e': Engine, out: Output)
    requires Step(e, ev, e', out)
    ensures e'.mode == if Created(e, ev) then Recovering
                       else if GivesUp(e, ev) then RecoveryFailed
                       else if ev.Reset? || CompletesLast(e, ev) then Live
                       else e.mode
  {
    hide Drained, Ascending, ListsRetries;
    match ev
    case Sweep(now) =>
      var r := SweepStep(e, ev, e', out);
    case Response(id, f) =>
      LastLeft(e.outstanding, id);
    case _ =>
  }

  lemma LastLeft(outstanding: map<nat, ActiveRequest>, id: nat)
    ensures id in outstanding ==> (outstanding - {id} == map[] <==> outstanding.Keys == {id})
  {
    if id in outstanding {
      var left := outstanding - {id};
      assert left.Keys == outstanding.Keys - {id};
      assert left == map[] <==> left.Keys == {};
    }
  }

  /** A request just retried is not due again before the timeout has passed once more. */
  lemma RetriedWaits(e: Engine, now: nat, e': Engine, r: Result<seq<RequestPayload>>, id: nat, later: nat)
    requires Swept(e, now, e', r) && Due(e, id, now) && !Exhausted(e, id) && id in e'.outstanding
    requires e.config.retryTimeout > 0 && later < now + e.config.retryTimeout
    ensures !Due(e', id, later)
  {
    hide ListsRetries;
  }

  // ---------------------------------------------------------------- discarded retransmissions

  /** The sweep counts a retry of `id` but, giving up another request, discards it. */
  ghost predicate DiscardsIn(e: Engine, ev: Event, id: nat) {
    && ev.Sweep? && Due(e, id, ev.now) && !Exhausted(e, id)
    && exists other :: Due(e, other, ev.now) && Exhausted(e, other)
  }

  ghost function Discarded(run: Run, id: nat): nat {
    if run.Start? then 0
    else Discarded(run.before, id) + if DiscardsIn(Now(run.before), run.event, id) then 1 else 0
  }

  lemma {:induction false} CountMember(sent: seq<RequestPayload>, q: RequestPayload)
    requires q in sent
    ensures Count(sent, q.requestId) >= 1
  {
    var init := sent[..|sent| - 1];
    if sent[|sent| - 1].requestId != q.requestId {
      assert q in init;
      CountMember(init, q);
    }
  }

  /** In one step a request that stays outstanding is sent or has its retransmission discarded once per counted retry. */
  lemma StepAccounts(e: Engine, ev: Event, e': Engine, out: Output, id: nat)
    requires EngineOk(e) && Step(e, ev, e', out) && id in e.outstanding && id in e'.outstanding
    ensures Count(out.sent, id) + (if DiscardsIn(e, ev, id) then 1 else 0)
         == e'.outstanding[id].retriesAttempted - e.outstanding[id].retriesAttempted
  {
    assert id < e.nextRequestId;
    hide Drained, Ascending, EngineOk, Count;
    match ev
    case Sweep(now) =>
      var r := SweepStep(e, ev, e', out);
      SweepAccounts(e, now, e', r, id);
    case Create(low, high, now) =>
      CreateCounts(e, low, high, now, id);
    case _ =>
      SilentStep(e, ev, e', out);
      NoneCounted(id);
  }

  lemma NoneCounted(id: nat)
    ensures Count([], id) == 0
  {}

  lemma CreateCounts(e: Engine, low: nat, high: nat, now: nat, id: nat)
    ensures var r := Requested(e, low, high, now).1;
            Count(if r.Ok? then [r.value] else [], id) == if r.Ok? && id == e.nextRequestId then 1 else 0
  {
    var r := Requested(e, low, high, now).1;
    if r.Ok? {
      assert [r.value][..0] == [];
    }
  }

  lemma SweepAccounts(e: Engine, now: nat, e': Engine, r: Result<seq<RequestPayload>>, id: nat)
    requires Swept(e, now, e', r) && id in e.outstanding && id in e'.outstanding
    ensures Count(if r.Ok? then r.value else [], id) + (if DiscardsIn(e, Sweep(now), id) then 1 else 0)
         == e'.outstanding[id].retriesAttempted - e.outstanding[id].retriesAttempted
  {
    if r.Ok? {
      CountDistinct(r.value, id);
    }
    if Due(e, id, now) && !Exhausted(e, id) {
      RetriesSentExactly(e, now, e', r, id);
      if r.Ok? {
        CountMember(r.value, PayloadOf(e, id));
      }
    } else {
      assert id in Retried(e, now);
    }
  }

  /** What has not been issued has been neither sent nor discarded. */
  lemma {:induction false} NothingBeforeIssue(run: Run, id: nat)
    requires Valid(run) && id >= Now(run).nextRequestId
    ensures Count(Sent(run), id) == 0 && Discarded(run, id) == 0
  {
    SendsBounded(run, id);
    if run.Then? {
      ReachableOk(run.before);
      CounterStep(Now(run.before), run.event, run.engine, run.output);
      NothingBeforeIssue(run.before, id);
      assert id in Now(run.before).outstanding ==>
               RequestOk(Now(run.before).config, Now(run.before).nextRequestId, id, Now(run.before).outstanding[id]);
    }
  }

  lemma CreationAccounts(e: Engine, ev: Event, e': Engine, out: Output, id: nat)
    requires Step(e, ev, e', out) && Created(e, ev) && e.nextRequestId == id
    ensures id in e'.outstanding && e'.outstanding[id].retriesAttempted == 0
    ensures Count(out.sent, id) == 1 && !DiscardsIn(e, ev, id)
  {
    CreateCounts(e, ev.low, ev.high, ev.now, id);
  }

  /** Over every run a live request's sends and discarded retransmissions together are one plus its counted retries. */
  lemma {:induction false} SendsExactly(run: Run, id: nat)
    requires Valid(run) && id in Now(run).outstanding
    ensures Count(Sent(run), id) + Discarded(run, id) == 1 + Now(run).outstanding[id].retriesAttempted
  {
    hide Step, EngineOk, Created, DiscardsIn, Count;
    if run.Then? {
      var e, ev, e', out := Now(run.before), run.event, run.engine, run.output;
      ReachableOk(run.before);
      CountConcat(Sent(run.before), out.sent, id);
      if Created(e, ev) && e.nextRequestId == id {
        NothingBeforeIssue(run.before, id);
        CreationAccounts(e, ev, e', out, id);
      } else {
        KeptRequest(e, ev, e', out, id);
        SendsExactly(run.before, id);
        StepAccounts(e, ev, e', out, id);
      }
    }
  }

  // ---------------------------------------------------------------- a discarded retransmission

  function First(retries: nat, lastSentAt: nat): ActiveRequest {
    ActiveRequest(1, 1, 1, 0, lastSentAt, retries, [])
  }

  function Second(retries: nat, lastSentAt: nat): ActiveRequest {
    ActiveRequest(2, 5, 5, 120, lastSentAt, retries, [])
  }

  function WithFirst(retries: nat, lastSentAt: nat): Engine {
    Engine(DEFAULT_CONFIG, Recovering, 2, map[1 := First(retries, lastSentAt)], map[])
  }

  /** One request sent at 0 and again at 50 and 100. */
  function TwiceRetried(): Run {
    var q := RequestPayload(1, 1, 1);
    Then(Then(Then(Start(DEFAULT_CONFIG), Create(1, 1, 0), WithFirst(0, 0), Output([], [q])),
              Sweep(50), WithFirst(1, 50), Output([], [q])),
         Sweep(100), WithFirst(2, 100), Output([], [q]))
  }

  function WithBoth(retries: nat, lastSentAt: nat): Engine {
    Engine(DEFAULT_CONFIG, Recovering, 3, map[1 := First(retries, lastSentAt), 2 := Second(0, 120)], map[])
  }

  /** A second request at 120, the last retry of the first at 150, and its failure at 200. */
  function Failing(): Run {
    Then(Then(Then(TwiceRetried(), Create(5, 5, 120), WithBoth(2, 100), Output([], [RequestPayload(2, 5, 5)])),
              Sweep(150), WithBoth(3, 150), Output([], [RequestPayload(1, 1, 1)])),
         Sweep(200), Engine(DEFAULT_CONFIG, RecoveryFailed, 3, map[2 := Second(1, 200)], map[]), Output([], []))
  }

  lemma FirstSweep(retries: nat, lastSentAt: nat, now: nat)
    requires retries < 3 && now == lastSentAt + 50
    ensures Step(WithFirst(retries, lastSentAt), Sweep(now), WithFirst(retries + 1, now),
                 Output([], [RequestPayload(1, 1, 1)]))
  {
    var e, e' := WithFirst(retries, lastSentAt), WithFirst(retries + 1, now);
    assert Retried(e, now) == e'.outstanding;
    assert PayloadOf(e, 1) == RequestPayload(1, 1, 1);
    assert Swept(e, now, e', Ok([RequestPayload(1, 1, 1)]));
  }

  lemma BothSweep()
    ensures Step(WithBoth(2, 100), Sweep(150), WithBoth(3, 150), Output([], [RequestPayload(1, 1, 1)]))
  {
    var e, e' := WithBoth(2, 100), WithBoth(3, 150);
    assert Retried(e, 150) == e'.outstanding;
    assert PayloadOf(e, 1) == RequestPayload(1, 1, 1);
    assert Swept(e, 150, e', Ok([RequestPayload(1, 1, 1)]));
  }

  lemma FailingSweep()
    ensures Step(WithBoth(3, 150), Sweep(200), Engine(DEFAULT_CONFIG, RecoveryFailed, 3, map[2 := Second(1, 200)], map[]),
                 Output([], []))
    ensures DiscardsIn(WithBoth(3, 150), Sweep(200), 2)
  {
    var e := WithBoth(3, 150);
    var e' := Engine(DEFAULT_CONFIG, RecoveryFailed, 3, map[2 := Second(1, 200)], map[]);
    assert Due(e, 1, 200) && Exhausted(e, 1);
    assert Retried(e, 200) - {1} == e'.outstanding;
    assert Swept(e, 200, e', Err(UnrecoverableGap(1, 1)));
  }

  lemma SecondCreated()
    ensures Step(WithFirst(2, 100), Create(5, 5, 120), WithBoth(2, 100), Output([], [RequestPayload(2, 5, 5)]))
  {
    var e := WithFirst(2, 100);
    assert e.outstanding[2 := Second(0, 120)] == WithBoth(2, 100).outstanding;
    assert |e.outstanding| == 1;
  }

  lemma TwiceRetriedValid()
    ensures Valid(TwiceRetried())
  {
    FirstSweep(0, 0, 50);
    FirstSweep(1, 50, 100);
    assert Valid(TwiceRetried().before.before);
    assert Valid(TwiceRetried().before);
  }

  lemma FailingValid()
    ensures Valid(Failing().before) && Valid(Failing())
  {
    TwiceRetriedValid();
    SecondCreated();
    BothSweep();
    FailingSweep();
    hide Step;
    assert Valid(Failing().before.before);
    assert Valid(Failing().before);
  }

  /** A run in which request 2 is counted as retried although it was only ever sent once. */
  lemma SweepRunDiscardsRetry()
    ensures Valid(Failing()) && 2 in Now(Failing()).outstanding
    ensures Now(Failing()).outstanding[2].retriesAttempted == 1 && Count(Sent(Failing()), 2) == 1
  {
    hide Valid, Step, Count;
    FailingValid();
    var before, q := Failing().before, RequestPayload(2, 5, 5);
    SendsExactly(before, 2);
    assert Sent(before.before) == Sent(TwiceRetried()) + [q];
    assert q in Sent(before.before);
    assert q in Sent(before);
    CountMember(Sent(before), q);
    assert Sent(Failing()) == Sent(before);
  }
}
