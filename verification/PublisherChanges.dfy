/**
 What a change of publisher does to the deliveries that follow it: exactly when a fresh publisher's frames
 stay in sequence, and exactly when a returning publisher loses one.
 */
module PublisherChanges {
  import opened Outcomes
  import opened Frames
  import opened Delivery
  import opened DeliveryRuns
  import Dedup
  import Recovery

  // ---------------------------------------------------------------- a fresh publisher

  /** The frames that stay buffered within reach of a drain when a new publisher starts at n. */
  ghost function Left(buffer: Recovery.ReorderBuffer, n: nat): Recovery.ReorderBuffer {
    if n == 1 then map[] else map k | k in buffer && k > 1 && k != n :: buffer[k]
  }

  /** f stands at place k: q's own frame or the foreign one, and the foreign one if q's has not arrived. */
  ghost predicate Placed(f: OwnedFrame, k: nat, q: u64, foreign: Recovery.ReorderBuffer, arrived: set<nat>) {
    && f.header.sequence == k
    && (f.header.publisherId == q || (k in foreign && f == foreign[k]))
    && (k !in arrived ==> k in foreign && f == foreign[k])
  }

  ghost predicate BufferPlaced(buffer: Recovery.ReorderBuffer, expected: nat, q: u64,
                               foreign: Recovery.ReorderBuffer, arrived: set<nat>) {
    forall k :: k in buffer && k > expected ==> Placed(buffer[k], k, q, foreign, arrived)
  }

  ghost predicate BlockPlaced(block: seq<OwnedFrame>, q: u64, foreign: Recovery.ReorderBuffer, arrived: set<nat>) {
    forall i :: 0 <= i < |block| ==> Placed(block[i], i + 1, q, foreign, arrived)
  }

  /** The filter knows no frame of q that has not arrived. */
  ghost predicate KnowsOnly(recent: seq<Dedup.Key>, q: u64, arrived: set<nat>) {
    forall key :: key in recent && key.publisherId == q ==> key.sequence in arrived
  }

  lemma KnowsGrows(capacity: nat, recent: seq<Dedup.Key>, key: Dedup.Key, q: u64, arrived: set<nat>)
    requires KnowsOnly(recent, q, arrived)
    ensures KnowsOnly(Dedup.Record(capacity, recent, key).1, q, arrived + {key.sequence as nat})
  {}

  /**
   The receiver while q is active, having started over foreign frames: it cannot tell them from arrivals, so the
   cursor is the least sequence that neither arrived nor is foreign.
   */
  ghost predicate Phase(rx: Receiver, q: u64, foreign: Recovery.ReorderBuffer, arrivals: seq<OwnedFrame>,
                        block: seq<OwnedFrame>) {
    var expected, arrived := rx.tracker.expected, Sequences(arrivals, q);
    && rx.mode == ReliableOrdered && rx.tracker.active == Some(q)
    && KnowsOnly(rx.recent, q, arrived)
    && Cursor(expected, rx.engine.buffer, arrived + foreign.Keys)
    && BufferPlaced(rx.engine.buffer, expected, q, foreign, arrived)
    && |block| == expected - 1
    && BlockPlaced(block, q, foreign, arrived)
  }

  /** In an invariant state the active publisher is in such a phase, with nothing foreign. */
  lemma InvIsPhase(rx: Receiver, arrivals: seq<OwnedFrame>, blocks: seq<Block>, p: u64)
    requires Inv(rx, arrivals, blocks) && rx.tracker.active == Some(p)
    ensures Phase(rx, p, map[], arrivals, blocks[|blocks| - 1].frames)
  {
    var arrived := Sequences(arrivals, p);
    var none: Recovery.ReorderBuffer := map[];
    assert arrived + none.Keys == arrived;
    var last := blocks[|blocks| - 1].frames;
    assert Numbered(last, p, arrivals);
    forall k | k in rx.engine.buffer && k > rx.tracker.expected
      ensures Placed(rx.engine.buffer[k], k, p, none, arrived)
    {
      assert rx.engine.buffer[k] in arrivals;
    }
  }

  lemma PhaseBegins(rx: Receiver, arrivals: seq<OwnedFrame>, blocks: seq<Block>, f: OwnedFrame, now: nat)
    requires Inv(rx, arrivals, blocks) && rx.tracker.active.Some? && f.header.sequence >= 1
    requires !Heard(arrivals, f.header.publisherId)
    ensures var (rx', r) := Processed(rx, f, now);
            Phase(rx', f.header.publisherId, Left(rx.engine.buffer, f.header.sequence), [f], FramesOf(r))
  {
    var q, n := f.header.publisherId, f.header.sequence as nat;
    FreshFacts(rx, arrivals, blocks, f);
    assert Sequences([], q) == {};
    LeftPlaced(rx.engine.buffer, f);
    hide Inv, Processed, KnowsOnly, Dedup.Record, Sequences, Cursor, BufferPlaced, Left;
    NewPublisherEffect(rx, f, now);
    KnowsGrows(rx.filterCapacity, rx.recent, KeyOf(rx, f), q, {});
    SequencesGrow([], f, q);
    assert [] + [f] == [f];
    assert Sequences([f], q) == {n};
  }

  /** To the new publisher the frames left over look like arrivals. */
  lemma LeftPlaced(buffer: Recovery.ReorderBuffer, f: OwnedFrame)
    requires Recovery.Keyed(buffer) && f.header.sequence >= 1
    ensures var q, n, left := f.header.publisherId, f.header.sequence as nat, Left(buffer, f.header.sequence);
            var expected, buffer' := if n == 1 then 2 else 1, if n == 1 then map[] else buffer[n := f];
            && Cursor(expected, buffer', {n} + left.Keys)
            && BufferPlaced(buffer', expected, q, left, {n})
  {}

  lemma FreshFacts(rx: Receiver, arrivals: seq<OwnedFrame>, blocks: seq<Block>, f: OwnedFrame)
    requires Inv(rx, arrivals, blocks) && rx.tracker.active.Some? && !Heard(arrivals, f.header.publisherId)
    ensures rx.mode == ReliableOrdered && rx.tracker.active != Some(f.header.publisherId)
    ensures KnowsOnly(rx.recent, f.header.publisherId, {}) && KeyOf(rx, f) !in rx.recent
    ensures Recovery.Keyed(rx.engine.buffer)
  {
    UnheardHasNone(arrivals, f.header.publisherId);
    assert Heard(arrivals, blocks[|blocks| - 1].publisherId);
  }

  /** The awaited frame is delivered, and with it whatever follows without a hole, foreign or not. */
  lemma PhaseAwaited(rx: Receiver, q: u64, foreign: Recovery.ReorderBuffer, arrivals: seq<OwnedFrame>,
                     block: seq<OwnedFrame>, g: OwnedFrame, now: nat)
    requires Phase(rx, q, foreign, arrivals, block)
    requires g.header.publisherId == q && g.header.sequence == rx.tracker.expected
    ensures var (rx', r) := Processed(rx, g, now);
            Phase(rx', q, foreign, arrivals + [g], block + FramesOf(r))
  {
    var expected, arrived, buffer := rx.tracker.expected, Sequences(arrivals, q), rx.engine.buffer;
    assert KeyOf(rx, g) !in rx.recent && expected >= 1;
    hide Processed, Recovery.Drained, BufferPlaced, BlockPlaced, Cursor, Sequences, KnowsOnly, Dedup.Record;
    KnowsGrows(rx.filterCapacity, rx.recent, KeyOf(rx, g), q, arrived);
    AwaitedEffect(rx, g, now);
    SequencesGrow(arrivals, g, q);
    CursorAdvances(expected, buffer, arrived + foreign.Keys);
    assert arrived + foreign.Keys + {expected} == (arrived + {expected}) + foreign.Keys;
    PlacedLeft(buffer, expected, q, foreign, arrived);
    PlacedRun(block, g, buffer, expected, q, foreign, arrived);
  }

  lemma PlacedLeft(buffer: Recovery.ReorderBuffer, expected: nat, q: u64, foreign: Recovery.ReorderBuffer,
                   arrived: set<nat>)
    requires BufferPlaced(buffer, expected, q, foreign, arrived)
    ensures var (run, left) := Recovery.Drained(buffer, expected + 1);
            BufferPlaced(left, expected + 1 + |run|, q, foreign, arrived + {expected})
  {
    Recovery.DrainedMeaning(buffer, expected + 1);
  }

  lemma PlacedRun(block: seq<OwnedFrame>, g: OwnedFrame, buffer: Recovery.ReorderBuffer, expected: nat, q: u64,
                  foreign: Recovery.ReorderBuffer, arrived: set<nat>)
    requires expected >= 1 && |block| == expected - 1
    requires g.header.publisherId == q && g.header.sequence == expected
    requires BlockPlaced(block, q, foreign, arrived) && BufferPlaced(buffer, expected, q, foreign, arrived)
    ensures BlockPlaced(block + ([g] + Recovery.Drained(buffer, expected + 1).0), q, foreign, arrived + {expected})
  {
    var run := Recovery.Drained(buffer, expected + 1).0;
    Recovery.DrainedMeaning(buffer, expected + 1);
    var all := block + ([g] + run);
    forall i | 0 <= i < |all|
      ensures Placed(all[i], i + 1, q, foreign, arrived + {expected})
    {
      if i > expected - 1 {
        var k := i + 1;
        assert k in buffer && run[k - (expected + 1)] == buffer[k];
        assert all[i] == buffer[k];
      }
    }
  }

  /** Any other frame delivers nothing; above the cursor it replaces what is buffered there. */
  lemma PhaseUnawaited(rx: Receiver, q: u64, foreign: Recovery.ReorderBuffer, arrivals: seq<OwnedFrame>,
                       block: seq<OwnedFrame>, g: OwnedFrame, now: nat)
    requires Phase(rx, q, foreign, arrivals, block)
    requires g.header.publisherId == q && g.header.sequence >= 1 && g.header.sequence != rx.tracker.expected
    ensures var (rx', r) := Processed(rx, g, now);
            Phase(rx', q, foreign, arrivals + [g], block + FramesOf(r))
  {
    var n, expected, arrived := g.header.sequence as nat, rx.tracker.expected, Sequences(arrivals, q);
    assert KeyOf(rx, g) in rx.recent ==> n in arrived;
    assert n < expected ==> n in arrived + foreign.Keys;
    PlacedWaits(rx.engine.buffer, expected, q, foreign, arrived, g, block);
    hide Processed, Sequences, Cursor, KnowsOnly, Dedup.Record, BufferPlaced, BlockPlaced;
    var (rx', r) := Processed(rx, g, now);
    UnawaitedEffect(rx, g, now);
    KnowsGrows(rx.filterCapacity, rx.recent, KeyOf(rx, g), q, arrived);
    SequencesGrow(arrivals, g, q);
    assert block + [] == block;
    assert arrived + {n} + foreign.Keys == (arrived + foreign.Keys) + {n};
    if n > expected && KeyOf(rx, g) !in rx.recent {
      CursorWaits(expected, rx.engine.buffer, arrived + foreign.Keys, n, g);
    } else {
      assert (arrived + foreign.Keys) + {n} == arrived + foreign.Keys;
    }
  }

  /** A further arrival leaves everything in place, whether it is buffered or not. */
  lemma PlacedWaits(buffer: Recovery.ReorderBuffer, expected: nat, q: u64, foreign: Recovery.ReorderBuffer,
                    arrived: set<nat>, g: OwnedFrame, block: seq<OwnedFrame>)
    requires BufferPlaced(buffer, expected, q, foreign, arrived) && BlockPlaced(block, q, foreign, arrived)
    requires g.header.publisherId == q
    ensures var more := arrived + {g.header.sequence as nat};
            && BufferPlaced(buffer, expected, q, foreign, more) && BlockPlaced(block, q, foreign, more)
            && BufferPlaced(buffer[g.header.sequence := g], expected, q, foreign, more)
  {}

  lemma {:induction false} PhaseContinues(rx: Receiver, q: u64, foreign: Recovery.ReorderBuffer,
                                          arrivals: seq<OwnedFrame>, block: seq<OwnedFrame>, calls: seq<Call>)
    requires Phase(rx, q, foreign, arrivals, block) && From(calls, q)
    ensures var (rx', fs) := ProcessAll(rx, calls);
            Phase(rx', q, foreign, arrivals + FramesIn(calls), block + fs)
    decreases |calls|
  {
    hide Phase, Processed;
    if |calls| == 0 {
      assert arrivals + FramesIn(calls) == arrivals && block + [] == block;
    } else {
      var init, last := calls[..|calls| - 1], calls[|calls| - 1];
      PhaseContinues(rx, q, foreign, arrivals, block, init);
      var (before, fs) := ProcessAll(rx, init);
      var r := Processed(before, last.frame, last.now).1;
      if last.frame.header.sequence == before.tracker.expected {
        PhaseAwaited(before, q, foreign, arrivals + FramesIn(init), block + fs, last.frame, last.now);
      } else {
        PhaseUnawaited(before, q, foreign, arrivals + FramesIn(init), block + fs, last.frame, last.now);
      }
      assert arrivals + FramesIn(calls) == (arrivals + FramesIn(init)) + [last.frame];
      assert block + (fs + FramesOf(r)) == (block + fs) + FramesOf(r);
    }
  }

  /** The deliveries from the first frame of a new publisher on. */
  ghost function DeliveredFrom(rx: Receiver, f: OwnedFrame, now: nat, calls: seq<Call>): seq<OwnedFrame>
    requires f.header.sequence >= 1 && Legal(calls)
  {
    var (rx', r) := Processed(rx, f, now);
    FramesOf(r) + ProcessAll(rx', calls).1
  }

  lemma FreshPhase(rx: Receiver, arrivals: seq<OwnedFrame>, blocks: seq<Block>, f: OwnedFrame, now: nat,
                   calls: seq<Call>)
    requires Inv(rx, arrivals, blocks) && rx.tracker.active.Some? && f.header.sequence >= 1
    requires !Heard(arrivals, f.header.publisherId) && From(calls, f.header.publisherId)
    ensures Phase(ProcessAll(Processed(rx, f, now).0, calls).0, f.header.publisherId,
                  Left(rx.engine.buffer, f.header.sequence), [f] + FramesIn(calls),
                  DeliveredFrom(rx, f, now, calls))
  {
    PhaseBegins(rx, arrivals, blocks, f, now);
    var (rx', r) := Processed(rx, f, now);
    PhaseContinues(rx', f.header.publisherId, Left(rx.engine.buffer, f.header.sequence), [f], FramesOf(r), calls);
  }

  /**
   When a fresh publisher starts above 1 while a frame is buffered under key k, then as soon as its own 1..k-1 have
   arrived, in any order, and its own k has not, the buffered frame has been delivered as its k-th. Above the old
   cursor that frame is the old publisher's.
   */
  lemma LateStartDeliversForeign(rx: Receiver, arrivals: seq<OwnedFrame>, blocks: seq<Block>, f: OwnedFrame,
                                 now: nat, calls: seq<Call>, k: nat)
    requires Inv(rx, arrivals, blocks) && rx.tracker.active.Some?
    requires !Heard(arrivals, f.header.publisherId) && f.header.sequence > 1
    requires k in rx.engine.buffer && k > 1 && k != f.header.sequence
    requires From(calls, f.header.publisherId)
    requires var arrived := Sequences([f] + FramesIn(calls), f.header.publisherId);
             k !in arrived && forall j :: 1 <= j < k ==> j in arrived
    ensures var fs := DeliveredFrom(rx, f, now, calls);
            && |fs| >= k && fs[k - 1] == rx.engine.buffer[k]
            && (k > rx.tracker.expected ==>
                  fs[k - 1].header.publisherId == rx.tracker.active.value != f.header.publisherId)
  {
    hide Processed, ProcessAll, DeliveredFrom;
    var q, foreign := f.header.publisherId, Left(rx.engine.buffer, f.header.sequence);
    FreshPhase(rx, arrivals, blocks, f, now, calls);
    assert k in foreign;
    PhaseDelivers(ProcessAll(Processed(rx, f, now).0, calls).0, q, foreign, [f] + FramesIn(calls),
                  DeliveredFrom(rx, f, now, calls), k);
    assert Heard(arrivals, blocks[|blocks| - 1].publisherId);
  }

  lemma PhaseInSequence(rx: Receiver, q: u64, arrivals: seq<OwnedFrame>, block: seq<OwnedFrame>)
    requires Phase(rx, q, map[], arrivals, block)
    ensures InSequence(block, q)
  {
    var arrived := Sequences(arrivals, q);
    assert forall i :: 0 <= i < |block| ==> Placed(block[i], i + 1, q, map[], arrived);
  }

  lemma PhaseDelivers(rx: Receiver, q: u64, foreign: Recovery.ReorderBuffer, arrivals: seq<OwnedFrame>,
                      block: seq<OwnedFrame>, k: nat)
    requires Phase(rx, q, foreign, arrivals, block) && k in foreign && k >= 1
    requires k !in Sequences(arrivals, q) && forall j :: 1 <= j < k ==> j in Sequences(arrivals, q)
    ensures |block| >= k && block[k - 1] == foreign[k]
  {
    var expected, arrived := rx.tracker.expected, Sequences(arrivals, q);
    assert 1 <= expected < k ==> expected in arrived;
    assert Placed(block[k - 1], k - 1 + 1, q, foreign, arrived);
  }

  /** Some frame of another publisher than q stays buffered within reach of a drain when q starts at n. */
  ghost predicate LeavesForeign(buffer: Recovery.ReorderBuffer, n: nat, q: u64) {
    exists k :: k in buffer && k > 1 && k != n && buffer[k].header.publisherId != q
  }

  /** Whatever else the publisher sends, its deliveries are 1, 2, 3, ... and its own. */
  ghost predicate StaysInSequence(rx: Receiver, f: OwnedFrame, now: nat)
    requires f.header.sequence >= 1
  {
    forall calls :: From(calls, f.header.publisherId) ==>
                      InSequence(DeliveredFrom(rx, f, now, calls), f.header.publisherId)
  }

  /** Frames 1..k of publisher q. */
  function UpTo(q: u64, k: nat): (calls: seq<Call>)
    requires k < 0x1_0000_0000_0000_0000
    ensures |calls| == k
    ensures forall i :: 0 <= i < k ==> calls[i].frame.header.publisherId == q
                                       && calls[i].frame.header.sequence == i + 1
  {
    if k == 0 then [] else UpTo(q, k - 1) + [Call(NewData(0, k, 0, q, []), 0)]
  }

  lemma UpToArrives(q: u64, k: nat, f: OwnedFrame)
    requires k < 0x1_0000_0000_0000_0000 && f.header.publisherId == q
    ensures forall n :: n in Sequences([f] + FramesIn(UpTo(q, k)), q) <==> 1 <= n <= k || n == f.header.sequence
  {
    var calls := UpTo(q, k);
    var all := [f] + FramesIn(calls);
    assert all[0] == f;
    forall j | 1 <= j <= k
      ensures j in Sequences(all, q)
    {
      assert all[j] == calls[j - 1].frame && all[j] in all;
    }
    forall n | n in Sequences(all, q)
      ensures 1 <= n <= k || n == f.header.sequence
    {
      var g :| g in all && g.header.publisherId == q && g.header.sequence as nat == n;
      var i :| 0 <= i < |all| && all[i] == g;
      assert i > 0 ==> all[i] == calls[i - 1].frame;
    }
  }

  /**
   For a fresh publisher, whatever it sends after its first frame is delivered in sequence and unmixed exactly when
   that first frame is 1 or no frame of another publisher stays within reach of a drain.
   */
  lemma FreshPublisherExactly(rx: Receiver, arrivals: seq<OwnedFrame>, blocks: seq<Block>, f: OwnedFrame, now: nat)
    requires Inv(rx, arrivals, blocks) && rx.tracker.active.Some? && f.header.sequence >= 1
    requires !Heard(arrivals, f.header.publisherId)
    ensures StaysInSequence(rx, f, now) <==>
            f.header.sequence == 1 || !LeavesForeign(rx.engine.buffer, f.header.sequence, f.header.publisherId)
  {
    var q, n := f.header.publisherId, f.header.sequence as nat;
    if n == 1 || !LeavesForeign(rx.engine.buffer, n, q) {
      forall calls | From(calls, q)
        ensures InSequence(DeliveredFrom(rx, f, now, calls), q)
      {
        FreshPhase(rx, arrivals, blocks, f, now, calls);
        var left, fs := Left(rx.engine.buffer, n), DeliveredFrom(rx, f, now, calls);
        assert forall k :: k in left ==> left[k].header.publisherId == q;
        assert forall i :: 0 <= i < |fs| ==> Placed(fs[i], i + 1, q, left, Sequences([f] + FramesIn(calls), q));
      }
    } else {
      var k :| k in rx.engine.buffer && k > 1 && k != n && rx.engine.buffer[k].header.publisherId != q;
      var calls := UpTo(q, k - 1);
      UpToArrives(q, k - 1, f);
      LateStartDeliversForeign(rx, arrivals, blocks, f, now, calls, k);
      assert !InSequence(DeliveredFrom(rx, f, now, calls), q);
      assert From(calls, q);
    }
  }

  // ---------------------------------------------------------------- a returning publisher

  /** The filter knows q's frame j. */
  ghost predicate Knows(rx: Receiver, q: u64, j: nat) {
    exists key :: key in rx.recent && key == Dedup.Key(rx.streamId, q, key.sequence) && key.sequence == j
  }

  /** The filter knows q's frames from g to n-1, and no drain gets past g: nothing is buffered there, or g is 0. */
  ghost predicate Blocked(rx: Receiver, q: u64, g: nat, n: nat) {
    && g < n
    && (forall j :: 1 <= j && g <= j < n ==> Knows(rx, q, j))
    && (g == 0 || g !in rx.engine.buffer)
  }

  /** A frame n of q is blocked by some g below it. */
  ghost predicate CutOff(rx: Receiver, q: u64, n: nat) {
    exists g :: Blocked(rx, q, g, n)
  }

  ghost predicate Doomed(rx: Receiver, q: u64, g: nat, n: nat) {
    && n >= 1 && Blocked(rx, q, g, n) && Knows(rx, q, n)
    && rx.mode == ReliableOrdered && rx.tracker.active == Some(q)
    && Recovery.Keyed(rx.engine.buffer)
  }

  /** Without eviction the filter forgets nothing. */
  lemma KnowsMore(rx: Receiver, f: OwnedFrame, rx': Receiver, q: u64, j: nat)
    requires |rx.recent| < rx.filterCapacity && Knows(rx, q, j) && rx'.streamId == rx.streamId
    requires rx'.recent == Dedup.Record(rx.filterCapacity, rx.recent, KeyOf(rx, f)).1
    ensures Knows(rx', q, j)
  {
    var key :| key in rx.recent && key == Dedup.Key(rx.streamId, q, key.sequence) && key.sequence == j;
    assert key in rx'.recent;
  }

  lemma StillDoomed(rx: Receiver, q: u64, g: nat, n: nat, f: OwnedFrame, rx': Receiver)
    requires Doomed(rx, q, g, n) && |rx.recent| < rx.filterCapacity
    requires rx'.mode == rx.mode && rx'.streamId == rx.streamId && rx'.tracker.active == rx.tracker.active
    requires rx'.recent == Dedup.Record(rx.filterCapacity, rx.recent, KeyOf(rx, f)).1
    requires Recovery.Keyed(rx'.engine.buffer) && (g == 0 || g !in rx'.engine.buffer)
    ensures Doomed(rx', q, g, n)
  {
    hide Knows, Dedup.Record;
    forall j | 1 <= j && g <= j <= n
      ensures Knows(rx', q, j)
    {
      KnowsMore(rx, f, rx', q, j);
    }
  }

  lemma UnknownIsOutside(rx: Receiver, q: u64, g: nat, n: nat, f: OwnedFrame)
    requires Doomed(rx, q, g, n) && f.header.publisherId == q && f.header.sequence >= 1
    requires KeyOf(rx, f) !in rx.recent
    ensures f.header.sequence < g || f.header.sequence > n
  {
    var h := f.header.sequence as nat;
    assert 1 <= h && g <= h < n ==> Knows(rx, q, h);
    assert Knows(rx, q, h) ==> KeyOf(rx, f) in rx.recent;
  }

  lemma DoomedStep(rx: Receiver, q: u64, g: nat, n: nat, f: OwnedFrame, now: nat)
    requires Doomed(rx, q, g, n) && f.header.publisherId == q && f.header.sequence >= 1
    requires |rx.recent| < rx.filterCapacity
    ensures var (rx', r) := Processed(rx, f, now);
            && Doomed(rx', q, g, n) && !Delivers(FramesOf(r), n)
            && rx'.filterCapacity == rx.filterCapacity && |rx'.recent| <= |rx.recent| + 1
  {
    var (rx', r) := Processed(rx, f, now);
    var h, buffer := f.header.sequence as nat, rx.engine.buffer;
    hide Knows, Dedup.Last, Processed, Recovery.Drained;
    if h != rx.tracker.expected {
      UnawaitedEffect(rx, f, now);
      if KeyOf(rx, f) !in rx.recent {
        UnknownIsOutside(rx, q, g, n, f);
      }
    } else if KeyOf(rx, f) in rx.recent {
      KnownAwaitedEffect(rx, f, now);
    } else {
      AwaitedEffect(rx, f, now);
      UnknownIsOutside(rx, q, g, n, f);
      RunStopsBefore(buffer, h + 1, g, n);
      NoneDelivered(f, Recovery.Drained(buffer, h + 1).0, n);
    }
    StillDoomed(rx, q, g, n, f, rx');
  }

  /** A drain that starts at or below an empty key g does not reach n above it. */
  lemma RunStopsBefore(buffer: Recovery.ReorderBuffer, start: nat, g: nat, n: nat)
    requires Recovery.Keyed(buffer) && g < n && (start > n || (start <= g && g !in buffer))
    ensures var (run, left) := Recovery.Drained(buffer, start);
            && !Delivers(run, n)
            && Recovery.Keyed(left) && (g in left ==> g in buffer)
  {
    var (run, left) := Recovery.Drained(buffer, start);
    Recovery.DrainedMeaning(buffer, start);
    forall f | f in run
      ensures f.header.sequence != n
    {
      var i :| 0 <= i < |run| && run[i] == f;
      assert start + i in buffer && run[start + i - start] == buffer[start + i];
      assert start <= g < start + |run| ==> g in buffer;
    }
  }

  lemma NoneDelivered(f: OwnedFrame, run: seq<OwnedFrame>, n: nat)
    requires f.header.sequence != n && !Delivers(run, n)
    ensures !Delivers([f] + run, n)
  {
    assert forall x :: x in [f] + run <==> x == f || x in run;
  }

  lemma {:induction false} DoomedStays(rx: Receiver, q: u64, g: nat, n: nat, calls: seq<Call>)
    requires Doomed(rx, q, g, n) && From(calls, q) && |rx.recent| + |calls| <= rx.filterCapacity
    ensures var (rx', fs) := ProcessAll(rx, calls);
            && Doomed(rx', q, g, n) && !Delivers(fs, n)
            && rx'.filterCapacity == rx.filterCapacity && |rx'.recent| <= |rx.recent| + |calls|
    decreases |calls|
  {
    hide Processed, Doomed;
    if |calls| != 0 {
      var init, last := calls[..|calls| - 1], calls[|calls| - 1];
      DoomedStays(rx, q, g, n, init);
      var (before, fs) := ProcessAll(rx, init);
      DoomedStep(before, q, g, n, last.frame, last.now);
      var more := FramesOf(Processed(before, last.frame, last.now).1);
      assert forall h :: h in fs + more <==> h in fs || h in more;
    }
  }

  /**
   Publisher f.publisherId takes over from another, again or for the first time, with a frame above 1 that the filter
   does not know.
   */
  ghost predicate TakesOver(rx: Receiver, f: OwnedFrame) {
    && rx.mode == ReliableOrdered && Recovery.Keyed(rx.engine.buffer)
    && rx.tracker.active.Some? && rx.tracker.active != Some(f.header.publisherId)
    && f.header.sequence >= 2
    && KeyOf(rx, f) !in rx.recent
  }

  lemma TakenOver(rx: Receiver, f: OwnedFrame, now: nat)
    requires TakesOver(rx, f)
    ensures var (rx', r) := Processed(rx, f, now);
            && FramesOf(r) == []
            && rx'.mode == ReliableOrdered && rx'.streamId == rx.streamId && rx'.filterCapacity == rx.filterCapacity
            && rx'.tracker.active == Some(f.header.publisherId) && rx'.tracker.expected == 1
            && rx'.recent == Dedup.Record(rx.filterCapacity, rx.recent, KeyOf(rx, f)).1
            && rx'.engine.buffer == rx.engine.buffer[f.header.sequence := f]
  {
    NewPublisherEffect(rx, f, now);
  }

  /** Any frame above 1 of a publisher other than the active one, known or not, puts the cursor back to 1. */
  lemma SwitchEffect(rx: Receiver, f: OwnedFrame, now: nat)
    requires rx.mode == ReliableOrdered && f.header.sequence >= 2
    requires rx.tracker.active.Some? && rx.tracker.active != Some(f.header.publisherId)
    ensures var (rx', r) := Processed(rx, f, now);
            && FramesOf(r) == [] && rx'.mode == ReliableOrdered
            && rx'.tracker.active == Some(f.header.publisherId) && rx'.tracker.expected == 1
  {}

  /** Until the awaited sequence arrives nothing is delivered. */
  lemma {:induction false} StalledWithout(rx: Receiver, p: u64, calls: seq<Call>)
    requires rx.mode == ReliableOrdered && rx.tracker.active == Some(p)
    requires From(calls, p) && Without(calls, rx.tracker.expected)
    ensures var (rx', fs) := ProcessAll(rx, calls);
            && fs == [] && rx'.mode == ReliableOrdered
            && rx'.tracker.active == Some(p) && rx'.tracker.expected == rx.tracker.expected
    decreases |calls|
  {
    hide Processed;
    if |calls| != 0 {
      var init, last := calls[..|calls| - 1], calls[|calls| - 1];
      StalledWithout(rx, p, init);
      UnawaitedEffect(ProcessAll(rx, init).0, last.frame, last.now);
    }
  }

  /**
   One frame above 1 of another publisher, a late duplicate included, stalls the whole stream: nothing that publisher
   sends is delivered until its 1 arrives, however far it had been delivered before.
   */
  lemma TakeoverStalls(rx: Receiver, f: OwnedFrame, now: nat, calls: seq<Call>)
    requires rx.mode == ReliableOrdered && f.header.sequence >= 2
    requires rx.tracker.active.Some? && rx.tracker.active != Some(f.header.publisherId)
    requires From(calls, f.header.publisherId) && Without(calls, 1)
    ensures DeliveredFrom(rx, f, now, calls) == []
  {
    hide Processed, ProcessAll;
    SwitchEffect(rx, f, now);
    StalledWithout(Processed(rx, f, now).0, f.header.publisherId, calls);
  }

  /** A frame that is cut off when it arrives is not delivered as long as the filter evicts nothing. */
  lemma CutOffIsLost(rx: Receiver, f: OwnedFrame, now: nat, calls: seq<Call>)
    requires TakesOver(rx, f) && CutOff(rx, f.header.publisherId, f.header.sequence)
    requires From(calls, f.header.publisherId) && |rx.recent| + 1 + |calls| <= rx.filterCapacity
    ensures !Delivers(DeliveredFrom(rx, f, now, calls), f.header.sequence)
  {
    var q, n := f.header.publisherId, f.header.sequence as nat;
    TakenOver(rx, f, now);
    hide Processed, ProcessAll;
    var rx' := Processed(rx, f, now).0;
    var g :| Blocked(rx, q, g, n);
    forall j | 1 <= j && g <= j < n
      ensures Knows(rx', q, j)
    {
      KnowsMore(rx, f, rx', q, j);
    }
    assert Knows(rx', q, n) by {
      assert rx'.recent[|rx.recent|] == KeyOf(rx, f);
    }
    DoomedStays(rx', q, g, n, calls);
  }

  // ---------------------------------------------------------------- a frame that is not cut off

  /** The cursor is between j and i, i is unknown to the filter, and from i+1 up to f nothing is missing. */
  ghost predicate Closing(rx: Receiver, q: u64, i: nat, f: OwnedFrame, j: nat) {
    && rx.mode == ReliableOrdered && rx.tracker.active == Some(q)
    && j < rx.tracker.expected <= i < f.header.sequence
    && !Knows(rx, q, i)
    && (forall k :: i < k <= f.header.sequence ==> k in rx.engine.buffer)
    && rx.engine.buffer[f.header.sequence as nat] == f
  }

  /** The next frame in line either delivers f or brings the cursor further. */
  lemma ClosingStep(rx: Receiver, q: u64, i: nat, f: OwnedFrame, j: nat, h: OwnedFrame, now: nat)
    requires Closing(rx, q, i, f, j) && h.header.publisherId == q && h.header.sequence == j + 1
    ensures var (rx', r) := Processed(rx, h, now);
            f in FramesOf(r) || (j + 1 < i && Closing(rx', q, i, f, j + 1))
  {
    var (rx', r) := Processed(rx, h, now);
    var expected, buffer := rx.tracker.expected, rx.engine.buffer;
    assert KeyOf(rx, h) in rx.recent ==> Knows(rx, q, j + 1);
    hide Processed, Dedup.Record, Recovery.Drained;
    if expected != j + 1 {
      UnawaitedEffect(rx, h, now);
      StillUnknown(rx, h, rx', q, i);
    } else if KeyOf(rx, h) in rx.recent {
      KnownAwaitedEffect(rx, h, now);
      assert j + 1 != i;
    } else {
      AwaitedEffect(rx, h, now);
      DrainCloses(buffer, expected, i, f);
      if expected != i {
        StillUnknown(rx, h, rx', q, i);
      }
    }
  }

  /** A drain after the awaited sequence includes f, or stops at or below i and leaves the stretch up to f buffered. */
  lemma DrainCloses(buffer: Recovery.ReorderBuffer, expected: nat, i: nat, f: OwnedFrame)
    requires expected <= i < f.header.sequence && (forall k :: i < k <= f.header.sequence ==> k in buffer)
    requires buffer[f.header.sequence as nat] == f
    ensures var (run, left) := Recovery.Drained(buffer, expected + 1);
            || f in run
            || (&& expected + 1 + |run| <= i
                && (forall k :: i < k <= f.header.sequence ==> k in left)
                && left[f.header.sequence as nat] == f)
  {
    RunReaches(buffer, expected + 1, i, f);
    Recovery.DrainedMeaning(buffer, expected + 1);
  }

  /** A known frame that is awaited is not delivered, but the tracker moves on. */
  lemma KnownAwaitedEffect(rx: Receiver, h: OwnedFrame, now: nat)
    requires rx.mode == ReliableOrdered && rx.tracker.active == Some(h.header.publisherId)
    requires h.header.sequence == rx.tracker.expected && KeyOf(rx, h) in rx.recent
    ensures var (rx', r) := Processed(rx, h, now);
            FramesOf(r) == [] && rx' == rx.(tracker := rx.tracker.(expected := rx.tracker.expected + 1))
  {}

  lemma StillUnknown(rx: Receiver, h: OwnedFrame, rx': Receiver, q: u64, i: nat)
    requires !Knows(rx, q, i) && h.header.sequence != i && rx'.streamId == rx.streamId
    requires rx'.recent == Dedup.Record(rx.filterCapacity, rx.recent, KeyOf(rx, h)).1
    ensures !Knows(rx', q, i)
  {}

  /** A drain over a gapless stretch up to f either includes f or stops at or below i. */
  lemma RunReaches(buffer: Recovery.ReorderBuffer, start: nat, i: nat, f: OwnedFrame)
    requires start <= i + 1 && i < f.header.sequence && f.header.sequence as nat in buffer
    requires forall k :: i < k <= f.header.sequence ==> k in buffer
    requires buffer[f.header.sequence as nat] == f
    ensures var run := Recovery.Drained(buffer, start).0;
            f in run || start + |run| <= i
  {
    var run, n := Recovery.Drained(buffer, start).0, f.header.sequence as nat;
    Recovery.DrainedMeaning(buffer, start);
    assert start + |run| !in buffer;
    if start + |run| > n {
      assert run[n - start] == buffer[n];
    }
  }

  lemma {:induction false} ClosingRun(rx: Receiver, q: u64, i: u64, f: OwnedFrame, k: nat)
    requires Closing(rx, q, i, f, 0) && k <= i
    ensures var (rx', fs) := ProcessAll(rx, UpTo(q, k));
            f in fs || (k < i && Closing(rx', q, i, f, k))
  {
    hide Processed, Closing;
    if k == 0 {
      ClosingIsOpen(rx, q, i, f);
    } else {
      ClosingRun(rx, q, i, f, k - 1);
      var calls := UpTo(q, k);
      assert calls[..|calls| - 1] == UpTo(q, k - 1);
      var (before, fs) := ProcessAll(rx, UpTo(q, k - 1));
      if f !in fs {
        ClosingStep(before, q, i, f, k - 1, calls[k - 1].frame, calls[k - 1].now);
      }
    }
  }

  lemma ClosingIsOpen(rx: Receiver, q: u64, i: nat, f: OwnedFrame)
    requires Closing(rx, q, i, f, 0)
    ensures i > 0
  {}

  /** Somewhere below n is the last frame the filter does not know. */
  lemma {:induction false} LastUnknown(rx: Receiver, q: u64, m: nat, n: nat) returns (i: nat)
    requires m < n && (forall k :: m < k < n ==> Knows(rx, q, k))
    requires exists k :: 1 <= k <= m && !Knows(rx, q, k)
    ensures 1 <= i <= m && !Knows(rx, q, i) && forall k :: i < k < n ==> Knows(rx, q, k)
  {
    hide Knows;
    if Knows(rx, q, m) {
      i := LastUnknown(rx, q, m - 1, n);
    } else {
      i := m;
    }
  }

  /** A frame that is not cut off when it arrives is delivered once its publisher's frames below it have arrived. */
  lemma NotCutOffIsDelivered(rx: Receiver, f: OwnedFrame, now: nat) returns (i: u64)
    requires TakesOver(rx, f) && !CutOff(rx, f.header.publisherId, f.header.sequence)
    ensures 1 <= i < f.header.sequence && f in DeliveredFrom(rx, f, now, UpTo(f.header.publisherId, i))
  {
    var q, n := f.header.publisherId, f.header.sequence as nat;
    TakenOver(rx, f, now);
    hide Processed, ProcessAll, Knows;
    assert !Blocked(rx, q, 0, n);
    var last := LastUnknown(rx, q, n - 1, n);
    forall k | last < k < n
      ensures k in rx.engine.buffer
    {
      assert !Blocked(rx, q, k, n);
    }
    i := last;
    var rx' := Processed(rx, f, now).0;
    StillUnknown(rx, f, rx', q, i);
    ClosingRun(rx', q, i, f, i);
  }

  /**
   Without eviction, a publisher that takes over with a new frame n > 1 can no longer get n delivered, whatever it
   sends, exactly when the filter knows its frames from some g up to n-1 and no drain gets past g.
   */
  lemma ReturningPublisherExactly(rx: Receiver, f: OwnedFrame, now: nat)
    requires TakesOver(rx, f) && |rx.recent| + f.header.sequence as nat <= rx.filterCapacity
    ensures CutOff(rx, f.header.publisherId, f.header.sequence) <==>
            forall calls :: From(calls, f.header.publisherId) && |rx.recent| + 1 + |calls| <= rx.filterCapacity ==>
                              !Delivers(DeliveredFrom(rx, f, now, calls), f.header.sequence)
  {
    var q, n := f.header.publisherId, f.header.sequence;
    hide Processed, ProcessAll, CutOff, DeliveredFrom;
    if CutOff(rx, q, n) {
      forall calls | From(calls, q) && |rx.recent| + 1 + |calls| <= rx.filterCapacity
        ensures !Delivers(DeliveredFrom(rx, f, now, calls), n)
      {
        CutOffIsLost(rx, f, now, calls);
      }
    } else {
      var i := NotCutOffIsDelivered(rx, f, now);
      var calls := UpTo(q, i);
      assert From(calls, q) && Delivers(DeliveredFrom(rx, f, now, calls), n);
    }
  }
}
