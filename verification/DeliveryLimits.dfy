/** What replay responses do to ordered, exactly-once delivery, for the call itself and for everything after it. */
module DeliveryLimits {
  import opened Outcomes
  import opened Frames
  import opened ReplayPayloads
  import opened Delivery
  import opened DeliveryRuns
  import Dedup
  import PublisherChanges
  import Recovery
  import Transport

  // ---------------------------------------------------------------- the replay path

  /** The keys are start, start+1, ... without a hole. */
  ghost predicate FillsFrom(keys: set<nat>, start: nat) {
    forall k :: k in keys <==> start <= k < start + |keys|
  }

  lemma {:induction false} AscendingSpread(fs: seq<OwnedFrame>, i: nat, j: nat)
    requires Recovery.StrictlyAscending(fs) && i <= j < |fs|
    ensures fs[j].header.sequence >= fs[i].header.sequence + (j - i)
    decreases j
  {
    if i < j {
      AscendingSpread(fs, i, j - 1);
    }
  }

  /** The frames are p's and carry start, start+1, ... */
  ghost predicate Continues(fs: seq<OwnedFrame>, p: u64, start: nat) {
    forall i :: 0 <= i < |fs| ==> fs[i].header.publisherId == p && fs[i].header.sequence == start + i
  }

  ghost predicate AllFrom(buffer: Recovery.ReorderBuffer, p: u64) {
    forall k :: k in buffer ==> buffer[k].header.publisherId == p
  }

  lemma ContinuingDrainFills(buffer: Recovery.ReorderBuffer, p: u64, start: nat)
    requires Recovery.Keyed(buffer) && Continues(Recovery.Ascending(buffer), p, start)
    ensures FillsFrom(buffer.Keys, start) && AllFrom(buffer, p)
  {
    var fs := Recovery.Ascending(buffer);
    Recovery.AscendingMeaning(buffer);
    hide Recovery.Ascending;
    assert |buffer.Keys| == |fs|;
    forall k | k in buffer
      ensures start <= k < start + |fs| && buffer[k].header.publisherId == p
    {
      assert Recovery.Holds(buffer, buffer[k]);
      var i :| 0 <= i < |fs| && fs[i] == buffer[k];
    }
    forall k | start <= k < start + |fs|
      ensures k in buffer
    {
      assert fs[k - start].header.sequence == k && fs[k - start] in fs;
    }
  }

  lemma FillingDrainContinues(buffer: Recovery.ReorderBuffer, p: u64, start: nat)
    requires Recovery.Keyed(buffer) && FillsFrom(buffer.Keys, start) && AllFrom(buffer, p)
    ensures Continues(Recovery.Ascending(buffer), p, start)
  {
    var fs := Recovery.Ascending(buffer);
    Recovery.AscendingMeaning(buffer);
    hide Recovery.Ascending;
    assert |buffer.Keys| == |fs|;
    forall i | 0 <= i < |fs|
      ensures fs[i].header.publisherId == p && fs[i].header.sequence == start + i
    {
      assert fs[i] in fs && fs[0] in fs && fs[|fs| - 1] in fs;
      AscendingSpread(fs, 0, i);
      AscendingSpread(fs, i, |fs| - 1);
    }
  }

  /** Draining all continues a numbered block exactly when the keys start at its end and have no hole. */
  lemma DrainContinues(buffer: Recovery.ReorderBuffer, last: seq<OwnedFrame>, p: u64)
    requires Recovery.Keyed(buffer) && InSequence(last, p)
    ensures InSequence(last + Recovery.Ascending(buffer), p) <==>
            FillsFrom(buffer.Keys, |last| + 1) && AllFrom(buffer, p)
  {
    hide FillsFrom, AllFrom, InSequence, Continues, Recovery.Ascending;
    ContinuedBlock(last, Recovery.Ascending(buffer), p);
    if Continues(Recovery.Ascending(buffer), p, |last| + 1) {
      ContinuingDrainFills(buffer, p, |last| + 1);
    }
    if FillsFrom(buffer.Keys, |last| + 1) && AllFrom(buffer, p) {
      FillingDrainContinues(buffer, p, |last| + 1);
    }
  }

  lemma AddedFrom(buffer: Recovery.ReorderBuffer, n: nat, f: OwnedFrame, p: u64)
    ensures buffer[n := f].Keys == buffer.Keys + {n}
    ensures AllFrom(buffer[n := f], p) <==>
            f.header.publisherId == p && forall k :: k in buffer && k != n ==> buffer[k].header.publisherId == p
  {
    var more := buffer[n := f];
    assert n in more && more[n] == f;
    assert forall k :: k in buffer && k != n ==> k in more && more[k] == buffer[k];
  }

  /**
   A replay response keeps what has been delivered so far in order exactly when it completes no request, or the
   reorder buffer together with the recovered frame is the active publisher's, starts at the awaited sequence and
   has no hole. What follows it is the subject of ResponseKeepsSequenceExactly.
   */
  lemma ReplayKeepsOrderExactly(rx: Receiver, arrivals: seq<OwnedFrame>, blocks: seq<Block>, p: u64, id: nat,
                                f: OwnedFrame)
    requires Inv(rx, arrivals, blocks) && rx.tracker.active == Some(p)
    ensures var fs := Transport.Replayed(rx, id, f).1;
            InSequence(blocks[|blocks| - 1].frames + fs, p) <==>
            !Recovery.Completes(rx.engine, id, f)
            || (f.header.publisherId == p
                && (forall k :: k in rx.engine.buffer && k != f.header.sequence ==>
                                  rx.engine.buffer[k].header.publisherId == p)
                && FillsFrom(rx.engine.buffer.Keys + {f.header.sequence as nat}, rx.tracker.expected))
  {
    var fs, last := Transport.Replayed(rx, id, f).1, blocks[|blocks| - 1].frames;
    assert last + [] == last;
    LastBlock(rx, arrivals, blocks, p);
    hide Inv, FillsFrom, AllFrom, InSequence, Recovery.Ascending;
    if Recovery.Completes(rx.engine, id, f) {
      var buffer := rx.engine.buffer[f.header.sequence := f];
      assert fs == Recovery.Ascending(buffer);
      AddedFrom(rx.engine.buffer, f.header.sequence, f, p);
      DrainContinues(buffer, last, p);
    }
  }

  lemma LastBlock(rx: Receiver, arrivals: seq<OwnedFrame>, blocks: seq<Block>, p: u64)
    requires Inv(rx, arrivals, blocks) && rx.tracker.active == Some(p)
    ensures var last := blocks[|blocks| - 1].frames;
            InSequence(last, p) && |last| == rx.tracker.expected - 1 && Recovery.Keyed(rx.engine.buffer)
  {}

  lemma ContinuedBlock(last: seq<OwnedFrame>, fs: seq<OwnedFrame>, p: u64)
    requires InSequence(last, p)
    ensures InSequence(last + fs, p) <==> Continues(fs, p, |last| + 1)
  {
    var all := last + fs;
    assert forall i :: 0 <= i < |fs| ==> all[|last| + i] == fs[i];
    if Continues(fs, p, |last| + 1) {
      forall i | 0 <= i < |all|
        ensures all[i].header.publisherId == p && all[i].header.sequence == i + 1
      {
        assert i < |last| || all[i] == fs[i - |last|];
      }
    }
  }

  /** Once a completed replay has supplied the awaited frame, a late copy of it is delivered a second time. */
  lemma LateOriginalDeliveredTwice(rx: Receiver, arrivals: seq<OwnedFrame>, blocks: seq<Block>, p: u64, id: nat,
                                   f: OwnedFrame, late: OwnedFrame, now: nat)
    requires Inv(rx, arrivals, blocks) && rx.tracker.active == Some(p) && Recovery.Completes(rx.engine, id, f)
    requires rx.tracker.expected in rx.engine.buffer.Keys + {f.header.sequence as nat}
    requires late.header.publisherId == p && late.header.sequence == rx.tracker.expected
    ensures var (rx', fs) := Transport.Replayed(rx, id, f);
            && Delivers(fs, rx.tracker.expected)
            && late in FramesOf(Processed(rx', late, now).1)
  {
    NothingUntilRepeat(rx, arrivals, blocks, p, id, f, [], late, now);
  }

  /**
   After a completed replay that supplied the awaited frame, nothing the publisher sends is delivered until that
   very sequence arrives again, and the first delivery then is that repeat.
   */
  lemma NothingUntilRepeat(rx: Receiver, arrivals: seq<OwnedFrame>, blocks: seq<Block>, p: u64, id: nat,
                           f: OwnedFrame, calls: seq<Call>, late: OwnedFrame, now: nat)
    requires Inv(rx, arrivals, blocks) && rx.tracker.active == Some(p) && Recovery.Completes(rx.engine, id, f)
    requires rx.tracker.expected in rx.engine.buffer.Keys + {f.header.sequence as nat}
    requires From(calls, p) && Without(calls, rx.tracker.expected)
    requires late.header.publisherId == p && late.header.sequence == rx.tracker.expected
    ensures var (rx1, fs) := Transport.Replayed(rx, id, f);
            var (rx2, none) := ProcessAll(rx1, calls);
            var again := FramesOf(Processed(rx2, late, now).1);
            && Delivers(fs, rx.tracker.expected)
            && none == []
            && |again| > 0 && again[0] == late
  {
    var (rx1, fs) := Transport.Replayed(rx, id, f);
    var buffer := rx.engine.buffer[f.header.sequence := f];
    Recovery.AscendingMeaning(buffer);
    assert Recovery.Holds(buffer, buffer[rx.tracker.expected]);
    assert KeyOf(rx, late) !in rx.recent;
    hide Processed, ProcessAll;
    WithheldWithoutAwaited(rx1, p, calls);
    AwaitedEffect(ProcessAll(rx1, calls).0, late, now);
  }

  ghost predicate Awaits(rx: Receiver, streamId: u64, p: u64, expected: nat) {
    && rx.mode == ReliableOrdered && rx.streamId == streamId
    && rx.tracker.active == Some(p) && rx.tracker.expected == expected
    && forall key :: key in rx.recent ==> !(key.publisherId == p && key.sequence == expected)
  }

  /** Arrivals other than the awaited one deliver nothing and leave it awaited and unknown to the filter. */
  lemma {:induction false} WithheldWithoutAwaited(rx: Receiver, p: u64, calls: seq<Call>)
    requires Awaits(rx, rx.streamId, p, rx.tracker.expected)
    requires From(calls, p) && Without(calls, rx.tracker.expected)
    ensures var (rx', fs) := ProcessAll(rx, calls);
            fs == [] && Awaits(rx', rx.streamId, p, rx.tracker.expected)
    decreases |calls|
  {
    hide Processed;
    if |calls| != 0 {
      var init, last := calls[..|calls| - 1], calls[|calls| - 1];
      WithheldWithoutAwaited(rx, p, init);
      UnawaitedEffect(ProcessAll(rx, init).0, last.frame, last.now);
    }
  }

  /** After a completed replay that kept the order the tracker still waits, and the next live frame is withheld. */
  lemma NextLiveFrameWithheld(rx: Receiver, arrivals: seq<OwnedFrame>, blocks: seq<Block>, p: u64, id: nat,
                              f: OwnedFrame, next: OwnedFrame, now: nat)
    requires Inv(rx, arrivals, blocks) && rx.tracker.active == Some(p)
    requires Recovery.Completes(rx.engine, id, f)
    requires FillsFrom(rx.engine.buffer.Keys + {f.header.sequence as nat}, rx.tracker.expected)
    requires next.header.publisherId == p
    requires next.header.sequence == rx.tracker.expected + |rx.engine.buffer.Keys + {f.header.sequence as nat}|
    ensures var (rx', fs) := Transport.Replayed(rx, id, f);
            && |fs| > 0 && fs[|fs| - 1].header.sequence + 1 == next.header.sequence
            && FramesOf(Processed(rx', next, now).1) == []
  {
    var (rx', fs) := Transport.Replayed(rx, id, f);
    LastBlock(rx, arrivals, blocks, p);
    hide FillsFrom, InSequence, Processed, Recovery.Ascending;
    var n, buffer := f.header.sequence as nat, rx.engine.buffer[f.header.sequence := f];
    assert buffer.Keys == rx.engine.buffer.Keys + {n};
    assert n in buffer.Keys;
    LastDrained(buffer, rx.tracker.expected);
    assert rx'.tracker == rx.tracker;
    UnawaitedIsWithheld(rx', next, now);
  }

  lemma LastDrained(buffer: Recovery.ReorderBuffer, start: nat)
    requires Recovery.Keyed(buffer) && FillsFrom(buffer.Keys, start) && buffer != map[]
    ensures var fs := Recovery.Ascending(buffer);
            |fs| > 0 && fs[|fs| - 1].header.sequence + 1 == start + |buffer.Keys|
  {
    var fs := Recovery.Ascending(buffer);
    Recovery.AscendingMeaning(buffer);
    assert |fs| == |buffer.Keys|;
    assert fs[0] in fs && fs[|fs| - 1] in fs;
    AscendingSpread(fs, 0, |fs| - 1);
  }

  lemma UnawaitedIsWithheld(rx: Receiver, f: OwnedFrame, now: nat)
    requires rx.mode == ReliableOrdered && rx.tracker.active == Some(f.header.publisherId)
    requires f.header.sequence != rx.tracker.expected
    ensures FramesOf(Processed(rx, f, now).1) == []
  {}

  // ---------------------------------------------------------------- what a response does to everything after it

  /** Whatever p sends, the block continued by its deliveries is 1, 2, 3, ... and p's. */
  ghost predicate KeepsSequence(rx: Receiver, block: seq<OwnedFrame>, p: u64) {
    forall calls :: From(calls, p) ==> InSequence(block + ProcessAll(rx, calls).1, p)
  }

  lemma InvKeepsSequence(rx: Receiver, arrivals: seq<OwnedFrame>, blocks: seq<Block>, p: u64)
    requires Inv(rx, arrivals, blocks) && rx.tracker.active == Some(p)
    ensures KeepsSequence(rx, blocks[|blocks| - 1].frames, p)
  {
    PublisherChanges.InvIsPhase(rx, arrivals, blocks, p);
    var last := blocks[|blocks| - 1].frames;
    hide Inv, ProcessAll;
    forall calls | From(calls, p)
      ensures InSequence(last + ProcessAll(rx, calls).1, p)
    {
      PublisherChanges.PhaseContinues(rx, p, map[], arrivals, last, calls);
      PublisherChanges.PhaseInSequence(ProcessAll(rx, calls).0, p, arrivals + FramesIn(calls),
                                       last + ProcessAll(rx, calls).1);
    }
  }

  /** Between the cursor and n there is a last sequence that has not arrived. */
  lemma {:induction false} LastHole(expected: nat, buffer: Recovery.ReorderBuffer, m: nat, n: nat) returns (i: nat)
    requires expected <= m < n && forall k :: m < k < n ==> k in buffer
    ensures expected <= i <= m && (i == expected || i !in buffer) && forall k :: i < k < n ==> k in buffer
    decreases m
  {
    if m > expected && m in buffer {
      i := LastHole(expected, buffer, m - 1, n);
    } else {
      i := m;
    }
  }

  /** A frame of another publisher above the cursor is delivered in p's block once p's frames below it have arrived. */
  lemma ForeignResponseDelivered(rx: Receiver, arrivals: seq<OwnedFrame>, blocks: seq<Block>, p: u64, id: nat,
                                 f: OwnedFrame) returns (i: u64)
    requires Inv(rx, arrivals, blocks) && rx.tracker.active == Some(p)
    requires id in rx.engine.outstanding && !Recovery.Completes(rx.engine, id, f)
    requires f.header.publisherId != p && f.header.sequence > rx.tracker.expected
    ensures rx.tracker.expected <= i < f.header.sequence
    ensures f in ProcessAll(Transport.Replayed(rx, id, f).0, PublisherChanges.UpTo(p, i)).1
  {
    var n, rx' := f.header.sequence as nat, Transport.Replayed(rx, id, f).0;
    assert rx'.engine.buffer == rx.engine.buffer[n := f] && rx' == rx.(engine := rx'.engine);
    var hole := LastHole(rx.tracker.expected, rx.engine.buffer, n - 1, n);
    assert hole !in Sequences(arrivals, p);
    assert !PublisherChanges.Knows(rx', p, hole);
    i := hole;
    hide Inv, ProcessAll;
    PublisherChanges.ClosingRun(rx', p, i, f, i);
  }

  lemma KeyFits(buffer: Recovery.ReorderBuffer, f: OwnedFrame, k: nat)
    requires Recovery.Keyed(buffer) && k in buffer.Keys + {f.header.sequence as nat}
    ensures k < 0x1_0000_0000_0000_0000
  {
    assert k in buffer ==> buffer[k].header.sequence == k;
  }

  /** A completed replay that supplied the awaited sequence: it will be delivered again. */
  lemma SupplyBreaksSequence(rx: Receiver, arrivals: seq<OwnedFrame>, blocks: seq<Block>, p: u64, id: nat,
                             f: OwnedFrame)
    requires Inv(rx, arrivals, blocks) && rx.tracker.active == Some(p) && Recovery.Completes(rx.engine, id, f)
    requires rx.tracker.expected in rx.engine.buffer.Keys + {f.header.sequence as nat}
    ensures var (rx', fs) := Transport.Replayed(rx, id, f);
            !KeepsSequence(rx', blocks[|blocks| - 1].frames + fs, p)
  {
    LastBlock(rx, arrivals, blocks, p);
    KeyFits(rx.engine.buffer, f, rx.tracker.expected);
    hide Inv, Processed, ProcessAll, InSequence, Transport.Replayed, Recovery.Keyed, Recovery.Completes;
    var (rx', fs) := Transport.Replayed(rx, id, f);
    var last := blocks[|blocks| - 1].frames;
    var late := NewData(0, rx.tracker.expected, 0, p, []);
    LateOriginalDeliveredTwice(rx, arrivals, blocks, p, id, f, late, 0);
    RepeatBreaks(last, fs, FramesOf(Processed(rx', late, 0).1), p);
    OneCallBreaks(rx', last + fs, late, p);
  }

  /** A completed replay that did not: the block already has a hole. */
  lemma MissBreaksSequence(rx: Receiver, arrivals: seq<OwnedFrame>, blocks: seq<Block>, p: u64, id: nat,
                           f: OwnedFrame)
    requires Inv(rx, arrivals, blocks) && rx.tracker.active == Some(p) && Recovery.Completes(rx.engine, id, f)
    requires rx.tracker.expected !in rx.engine.buffer.Keys + {f.header.sequence as nat}
    ensures var (rx', fs) := Transport.Replayed(rx, id, f);
            !KeepsSequence(rx', blocks[|blocks| - 1].frames + fs, p)
  {
    LastBlock(rx, arrivals, blocks, p);
    hide Inv, FillsFrom, AllFrom, InSequence, Recovery.Ascending, KeepsSequence;
    var (rx', fs) := Transport.Replayed(rx, id, f);
    var last, buffer := blocks[|blocks| - 1].frames, rx.engine.buffer[f.header.sequence := f];
    AddedFrom(rx.engine.buffer, f.header.sequence, f, p);
    DrainContinues(buffer, last, p);
    FillsFromStart(buffer.Keys, |last| + 1, f.header.sequence);
    NothingBreaks(rx', last + fs, p);
  }

  lemma FillsFromStart(keys: set<nat>, start: nat, n: nat)
    requires n in keys && start !in keys
    ensures !FillsFrom(keys, start)
  {
    assert keys != {};
    assert start in keys <==> !(start <= start < start + |keys|);
  }

  /** A block that is out of sequence already stays so. */
  lemma NothingBreaks(rx: Receiver, block: seq<OwnedFrame>, p: u64)
    requires !InSequence(block, p)
    ensures !KeepsSequence(rx, block, p)
  {
    var calls: seq<Call> := [];
    assert From(calls, p) && ProcessAll(rx, calls).1 == [] && block + [] == block;
  }

  /** One arrival whose deliveries do not continue the block is enough. */
  lemma OneCallBreaks(rx: Receiver, block: seq<OwnedFrame>, f: OwnedFrame, p: u64)
    requires f.header.publisherId == p && f.header.sequence >= 1
    requires !InSequence(block + FramesOf(Processed(rx, f, 0).1), p)
    ensures !KeepsSequence(rx, block, p)
  {
    hide Processed, InSequence;
    var calls := [Call(f, 0)];
    assert calls[..0] == [] && ProcessAll(rx, calls[..0]) == (rx, []);
    var fs := FramesOf(Processed(rx, f, 0).1);
    assert [] + fs == fs && ProcessAll(rx, calls).1 == fs;
    assert From(calls, p);
  }

  lemma RepeatBreaks(last: seq<OwnedFrame>, fs: seq<OwnedFrame>, again: seq<OwnedFrame>, p: u64)
    requires Delivers(fs, |last| + 1) && Delivers(again, |last| + 1)
    ensures !InSequence((last + fs) + again, p)
  {
    var all := (last + fs) + again;
    var f :| f in fs && f.header.sequence == |last| + 1;
    var i :| 0 <= i < |fs| && fs[i] == f;
    var g :| g in again && g.header.sequence == |last| + 1;
    var j :| 0 <= j < |again| && again[j] == g;
    assert all[|last| + i] == f && all[|last| + |fs| + j] == g;
  }

  /**
   Whatever the active publisher p goes on to send, its block stays 1, 2, 3, ... exactly when the response answers no
   open request, or completes none and is p's own or not above the cursor.
   */
  lemma ResponseKeepsSequenceExactly(rx: Receiver, arrivals: seq<OwnedFrame>, blocks: seq<Block>, p: u64, id: nat,
                                     f: OwnedFrame)
    requires Inv(rx, arrivals, blocks) && rx.tracker.active == Some(p)
    ensures var (rx', fs) := Transport.Replayed(rx, id, f);
            KeepsSequence(rx', blocks[|blocks| - 1].frames + fs, p) <==>
            id !in rx.engine.outstanding
            || (!Recovery.Completes(rx.engine, id, f)
                && (f.header.publisherId == p || f.header.sequence <= rx.tracker.expected))
  {
    var (rx', fs) := Transport.Replayed(rx, id, f);
    var last := blocks[|blocks| - 1].frames;
    if Recovery.Completes(rx.engine, id, f) {
      if rx.tracker.expected in rx.engine.buffer.Keys + {f.header.sequence as nat} {
        SupplyBreaksSequence(rx, arrivals, blocks, p, id, f);
      } else {
        MissBreaksSequence(rx, arrivals, blocks, p, id, f);
      }
    } else {
      assert fs == [] && last + [] == last;
      if Harmless(rx, id, f) {
        ResponseKeepsInv(rx, arrivals, blocks, id, f);
        InvKeepsSequence(rx', arrivals + Arriving(rx, Respond(id, f)), blocks, p);
      } else {
        var i := ForeignResponseDelivered(rx, arrivals, blocks, p, id, f);
        var calls := PublisherChanges.UpTo(p, i);
        var all := last + ProcessAll(rx', calls).1;
        assert f in all;
        assert From(calls, p) && !InSequence(all, p);
      }
    }
  }

  // ---------------------------------------------------------------- replies at or below the cursor

  /** Two buffers hold the same above n. */
  ghost predicate AgreeAbove(a: Recovery.ReorderBuffer, b: Recovery.ReorderBuffer, n: nat) {
    forall k :: k > n ==> (k in a <==> k in b) && (k in a ==> a[k] == b[k])
  }

  /** Two receivers that cannot be told apart by the active publisher's further arrivals. */
  ghost predicate Alike(a: Receiver, b: Receiver) {
    && a.mode == b.mode && a.streamId == b.streamId && a.filterCapacity == b.filterCapacity && a.recent == b.recent
    && a.tracker.active == b.tracker.active && a.tracker.expected == b.tracker.expected
    && AgreeAbove(a.engine.buffer, b.engine.buffer, a.tracker.expected)
  }

  lemma DrainNotLonger(a: Recovery.ReorderBuffer, b: Recovery.ReorderBuffer, n: nat)
    requires AgreeAbove(a, b, n)
    ensures |Recovery.Drained(a, n + 1).0| <= |Recovery.Drained(b, n + 1).0|
  {
    Recovery.DrainedMeaning(a, n + 1);
    Recovery.DrainedMeaning(b, n + 1);
    hide Recovery.Drained;
    assert n + 1 + |Recovery.Drained(b, n + 1).0| !in b;
  }

  lemma DrainsAgree(a: Recovery.ReorderBuffer, b: Recovery.ReorderBuffer, n: nat)
    requires AgreeAbove(a, b, n)
    ensures var ((runA, leftA), (runB, leftB)) := (Recovery.Drained(a, n + 1), Recovery.Drained(b, n + 1));
            runA == runB && AgreeAbove(leftA, leftB, n + 1 + |runA|)
  {
    var ((runA, leftA), (runB, leftB)) := (Recovery.Drained(a, n + 1), Recovery.Drained(b, n + 1));
    Recovery.DrainedMeaning(a, n + 1);
    Recovery.DrainedMeaning(b, n + 1);
    DrainNotLonger(a, b, n);
    DrainNotLonger(b, a, n);
    hide Recovery.Drained;
    forall i | 0 <= i < |runA|
      ensures runA[i] == runB[i]
    {
      var k := n + 1 + i;
      assert runA[k - (n + 1)] == a[k] && runB[k - (n + 1)] == b[k];
    }
  }

  lemma AlikeStep(a: Receiver, b: Receiver, p: u64, f: OwnedFrame, now: nat)
    requires Alike(a, b) && a.mode == ReliableOrdered && a.tracker.active == Some(p) && f.header.publisherId == p
    requires f.header.sequence >= 1
    ensures var ((a', r), (b', q)) := (Processed(a, f, now), Processed(b, f, now));
            && Alike(a', b') && FramesOf(r) == FramesOf(q)
            && a'.mode == ReliableOrdered && a'.tracker.active == Some(p)
  {
    hide Processed, Recovery.Drained, Dedup.Record;
    if f.header.sequence != a.tracker.expected {
      UnawaitedEffect(a, f, now);
      UnawaitedEffect(b, f, now);
    } else if KeyOf(a, f) in a.recent {
      PublisherChanges.KnownAwaitedEffect(a, f, now);
      PublisherChanges.KnownAwaitedEffect(b, f, now);
    } else {
      AwaitedEffect(a, f, now);
      AwaitedEffect(b, f, now);
      DrainsAgree(a.engine.buffer, b.engine.buffer, a.tracker.expected);
    }
  }

  lemma {:induction false} AlikeRuns(a: Receiver, b: Receiver, p: u64, calls: seq<Call>)
    requires Alike(a, b) && a.mode == ReliableOrdered && a.tracker.active == Some(p) && From(calls, p)
    ensures var ((a', fs), (b', gs)) := (ProcessAll(a, calls), ProcessAll(b, calls));
            && Alike(a', b') && fs == gs
            && a'.mode == ReliableOrdered && a'.tracker.active == Some(p)
    decreases |calls|
  {
    hide Processed, Alike;
    if |calls| != 0 {
      var init, last := calls[..|calls| - 1], calls[|calls| - 1];
      AlikeRuns(a, b, p, init);
      AlikeStep(ProcessAll(a, init).0, ProcessAll(b, init).0, p, last.frame, last.now);
    }
  }

  /**
   A response at or below the cursor that completes nothing might as well not have come: whatever the active publisher
   sends next, exactly the same is delivered without it.
   */
  lemma ReplyBelowCursorIsInert(rx: Receiver, p: u64, id: nat, f: OwnedFrame, calls: seq<Call>)
    requires rx.mode == ReliableOrdered && rx.tracker.active == Some(p)
    requires !Recovery.Completes(rx.engine, id, f) && f.header.sequence <= rx.tracker.expected
    requires From(calls, p)
    ensures ProcessAll(Transport.Replayed(rx, id, f).0, calls).1 == ProcessAll(rx, calls).1
  {
    AlikeRuns(Transport.Replayed(rx, id, f).0, rx, p, calls);
  }

  /**
   After a reply that brings the awaited sequence but completes nothing, nothing the publisher sends is delivered until
   that sequence arrives as DATA too; the reply does not stand in for it.
   */
  lemma AwaitedReplyWithheld(rx: Receiver, arrivals: seq<OwnedFrame>, blocks: seq<Block>, p: u64, id: nat,
                             f: OwnedFrame, calls: seq<Call>, late: OwnedFrame, now: nat)
    requires Inv(rx, arrivals, blocks) && rx.tracker.active == Some(p)
    requires !Recovery.Completes(rx.engine, id, f) && f.header.sequence == rx.tracker.expected
    requires From(calls, p) && Without(calls, rx.tracker.expected)
    requires late.header.publisherId == p && late.header.sequence == rx.tracker.expected
    ensures var (rx1, none) := Transport.Replayed(rx, id, f);
            var (rx2, fs) := ProcessAll(rx1, calls);
            var again := FramesOf(Processed(rx2, late, now).1);
            none == [] && fs == [] && |again| > 0 && again[0] == late
  {
    var rx1 := Transport.Replayed(rx, id, f).0;
    assert KeyOf(rx, late) !in rx.recent;
    assert Awaits(rx1, rx1.streamId, p, rx.tracker.expected);
    hide Inv, Processed, ProcessAll;
    WithheldWithoutAwaited(rx1, p, calls);
    AwaitedEffect(ProcessAll(rx1, calls).0, late, now);
  }

  // ---------------------------------------------------------------- the replay a takeover asks for

  /** Answers to one request, one after the other, and everything they hand out. */
  ghost function ReplayAll(rx: Receiver, id: nat, gs: seq<OwnedFrame>): (Receiver, seq<OwnedFrame>) {
    if |gs| == 0 then (rx, [])
    else
      var (before, fs) := ReplayAll(rx, id, gs[..|gs| - 1]);
      var (after, more) := Transport.Replayed(before, id, gs[|gs| - 1]);
      (after, fs + more)
  }

  /** Request `id` for 1..m has been answered by gs, which are buffered, and is still open. */
  ghost predicate Answering(rx: Receiver, id: nat, m: nat, gs: seq<OwnedFrame>) {
    && id in rx.engine.outstanding
    && rx.engine.outstanding[id].fromSequence == 1 && rx.engine.outstanding[id].toSequence == m
    && (forall n :: n in rx.engine.outstanding[id].received <==> 1 <= n <= |gs|)
    && (forall g :: g in gs ==> Recovery.Holds(rx.engine.buffer, g) && g.header.sequence <= |gs|)
    && Recovery.Keyed(rx.engine.buffer)
  }

  /** Buffering a frame with a new sequence keeps the others. */
  lemma BufferMore(buffer: Recovery.ReorderBuffer, gs: seq<OwnedFrame>, g: OwnedFrame)
    requires Recovery.Keyed(buffer) && forall h :: h in gs ==> Recovery.Holds(buffer, h)
    requires forall h :: h in gs ==> h.header.sequence != g.header.sequence
    ensures Recovery.Keyed(buffer[g.header.sequence := g])
    ensures forall h :: h in gs + [g] ==> Recovery.Holds(buffer[g.header.sequence := g], h)
  {
    forall h | h in gs + [g]
      ensures Recovery.Holds(buffer[g.header.sequence := g], h)
    {
      assert h in gs || h == g;
    }
  }

  lemma {:induction false} AnsweringStays(rx: Receiver, id: nat, m: nat, gs: seq<OwnedFrame>)
    requires Answering(rx, id, m, []) && |gs| < m
    requires forall i :: 0 <= i < |gs| ==> gs[i].header.sequence == i + 1
    ensures var (rx', fs) := ReplayAll(rx, id, gs);
            fs == [] && Answering(rx', id, m, gs)
    decreases |gs|
  {
    if |gs| != 0 {
      var init, g := gs[..|gs| - 1], gs[|gs| - 1];
      AnsweringStays(rx, id, m, init);
      AnswerStep(ReplayAll(rx, id, init).0, id, m, init, g);
      assert gs == init + [g];
    }
  }

  lemma AnswerStep(rx: Receiver, id: nat, m: nat, init: seq<OwnedFrame>, g: OwnedFrame)
    requires Answering(rx, id, m, init) && |init| + 1 < m && g.header.sequence == |init| + 1
    ensures var (rx', fs) := Transport.Replayed(rx, id, g);
            fs == [] && Answering(rx', id, m, init + [g])
  {
    var r := Recovery.Noted(rx.engine.outstanding[id], g.header.sequence);
    assert m !in r.received;
    assert !Recovery.Complete(r);
    BufferMore(rx.engine.buffer, init, g);
    hide Recovery.Holds, Recovery.Keyed;
    assert forall h :: h in init + [g] <==> h in init || h == g;
  }

  lemma LastAnswerHandsOut(rx: Receiver, id: nat, m: nat, init: seq<OwnedFrame>, g: OwnedFrame)
    requires Answering(rx, id, m, init) && |init| + 1 == m && g.header.sequence == m
    ensures forall h :: h in init + [g] ==> h in Transport.Replayed(rx, id, g).1
  {
    var buffer := rx.engine.buffer[g.header.sequence := g];
    assert Recovery.Complete(Recovery.Noted(rx.engine.outstanding[id], g.header.sequence));
    BufferMore(rx.engine.buffer, init, g);
    Recovery.AscendingMeaning(buffer);
  }

  lemma AnsweredInOrder(rx: Receiver, id: nat, gs: seq<OwnedFrame>)
    requires |gs| > 0 && Answering(rx, id, |gs|, [])
    requires forall i :: 0 <= i < |gs| ==> gs[i].header.sequence == i + 1
    ensures forall g :: g in gs ==> g in ReplayAll(rx, id, gs).1
  {
    hide Answering, Transport.Replayed;
    var init, last := gs[..|gs| - 1], gs[|gs| - 1];
    AnsweringStays(rx, id, |gs|, init);
    LastAnswerHandsOut(ReplayAll(rx, id, init).0, id, |gs|, init, last);
    assert gs == init + [last];
    var fs := Transport.Replayed(ReplayAll(rx, id, init).0, id, last).1;
    assert ReplayAll(rx, id, gs).1 == [] + fs == fs;
  }

  /** What a takeover asks for: everything below its first frame, if the limits allow. */
  lemma TakeoverRequest(rx: Receiver, f: OwnedFrame, now: nat)
    requires PublisherChanges.TakesOver(rx, f)
    requires f.header.sequence as nat - 1 <= rx.engine.config.maxReplayRange
    requires |rx.engine.outstanding| < rx.engine.config.maxOutstanding
    ensures var (rx', r) := Processed(rx, f, now);
            && r == Ok(Delivered([], Some(RequestPayload(rx.engine.nextRequestId, 1, f.header.sequence - 1))))
            && Answering(rx', rx.engine.nextRequestId, f.header.sequence as nat - 1, [])
  {}

  /**
   Answering that request in order hands out every frame below the first one again, whether or not it had been
   delivered before and the filter knows it.
   */
  lemma TakeoverReplayHandsOut(rx: Receiver, f: OwnedFrame, now: nat, gs: seq<OwnedFrame>)
    requires PublisherChanges.TakesOver(rx, f)
    requires f.header.sequence as nat - 1 <= rx.engine.config.maxReplayRange
    requires |rx.engine.outstanding| < rx.engine.config.maxOutstanding
    requires |gs| == f.header.sequence as nat - 1
    requires forall i :: 0 <= i < |gs| ==> gs[i].header.sequence == i + 1
    ensures var rx' := Processed(rx, f, now).0;
            forall g :: g in gs ==> g in ReplayAll(rx', rx.engine.nextRequestId, gs).1
  {
    hide Processed, Answering, ReplayAll;
    TakeoverRequest(rx, f, now);
    AnsweredInOrder(Processed(rx, f, now).0, rx.engine.nextRequestId, gs);
  }
}
