/**
 ReliableOrdered over whole runs: arrivals in any order and multiplicity, evictions from the duplicate
 filter, calls that return an error, timeout sweeps, unavailability notices, replay responses that do not
 complete a request, and publisher restarts.
 */
module DeliveryRuns {
  import opened Outcomes
  import opened Frames
  import opened ReplayPayloads
  import opened Delivery
  import Tracker
  import Dedup
  import Recovery

  // ---------------------------------------------------------------- histories

  /** The sequences publisher p has got through to the receiver. */
  function Sequences(arrivals: seq<OwnedFrame>, p: u64): set<nat> {
    set f | f in arrivals && f.header.publisherId == p :: f.header.sequence as nat
  }

  predicate Heard(arrivals: seq<OwnedFrame>, p: u64) {
    exists f :: f in arrivals && f.header.publisherId == p
  }

  /** What was delivered while one publisher was active. */
  datatype Block = Block(publisherId: u64, frames: seq<OwnedFrame>)

  function Flatten(blocks: seq<Block>): seq<OwnedFrame> {
    if |blocks| == 0 then [] else Flatten(blocks[..|blocks| - 1]) + blocks[|blocks| - 1].frames
  }

  /** Exactly the sequences 1, 2, ..., in order and once each, all of them arrivals from p. */
  ghost predicate Numbered(fs: seq<OwnedFrame>, p: u64, arrivals: seq<OwnedFrame>) {
    forall i :: 0 <= i < |fs| ==>
      fs[i].header.publisherId == p && fs[i].header.sequence == i + 1 && fs[i] in arrivals
  }

  /** Sequences 1, 2, 3, ... of one publisher. */
  ghost predicate InSequence(fs: seq<OwnedFrame>, p: u64) {
    forall i :: 0 <= i < |fs| ==> fs[i].header.publisherId == p && fs[i].header.sequence == i + 1
  }

  ghost predicate Delivers(fs: seq<OwnedFrame>, n: nat) {
    exists f :: f in fs && f.header.sequence == n
  }

  ghost predicate HasBlock(blocks: seq<Block>, p: u64) {
    exists i :: 0 <= i < |blocks| && blocks[i].publisherId == p
  }

  /** One block per publisher heard, each numbered from 1. */
  ghost predicate BlocksOk(blocks: seq<Block>, arrivals: seq<OwnedFrame>) {
    && (forall i :: 0 <= i < |blocks| ==> Numbered(blocks[i].frames, blocks[i].publisherId, arrivals))
    && (forall i :: 0 <= i < |blocks| ==> Heard(arrivals, blocks[i].publisherId))
    && (forall i, j :: 0 <= i < j < |blocks| ==> blocks[i].publisherId != blocks[j].publisherId)
    && (forall f :: f in arrivals ==> HasBlock(blocks, f.header.publisherId))
  }

  /** Every block goes as far as the arrivals allow: the sequence after it never arrived. */
  ghost predicate Longest(blocks: seq<Block>, arrivals: seq<OwnedFrame>) {
    forall i :: 0 <= i < |blocks| ==> |blocks[i].frames| + 1 !in Sequences(arrivals, blocks[i].publisherId)
  }

  // ---------------------------------------------------------------- the invariant

  /**
   The cursor is the least sequence that never arrived; above it exactly what has arrived is buffered. At or
   below it the buffer may hold copies left there by replay responses.
   */
  ghost predicate Cursor(expected: nat, buffer: Recovery.ReorderBuffer, arrived: set<nat>) {
    && expected >= 1
    && (forall n :: n in arrived ==> n >= 1)
    && (forall n :: 1 <= n < expected ==> n in arrived)
    && expected !in arrived
    && (forall k :: k > expected ==> (k in buffer <==> k in arrived))
  }

  /** Nothing at or below the cursor is buffered. */
  ghost predicate NoStale(rx: Receiver) {
    forall k :: k in rx.engine.buffer ==> k > rx.tracker.expected
  }

  /** Frames are buffered under their own sequence; above the cursor they are arrivals of the active publisher. */
  ghost predicate BufferOf(buffer: Recovery.ReorderBuffer, expected: nat, p: u64, arrivals: seq<OwnedFrame>) {
    forall k :: k in buffer ==>
      && buffer[k].header.sequence == k
      && (k > expected ==> buffer[k].header.publisherId == p && buffer[k] in arrivals)
  }

  /** Every key the filter remembers belongs to an arrival. */
  ghost predicate FilterOk(rx: Receiver, arrivals: seq<OwnedFrame>) {
    forall k :: k in rx.recent ==> k.sequence in Sequences(arrivals, k.publisherId)
  }

  ghost predicate ActiveOk(rx: Receiver, p: u64, arrivals: seq<OwnedFrame>, blocks: seq<Block>) {
    && |blocks| > 0
    && blocks[|blocks| - 1].publisherId == p
    && Cursor(rx.tracker.expected, rx.engine.buffer, Sequences(arrivals, p))
    && BufferOf(rx.engine.buffer, rx.tracker.expected, p, arrivals)
    && |blocks[|blocks| - 1].frames| == rx.tracker.expected - 1
    && (rx.tracker.expected > 1 || |blocks| == 1 ==> rx.highestDelivered == rx.tracker.expected - 1)
  }

  /** Links tracker, filter, reorder buffer and delivery cursor with what has arrived and been delivered. */
  ghost predicate Inv(rx: Receiver, arrivals: seq<OwnedFrame>, blocks: seq<Block>) {
    && rx.mode == ReliableOrdered
    && FilterOk(rx, arrivals)
    && BlocksOk(blocks, arrivals)
    && Longest(blocks, arrivals)
    && match rx.tracker.active
       case None => arrivals == [] && blocks == [] && rx.tracker.expected == 1
                    && rx.engine.buffer == map[] && rx.engine.outstanding == map[] && rx.highestDelivered == 0
       case Some(p) => ActiveOk(rx, p, arrivals, blocks)
  }

  /** Some frame would stay buffered, and could be drained, if another publisher started at n. */
  ghost predicate LeavesFrames(buffer: Recovery.ReorderBuffer, n: nat) {
    exists k :: k in buffer && k > 1 && k != n
  }

  /** A new publisher must be fresh, and start at 1 unless nothing of the old one could still be drained. */
  ghost predicate Admissible(rx: Receiver, arrivals: seq<OwnedFrame>, f: OwnedFrame) {
    && f.header.sequence >= 1
    && (rx.tracker.active == None
        || rx.tracker.active == Some(f.header.publisherId)
        || (!Heard(arrivals, f.header.publisherId)
            && (f.header.sequence == 1 || !LeavesFrames(rx.engine.buffer, f.header.sequence))))
  }

  /** Deliveries extend the active publisher's block, or open the block of a new one. */
  function NextBlocks(rx: Receiver, blocks: seq<Block>, f: OwnedFrame, fs: seq<OwnedFrame>): seq<Block> {
    if rx.tracker.active == Some(f.header.publisherId) && |blocks| > 0 then
      var last := blocks[|blocks| - 1];
      blocks[..|blocks| - 1] + [Block(last.publisherId, last.frames + fs)]
    else
      blocks + [Block(f.header.publisherId, fs)]
  }

  function FramesOf(r: Result<Delivered>): seq<OwnedFrame> {
    if r.Ok? then r.value.frames else []
  }

  // ---------------------------------------------------------------- histories grow

  lemma SequencesGrow(arrivals: seq<OwnedFrame>, f: OwnedFrame, p: u64)
    ensures Sequences(arrivals + [f], p)
         == Sequences(arrivals, p) + (if f.header.publisherId == p then {f.header.sequence as nat} else {})
  {
    var more := arrivals + [f];
    assert f in more;
    assert forall g :: g in more <==> g in arrivals || g == f;
    forall n | n in Sequences(arrivals, p)
      ensures n in Sequences(more, p)
    {
      var g :| g in arrivals && g.header.publisherId == p && g.header.sequence as nat == n;
      assert g in more;
    }
  }

  lemma UnheardHasNone(arrivals: seq<OwnedFrame>, p: u64)
    requires !Heard(arrivals, p)
    ensures Sequences(arrivals, p) == {}
  {}

  lemma FilterGrows(rx: Receiver, arrivals: seq<OwnedFrame>, f: OwnedFrame, rx': Receiver)
    requires FilterOk(rx, arrivals)
    requires rx'.recent == Dedup.Record(rx.filterCapacity, rx.recent, KeyOf(rx, f)).1
    ensures FilterOk(rx', arrivals + [f])
  {
    forall k | k in rx'.recent
      ensures k.sequence in Sequences(arrivals + [f], k.publisherId)
    {
      SequencesGrow(arrivals, f, k.publisherId);
      assert k in rx.recent || k == KeyOf(rx, f);
    }
  }

  lemma NumberedGrows(fs: seq<OwnedFrame>, p: u64, arrivals: seq<OwnedFrame>, f: OwnedFrame)
    requires Numbered(fs, p, arrivals)
    ensures Numbered(fs, p, arrivals + [f])
  {}

  /** The blocks stay in order when the last one is extended or a fresh one is opened. */
  lemma BlocksGrow(rx: Receiver, arrivals: seq<OwnedFrame>, blocks: seq<Block>, f: OwnedFrame, fs: seq<OwnedFrame>)
    requires BlocksOk(blocks, arrivals)
    requires rx.tracker.active == Some(f.header.publisherId) ==>
               |blocks| > 0 && blocks[|blocks| - 1].publisherId == f.header.publisherId
               && Numbered(blocks[|blocks| - 1].frames + fs, f.header.publisherId, arrivals + [f])
    requires rx.tracker.active != Some(f.header.publisherId) ==>
               !Heard(arrivals, f.header.publisherId) && Numbered(fs, f.header.publisherId, arrivals + [f])
    ensures BlocksOk(NextBlocks(rx, blocks, f, fs), arrivals + [f])
  {
    var more, blocks' := arrivals + [f], NextBlocks(rx, blocks, f, fs);
    assert f in more;
    assert Heard(more, f.header.publisherId);
    forall i | 0 <= i < |blocks'|
      ensures Numbered(blocks'[i].frames, blocks'[i].publisherId, more) && Heard(more, blocks'[i].publisherId)
    {
      if i < |blocks| && blocks'[i] == blocks[i] {
        NumberedGrows(blocks[i].frames, blocks[i].publisherId, arrivals, f);
        var g :| g in arrivals && g.header.publisherId == blocks[i].publisherId;
        assert g in more;
      }
    }
    forall i, j | 0 <= i < j < |blocks'|
      ensures blocks'[i].publisherId != blocks'[j].publisherId
    {
      assert blocks'[i].publisherId == blocks[i].publisherId;
      assert j < |blocks| ==> blocks'[j].publisherId == blocks[j].publisherId;
    }
    EveryoneHasBlock(rx, arrivals, blocks, f, fs);
  }

  lemma EveryoneHasBlock(rx: Receiver, arrivals: seq<OwnedFrame>, blocks: seq<Block>, f: OwnedFrame, fs: seq<OwnedFrame>)
    requires forall g :: g in arrivals ==> HasBlock(blocks, g.header.publisherId)
    requires rx.tracker.active == Some(f.header.publisherId) ==>
               |blocks| > 0 && blocks[|blocks| - 1].publisherId == f.header.publisherId
    ensures forall g :: g in arrivals + [f] ==> HasBlock(NextBlocks(rx, blocks, f, fs), g.header.publisherId)
  {
    var blocks' := NextBlocks(rx, blocks, f, fs);
    forall g | g in arrivals + [f]
      ensures HasBlock(blocks', g.header.publisherId)
    {
      if g in arrivals {
        var i :| 0 <= i < |blocks| && blocks[i].publisherId == g.header.publisherId;
        assert blocks'[i].publisherId == g.header.publisherId;
      } else {
        assert blocks'[|blocks'| - 1].publisherId == f.header.publisherId;
      }
    }
  }

  /** An arrival concerns the last block only. */
  lemma LongestGrows(rx: Receiver, arrivals: seq<OwnedFrame>, blocks: seq<Block>, blocks': seq<Block>, f: OwnedFrame)
    requires Longest(blocks, arrivals) && BlocksOk(blocks', arrivals + [f])
    requires ActiveOk(rx, f.header.publisherId, arrivals + [f], blocks')
    requires |blocks'| <= |blocks| + 1 && forall i :: 0 <= i < |blocks'| - 1 ==> blocks'[i] == blocks[i]
    ensures Longest(blocks', arrivals + [f])
  {
    forall i | 0 <= i < |blocks'|
      ensures |blocks'[i].frames| + 1 !in Sequences(arrivals + [f], blocks'[i].publisherId)
    {
      SequencesGrow(arrivals, f, blocks'[i].publisherId);
    }
  }

  // ---------------------------------------------------------------- cursor steps

  lemma CursorAdvances(expected: nat, buffer: Recovery.ReorderBuffer, arrived: set<nat>)
    requires Cursor(expected, buffer, arrived)
    ensures var (run, left) := Recovery.Drained(buffer, expected + 1);
            Cursor(expected + 1 + |run|, left, arrived + {expected})
  {
    var (run, left) := Recovery.Drained(buffer, expected + 1);
    Recovery.DrainedMeaning(buffer, expected + 1);
    var next := expected + 1 + |run|;
    forall n | 1 <= n < next
      ensures n in arrived + {expected}
    {
      if n > expected {
        assert n in buffer;
      }
    }
    assert next !in buffer;
  }

  lemma CursorWaits(expected: nat, buffer: Recovery.ReorderBuffer, arrived: set<nat>, n: nat, f: OwnedFrame)
    requires Cursor(expected, buffer, arrived) && n > expected
    ensures Cursor(expected, buffer[n := f], arrived + {n})
  {}

  lemma RunIsNumbered(fs: seq<OwnedFrame>, expected: nat, f: OwnedFrame, buffer: Recovery.ReorderBuffer, p: u64,
                      arrivals: seq<OwnedFrame>)
    requires Numbered(fs, p, arrivals) && |fs| == expected - 1
    requires f.header.publisherId == p && f.header.sequence == expected
    requires BufferOf(buffer, expected, p, arrivals)
    ensures Numbered(fs + ([f] + Recovery.Drained(buffer, expected + 1).0), p, arrivals + [f])
  {
    var run := Recovery.Drained(buffer, expected + 1).0;
    Recovery.DrainedMeaning(buffer, expected + 1);
    var all, more := fs + ([f] + run), arrivals + [f];
    forall i | 0 <= i < |all|
      ensures all[i].header.publisherId == p && all[i].header.sequence == i + 1 && all[i] in more
    {
      if i > expected - 1 {
        var k := i + 1;
        assert k in buffer && run[k - (expected + 1)] == buffer[k];
        assert all[i] == buffer[k];
      }
    }
  }

  // ---------------------------------------------------------------- one arrival

  /** What processing the awaited frame does, when the filter does not know it. */
  lemma AwaitedEffect(rx: Receiver, f: OwnedFrame, now: nat)
    requires rx.mode == ReliableOrdered && rx.tracker.active == Some(f.header.publisherId)
    requires f.header.sequence == rx.tracker.expected && KeyOf(rx, f) !in rx.recent
    ensures var (rx', r) := Processed(rx, f, now);
            var (run, left) := Recovery.Drained(rx.engine.buffer, rx.tracker.expected + 1);
            && r == Ok(Delivered([f] + run, None))
            && rx' == rx.(tracker := rx.tracker.(expected := rx.tracker.expected + 1 + |run|),
                          recent := Dedup.Record(rx.filterCapacity, rx.recent, KeyOf(rx, f)).1,
                          engine := rx.engine.(buffer := left),
                          highestDelivered := rx.tracker.expected + |run|)
  {}

  lemma AwaitedActive(rx: Receiver, arrivals: seq<OwnedFrame>, blocks: seq<Block>, f: OwnedFrame, rx': Receiver)
    requires ActiveOk(rx, f.header.publisherId, arrivals, blocks)
    requires rx.tracker.active == Some(f.header.publisherId) && f.header.sequence == rx.tracker.expected
    requires var (run, left) := Recovery.Drained(rx.engine.buffer, rx.tracker.expected + 1);
             && rx'.tracker.expected == rx.tracker.expected + 1 + |run|
             && rx'.engine.buffer == left
             && rx'.highestDelivered == rx.tracker.expected + |run|
    ensures var run := Recovery.Drained(rx.engine.buffer, rx.tracker.expected + 1).0;
            ActiveOk(rx', f.header.publisherId, arrivals + [f], NextBlocks(rx, blocks, f, [f] + run))
  {
    var p, expected := f.header.publisherId, rx.tracker.expected;
    SequencesGrow(arrivals, f, p);
    CursorAdvances(expected, rx.engine.buffer, Sequences(arrivals, p));
    Recovery.DrainedMeaning(rx.engine.buffer, expected + 1);
  }

  /** The awaited frame: the filter cannot know it, so it is delivered with the run it releases. */
  lemma AwaitedStep(rx: Receiver, arrivals: seq<OwnedFrame>, blocks: seq<Block>, f: OwnedFrame, now: nat)
    requires Inv(rx, arrivals, blocks) && f.header.sequence == rx.tracker.expected
    requires rx.tracker.active == Some(f.header.publisherId)
    ensures var (rx', r) := Processed(rx, f, now);
            Inv(rx', arrivals + [f], NextBlocks(rx, blocks, f, FramesOf(r)))
  {
    var p, expected := f.header.publisherId, rx.tracker.expected;
    var (rx', r) := Processed(rx, f, now);
    assert KeyOf(rx, f) !in rx.recent;
    AwaitedEffect(rx, f, now);
    FilterGrows(rx, arrivals, f, rx');
    AwaitedActive(rx, arrivals, blocks, f, rx');
    RunIsNumbered(blocks[|blocks| - 1].frames, expected, f, rx.engine.buffer, p, arrivals);
    BlocksGrow(rx, arrivals, blocks, f, FramesOf(r));
    LongestGrows(rx', arrivals, blocks, NextBlocks(rx, blocks, f, FramesOf(r)), f);
  }

  /** What processing a frame other than the awaited one of the active publisher does. */
  lemma UnawaitedEffect(rx: Receiver, f: OwnedFrame, now: nat)
    requires rx.mode == ReliableOrdered && rx.tracker.active == Some(f.header.publisherId)
    requires f.header.sequence != rx.tracker.expected
    ensures var (rx', r) := Processed(rx, f, now);
            && FramesOf(r) == []
            && rx'.mode == rx.mode && rx'.streamId == rx.streamId && rx'.filterCapacity == rx.filterCapacity
            && rx'.tracker.active == rx.tracker.active && rx'.tracker.expected == rx.tracker.expected
            && rx'.recent == Dedup.Record(rx.filterCapacity, rx.recent, KeyOf(rx, f)).1
            && rx'.highestDelivered == rx.highestDelivered
            && rx'.engine.buffer == if f.header.sequence > rx.tracker.expected && KeyOf(rx, f) !in rx.recent
                                    then rx.engine.buffer[f.header.sequence := f] else rx.engine.buffer
  {}

  /** An early, late or repeated frame: nothing is delivered, whether or not a request could be made. */
  lemma UnawaitedStep(rx: Receiver, arrivals: seq<OwnedFrame>, blocks: seq<Block>, f: OwnedFrame, now: nat)
    requires Inv(rx, arrivals, blocks) && f.header.sequence >= 1 && f.header.sequence != rx.tracker.expected
    requires rx.tracker.active == Some(f.header.publisherId)
    ensures var (rx', r) := Processed(rx, f, now);
            FramesOf(r) == [] && Inv(rx', arrivals + [f], NextBlocks(rx, blocks, f, []))
  {
    var p, last := f.header.publisherId, blocks[|blocks| - 1].frames;
    var (rx', r) := Processed(rx, f, now);
    NumberedGrows(last, p, arrivals, f);
    assert last + [] == last;
    assert KeyOf(rx, f) in rx.recent ==> f.header.sequence as nat in Sequences(arrivals, p);
    hide Processed, BlocksOk, FilterOk, Numbered, ActiveOk, Longest;
    UnawaitedEffect(rx, f, now);
    FilterGrows(rx, arrivals, f, rx');
    UnawaitedActive(rx, arrivals, blocks, f, rx');
    BlocksGrow(rx, arrivals, blocks, f, []);
    LongestGrows(rx', arrivals, blocks, NextBlocks(rx, blocks, f, []), f);
  }

  lemma UnawaitedActive(rx: Receiver, arrivals: seq<OwnedFrame>, blocks: seq<Block>, f: OwnedFrame, rx': Receiver)
    requires ActiveOk(rx, f.header.publisherId, arrivals, blocks)
    requires rx.tracker.active == Some(f.header.publisherId)
    requires f.header.sequence >= 1 && f.header.sequence != rx.tracker.expected
    requires KeyOf(rx, f) in rx.recent ==> f.header.sequence as nat in Sequences(arrivals, f.header.publisherId)
    requires rx'.tracker.expected == rx.tracker.expected && rx'.highestDelivered == rx.highestDelivered
    requires rx'.engine.buffer == if f.header.sequence > rx.tracker.expected && KeyOf(rx, f) !in rx.recent
                                  then rx.engine.buffer[f.header.sequence := f] else rx.engine.buffer
    ensures ActiveOk(rx', f.header.publisherId, arrivals + [f], NextBlocks(rx, blocks, f, []))
  {
    var p, n, expected := f.header.publisherId, f.header.sequence as nat, rx.tracker.expected;
    var arrived := Sequences(arrivals, p);
    hide Sequences;
    SequencesGrow(arrivals, f, p);
    if n > expected && KeyOf(rx, f) !in rx.recent {
      CursorWaits(expected, rx.engine.buffer, arrived, n, f);
    } else {
      assert arrived + {n} == arrived;
    }
  }

  /** The first arrival of all, or the first from a fresh publisher. */
  lemma NewPublisherStep(rx: Receiver, arrivals: seq<OwnedFrame>, blocks: seq<Block>, f: OwnedFrame, now: nat)
    requires Inv(rx, arrivals, blocks) && Admissible(rx, arrivals, f)
    requires rx.tracker.active != Some(f.header.publisherId)
    ensures var (rx', r) := Processed(rx, f, now);
            Inv(rx', arrivals + [f], NextBlocks(rx, blocks, f, FramesOf(r)))
  {
    var (rx', r) := Processed(rx, f, now);
    UnheardHasNone(arrivals, f.header.publisherId);
    assert KeyOf(rx, f) !in rx.recent;
    NewPublisherEffect(rx, f, now);
    FilterGrows(rx, arrivals, f, rx');
    NewPublisherActive(rx, arrivals, blocks, f, rx');
    BlocksGrow(rx, arrivals, blocks, f, FramesOf(r));
    LongestGrows(rx', arrivals, blocks, NextBlocks(rx, blocks, f, FramesOf(r)), f);
  }

  /** What processing does with the first frame of a publisher the filter does not know. */
  lemma NewPublisherEffect(rx: Receiver, f: OwnedFrame, now: nat)
    requires rx.mode == ReliableOrdered && rx.tracker.active != Some(f.header.publisherId)
    requires f.header.sequence >= 1 && KeyOf(rx, f) !in rx.recent
    requires rx.tracker.active.None? ==> rx.engine.buffer == map[]
    ensures var (rx', r) := Processed(rx, f, now);
            && FramesOf(r) == (if f.header.sequence == 1 then [f] else [])
            && rx'.mode == ReliableOrdered && rx'.streamId == rx.streamId && rx'.filterCapacity == rx.filterCapacity
            && rx'.tracker.active == Some(f.header.publisherId)
            && rx'.tracker.expected == (if f.header.sequence == 1 then 2 else 1)
            && rx'.recent == Dedup.Record(rx.filterCapacity, rx.recent, KeyOf(rx, f)).1
            && rx'.engine.buffer == (if f.header.sequence == 1 then map[] else rx.engine.buffer[f.header.sequence := f])
            && rx'.highestDelivered == (if f.header.sequence == 1 then 1 else rx.highestDelivered)
  {}

  lemma NewPublisherActive(rx: Receiver, arrivals: seq<OwnedFrame>, blocks: seq<Block>, f: OwnedFrame, rx': Receiver)
    requires !Heard(arrivals, f.header.publisherId) && f.header.sequence >= 1
    requires rx.tracker.active != Some(f.header.publisherId)
    requires rx.tracker.active.None? ==> blocks == [] && rx.highestDelivered == 0
    requires rx.tracker.active.Some? ==> |blocks| > 0
    requires rx'.tracker.expected == (if f.header.sequence == 1 then 2 else 1)
    requires rx'.engine.buffer == (if f.header.sequence == 1 then map[] else rx.engine.buffer[f.header.sequence := f])
    requires Recovery.Keyed(rx.engine.buffer)
    requires f.header.sequence == 1 || !LeavesFrames(rx.engine.buffer, f.header.sequence)
    requires rx'.highestDelivered == (if f.header.sequence == 1 then 1 else rx.highestDelivered)
    ensures var fs := if f.header.sequence == 1 then [f] else [];
            ActiveOk(rx', f.header.publisherId, arrivals + [f], NextBlocks(rx, blocks, f, fs))
  {
    UnheardHasNone(arrivals, f.header.publisherId);
    SequencesGrow(arrivals, f, f.header.publisherId);
  }

  /** Every admissible arrival keeps the invariant. */
  lemma ArrivalKeepsInv(rx: Receiver, arrivals: seq<OwnedFrame>, blocks: seq<Block>, f: OwnedFrame, now: nat)
    requires Inv(rx, arrivals, blocks) && Admissible(rx, arrivals, f)
    ensures var (rx', r) := Processed(rx, f, now);
            Inv(rx', arrivals + [f], NextBlocks(rx, blocks, f, FramesOf(r)))
  {
    if rx.tracker.active != Some(f.header.publisherId) {
      NewPublisherStep(rx, arrivals, blocks, f, now);
    } else if f.header.sequence == rx.tracker.expected {
      AwaitedStep(rx, arrivals, blocks, f, now);
    } else {
      UnawaitedStep(rx, arrivals, blocks, f, now);
    }
  }

  // ---------------------------------------------------------------- runs

  datatype Event =
    | Arrive(frame: OwnedFrame, now: nat)
    | Sweep(now: nat)
    | Unavailable(notice: UnavailablePayload)
    | Respond(requestId: nat, frame: OwnedFrame)

  /** One call on the receiver or its engine, and what it hands to the application and the network. */
  ghost predicate Step(rx: Receiver, ev: Event, rx': Receiver, out: Result<Delivered>) {
    match ev
    case Arrive(f, now) => CanProcess(rx, f) && (rx', out) == Processed(rx, f, now)
    case Sweep(now) =>
      && rx' == rx.(engine := rx'.engine)
      && (exists r :: Recovery.Swept(rx.engine, now, rx'.engine, r))
      && FramesOf(out) == []
    case Unavailable(u) =>
      && rx' == rx.(engine := Recovery.Refused(rx.engine, u).0)
      && FramesOf(out) == []
    case Respond(id, f) =>
      && !Recovery.Completes(rx.engine, id, f)
      && rx' == rx.(engine := Recovery.Answered(rx.engine, id, f).0)
      && FramesOf(out) == []
  }

  /**
   The frames an event brings within reach of delivery: DATA, and responses above the cursor. A response at or below the
   cursor reaches the receiver too but is never drained; DeliveryReach has the history that counts those as well.
   */
  function Arriving(rx: Receiver, ev: Event): seq<OwnedFrame> {
    match ev
    case Arrive(f, _) => [f]
    case Respond(id, f) =>
      if id in rx.engine.outstanding && f.header.sequence > rx.tracker.expected then [f] else []
    case _ => []
  }

  datatype Run =
    | Start(streamId: u64, config: Recovery.Config, filterCapacity: nat)
    | Then(before: Run, event: Event, receiver: Receiver, out: Result<Delivered>)

  function Now(run: Run): Receiver {
    match run
    case Start(streamId, config, capacity) =>
      NewReceiver(streamId, ReliableOrdered, config).(filterCapacity := capacity)
    case Then(_, _, rx, _) => rx
  }

  ghost predicate Valid(run: Run) {
    run.Then? ==> Valid(run.before) && Step(Now(run.before), run.event, run.receiver, run.out)
  }

  function Arrivals(run: Run): seq<OwnedFrame> {
    if run.Start? then []
    else Arrivals(run.before) + Arriving(Now(run.before), run.event)
  }

  function DeliveredBy(run: Run): seq<OwnedFrame> {
    if run.Start? then [] else DeliveredBy(run.before) + FramesOf(run.out)
  }

  function Blocks(run: Run): seq<Block> {
    if run.Start? then []
    else if run.event.Arrive? then
      NextBlocks(Now(run.before), Blocks(run.before), run.event.frame, FramesOf(run.out))
    else Blocks(run.before)
  }

  /**
   A response to a known request is harmless as long as it completes nothing if it is the active publisher's or not
   above the cursor, where no drain reaches it.
   */
  ghost predicate Harmless(rx: Receiver, id: nat, f: OwnedFrame) {
    id in rx.engine.outstanding ==>
      rx.tracker.active == Some(f.header.publisherId) || f.header.sequence <= rx.tracker.expected
  }

  /** Every arrival of the run was admissible and every response harmless when it came. */
  ghost predicate Disciplined(run: Run) {
    run.Then? ==>
      && Disciplined(run.before)
      && (run.event.Arrive? ==> Admissible(Now(run.before), Arrivals(run.before), run.event.frame))
      && (run.event.Respond? ==> Harmless(Now(run.before), run.event.requestId, run.event.frame))
  }

  lemma SweepKeepsBuffer(e: Recovery.Engine, now: nat, e': Recovery.Engine, r: Result<seq<RequestPayload>>)
    requires Recovery.Swept(e, now, e', r)
    ensures e'.buffer == e.buffer && e'.outstanding.Keys <= e.outstanding.Keys
  {}

  lemma {:induction false} RunKeepsInv(run: Run)
    requires Valid(run) && Disciplined(run)
    ensures Inv(Now(run), Arrivals(run), Blocks(run))
  {
    if run.Then? {
      RunKeepsInv(run.before);
      var rx, arrivals, blocks := Now(run.before), Arrivals(run.before), Blocks(run.before);
      match run.event
      case Arrive(f, now) => ArrivalKeepsInv(rx, arrivals, blocks, f, now);
      case Sweep(now) =>
        var r :| Recovery.Swept(rx.engine, now, run.receiver.engine, r);
        SweepKeepsBuffer(rx.engine, now, run.receiver.engine, r);
        EngineOnly(rx, run.receiver, arrivals, blocks);
      case Unavailable(u) => EngineOnly(rx, run.receiver, arrivals, blocks);
      case Respond(id, f) => ResponseKeepsInv(rx, arrivals, blocks, id, f);
    }
  }

  /** A harmless response that completes nothing only adds to the buffer, above the cursor like an arrival. */
  lemma ResponseKeepsInv(rx: Receiver, arrivals: seq<OwnedFrame>, blocks: seq<Block>, id: nat, f: OwnedFrame)
    requires Inv(rx, arrivals, blocks) && !Recovery.Completes(rx.engine, id, f)
    requires Harmless(rx, id, f)
    ensures Inv(rx.(engine := Recovery.Answered(rx.engine, id, f).0), arrivals + Arriving(rx, Respond(id, f)), blocks)
  {
    var p, n, expected := f.header.publisherId, f.header.sequence as nat, rx.tracker.expected;
    var rx' := rx.(engine := Recovery.Answered(rx.engine, id, f).0);
    if id !in rx.engine.outstanding {
      EngineOnly(rx, rx', arrivals, blocks);
    } else if n > expected {
      SequencesGrow(arrivals, f, p);
      CursorWaits(expected, rx.engine.buffer, Sequences(arrivals, p), n, f);
      HistoryGrows(rx, rx', arrivals, blocks, f);
      LongestGrows(rx', arrivals, blocks, blocks, f);
    } else {
      assert arrivals + [] == arrivals;
      assert rx'.engine.buffer == rx.engine.buffer[n := f];
      assert FilterOk(rx', arrivals);
    }
  }

  /** A further arrival of a publisher already heard leaves filter and blocks in order. */
  lemma HistoryGrows(rx: Receiver, rx': Receiver, arrivals: seq<OwnedFrame>, blocks: seq<Block>, f: OwnedFrame)
    requires FilterOk(rx, arrivals) && BlocksOk(blocks, arrivals) && rx'.recent == rx.recent
    requires |blocks| > 0 && blocks[|blocks| - 1].publisherId == f.header.publisherId
    ensures FilterOk(rx', arrivals + [f]) && BlocksOk(blocks, arrivals + [f])
  {
    var more := arrivals + [f];
    forall k | k in rx'.recent
      ensures k.sequence in Sequences(more, k.publisherId)
    {
      SequencesGrow(arrivals, f, k.publisherId);
    }
    forall i | 0 <= i < |blocks|
      ensures Numbered(blocks[i].frames, blocks[i].publisherId, more) && Heard(more, blocks[i].publisherId)
    {
      NumberedGrows(blocks[i].frames, blocks[i].publisherId, arrivals, f);
      var g :| g in arrivals && g.header.publisherId == blocks[i].publisherId;
      assert g in more;
    }
    forall g | g in more
      ensures HasBlock(blocks, g.header.publisherId)
    {
      assert g in arrivals || g == f;
    }
  }

  lemma EngineOnly(rx: Receiver, rx': Receiver, arrivals: seq<OwnedFrame>, blocks: seq<Block>)
    requires Inv(rx, arrivals, blocks)
    requires rx' == rx.(engine := rx'.engine) && rx'.engine.buffer == rx.engine.buffer
    requires rx'.engine.outstanding.Keys <= rx.engine.outstanding.Keys
    ensures Inv(rx', arrivals + [], blocks)
  {
    assert arrivals + [] == arrivals;
    assert FilterOk(rx', arrivals);
  }

  lemma FlattenNext(rx: Receiver, blocks: seq<Block>, f: OwnedFrame, fs: seq<OwnedFrame>)
    ensures Flatten(NextBlocks(rx, blocks, f, fs)) == Flatten(blocks) + fs
  {
    var blocks' := NextBlocks(rx, blocks, f, fs);
    if rx.tracker.active == Some(f.header.publisherId) && |blocks| > 0 {
      assert blocks'[..|blocks'| - 1] == blocks[..|blocks| - 1];
    } else {
      assert blocks'[..|blocks'| - 1] == blocks;
    }
  }

  lemma {:induction false} DeliveredInBlocks(run: Run)
    requires Valid(run)
    ensures Flatten(Blocks(run)) == DeliveredBy(run)
  {
    if run.Then? {
      DeliveredInBlocks(run.before);
      if run.event.Arrive? {
        FlattenNext(Now(run.before), Blocks(run.before), run.event.frame, FramesOf(run.out));
      } else {
        assert DeliveredBy(run.before) + [] == DeliveredBy(run.before);
      }
    }
  }

  // ---------------------------------------------------------------- bare arrivals

  datatype Call = Call(frame: OwnedFrame, now: nat)

  ghost predicate Legal(calls: seq<Call>) {
    forall i :: 0 <= i < |calls| ==> calls[i].frame.header.sequence >= 1
  }

  /** Any arrivals of one publisher. */
  ghost predicate From(calls: seq<Call>, p: u64) {
    forall i :: 0 <= i < |calls| ==>
      calls[i].frame.header.publisherId == p && calls[i].frame.header.sequence >= 1
  }

  /** None of the arrivals carries sequence n. */
  ghost predicate Without(calls: seq<Call>, n: nat) {
    forall i :: 0 <= i < |calls| ==> calls[i].frame.header.sequence != n
  }

  /** The receiver after a sequence of arrivals, in any mode, and everything it delivered. */
  function ProcessAll(rx: Receiver, calls: seq<Call>): (Receiver, seq<OwnedFrame>)
    requires Legal(calls)
  {
    if |calls| == 0 then (rx, [])
    else
      var (before, delivered) := ProcessAll(rx, calls[..|calls| - 1]);
      var last := calls[|calls| - 1];
      var (after, r) := Processed(before, last.frame, last.now);
      (after, delivered + FramesOf(r))
  }

  function FramesIn(calls: seq<Call>): seq<OwnedFrame> {
    seq(|calls|, i requires 0 <= i < |calls| => calls[i].frame)
  }

  // ---------------------------------------------------------------- main results

  /** With restarts: the deliveries are one block 1..k per publisher, as long as its arrivals allow and unmixed. */
  lemma DeliveryIsBlocks(run: Run)
    requires Valid(run) && Disciplined(run)
    ensures DeliveredBy(run) == Flatten(Blocks(run))
    ensures BlocksOk(Blocks(run), Arrivals(run)) && Longest(Blocks(run), Arrivals(run))
    ensures Now(run).tracker.active.Some? ==>
              |Blocks(run)| > 0
              && Blocks(run)[|Blocks(run)| - 1].publisherId == Now(run).tracker.active.value
              && |Blocks(run)[|Blocks(run)| - 1].frames| == Now(run).tracker.expected - 1
  {
    RunKeepsInv(run);
    DeliveredInBlocks(run);
  }

  /** No replay response reached the receiver. */
  ghost predicate NoResponses(run: Run) {
    run.Then? ==> NoResponses(run.before) && !run.event.Respond?
  }

  /** Without replay responses the buffer holds nothing the cursor has passed. */
  lemma {:induction false} RunHasNoStale(run: Run)
    requires Valid(run) && Disciplined(run) && NoResponses(run)
    ensures NoStale(Now(run))
  {
    if run.Then? {
      RunHasNoStale(run.before);
      RunKeepsInv(run.before);
      match run.event
      case Arrive(f, now) =>
        ArrivalKeepsNoStale(Now(run.before), Arrivals(run.before), Blocks(run.before), f, now);
      case Sweep(now) =>
        var r :| Recovery.Swept(Now(run.before).engine, now, run.receiver.engine, r);
        SweepKeepsBuffer(Now(run.before).engine, now, run.receiver.engine, r);
      case _ =>
    }
  }

  lemma AwaitedKeepsNoStale(rx: Receiver, f: OwnedFrame, now: nat)
    requires rx.mode == ReliableOrdered && rx.tracker.active == Some(f.header.publisherId) && NoStale(rx)
    requires f.header.sequence == rx.tracker.expected && KeyOf(rx, f) !in rx.recent
    ensures NoStale(Processed(rx, f, now).0)
  {
    AwaitedEffect(rx, f, now);
    Recovery.DrainedMeaning(rx.engine.buffer, rx.tracker.expected + 1);
  }

  lemma UnawaitedKeepsNoStale(rx: Receiver, f: OwnedFrame, now: nat)
    requires rx.mode == ReliableOrdered && rx.tracker.active == Some(f.header.publisherId) && NoStale(rx)
    requires f.header.sequence != rx.tracker.expected
    ensures NoStale(Processed(rx, f, now).0)
  {}

  lemma ArrivalKeepsNoStale(rx: Receiver, arrivals: seq<OwnedFrame>, blocks: seq<Block>, f: OwnedFrame, now: nat)
    requires Inv(rx, arrivals, blocks) && NoStale(rx) && Admissible(rx, arrivals, f)
    ensures NoStale(Processed(rx, f, now).0)
  {
    if rx.tracker.active == Some(f.header.publisherId) {
      if f.header.sequence == rx.tracker.expected {
        assert KeyOf(rx, f) !in rx.recent;
        AwaitedKeepsNoStale(rx, f, now);
      } else {
        UnawaitedKeepsNoStale(rx, f, now);
      }
    } else {
      UnheardHasNone(arrivals, f.header.publisherId);
      assert KeyOf(rx, f) !in rx.recent;
      NewPublisherEffect(rx, f, now);
    }
  }

  ghost predicate OnlyFrom(arrivals: seq<OwnedFrame>, p: u64) {
    forall f :: f in arrivals ==> f.header.publisherId == p && f.header.sequence >= 1
  }

  /** Every frame of the run, arriving or replayed, is from publisher p. */
  ghost predicate OneSource(run: Run, p: u64) {
    run.Then? ==>
      && OneSource(run.before, p)
      && (run.event.Arrive? ==> run.event.frame.header.publisherId == p && run.event.frame.header.sequence >= 1)
      && (run.event.Respond? ==> run.event.frame.header.publisherId == p)
  }

  lemma {:induction false} OnePublisherIsDisciplined(run: Run, p: u64)
    requires Valid(run) && OneSource(run, p)
    ensures Disciplined(run) && Inv(Now(run), Arrivals(run), Blocks(run))
    ensures OnlyFrom(Arrivals(run), p)
    ensures Now(run).tracker.active == None || Now(run).tracker.active == Some(p)
    ensures Now(run).tracker.active == None ==> Now(run).tracker == Tracker.INITIAL
  {
    if run.Then? {
      OnePublisherIsDisciplined(run.before, p);
      RunKeepsInv(run);
      if run.event.Arrive? {
        ActiveAfter(Now(run.before), run.event.frame, run.event.now);
      } else if run.event.Respond? {
        var added := Arriving(Now(run.before), run.event);
        assert forall g :: g in added ==> g == run.event.frame;
      }
    }
  }

  lemma ActiveAfter(rx: Receiver, f: OwnedFrame, now: nat)
    requires rx.mode == ReliableOrdered && CanProcess(rx, f)
    ensures Processed(rx, f, now).0.tracker.active == Some(f.header.publisherId)
  {}

  /**
   One publisher, any reordering, duplication, eviction, error, timeout and incomplete replay: what has been
   delivered is exactly 1, 2, ..., expected-1; the cursor is the least sequence that never arrived, and
   without replays the reorder buffer holds exactly what arrived above it.
   */
  lemma ExactlyOnceInOrder(run: Run, p: u64)
    requires Valid(run) && OneSource(run, p)
    ensures var rx, arrived := Now(run), Sequences(Arrivals(run), p);
            && Numbered(DeliveredBy(run), p, Arrivals(run))
            && |DeliveredBy(run)| == rx.tracker.expected - 1
            && rx.highestDelivered == rx.tracker.expected - 1
            && Cursor(rx.tracker.expected, rx.engine.buffer, arrived)
            && (NoResponses(run) ==> NoStale(rx))
  {
    OnePublisherIsDisciplined(run, p);
    DeliveredInBlocks(run);
    if NoResponses(run) {
      RunHasNoStale(run);
    }
    var rx, blocks := Now(run), Blocks(run);
    if rx.tracker.active.Some? {
      OneBlock(blocks, Arrivals(run), p);
      FlattenOne(blocks);
    }
  }

  lemma FlattenOne(blocks: seq<Block>)
    requires |blocks| == 1
    ensures Flatten(blocks) == blocks[0].frames
  {
    assert Flatten(blocks[..0]) == [];
    assert [] + blocks[0].frames == blocks[0].frames;
  }

  lemma OneBlock(blocks: seq<Block>, arrivals: seq<OwnedFrame>, p: u64)
    requires BlocksOk(blocks, arrivals) && OnlyFrom(arrivals, p) && |blocks| > 0
    ensures |blocks| == 1
  {
    forall i | 0 <= i < |blocks|
      ensures blocks[i].publisherId == p
    {
      assert Heard(arrivals, blocks[i].publisherId);
    }
    assert blocks[0].publisherId == blocks[|blocks| - 1].publisherId;
  }

  /** Once 1..n have all arrived, in whatever order, the first n deliveries are 1..n. */
  lemma EverythingArrivedIsDelivered(run: Run, p: u64, n: nat)
    requires Valid(run) && OneSource(run, p)
    requires forall k :: 1 <= k <= n ==> k in Sequences(Arrivals(run), p)
    ensures |DeliveredBy(run)| >= n
    ensures forall i :: 0 <= i < n ==> DeliveredBy(run)[i].header.sequence == i + 1
  {
    ExactlyOnceInOrder(run, p);
    var expected := Now(run).tracker.expected;
    assert 1 <= expected <= n ==> expected in Sequences(Arrivals(run), p);
  }

  /** The unbounded counters of the model fit in 64 bits as long as no arrival carries the last sequence. */
  lemma CountersFit(run: Run, p: u64)
    requires Valid(run) && OneSource(run, p)
    requires forall f :: f in Arrivals(run) ==> f.header.sequence < 0xFFFF_FFFF_FFFF_FFFF
    ensures Now(run).tracker.expected < 0x1_0000_0000_0000_0000
    ensures Now(run).highestDelivered < 0xFFFF_FFFF_FFFF_FFFF
  {
    ExactlyOnceInOrder(run, p);
    var expected := Now(run).tracker.expected;
    if expected > 1 {
      assert DeliveredBy(run)[expected - 2] in Arrivals(run);
    }
  }

  /** Every replay request asks for what is missing below the arrival that triggered it, and no more than allowed. */
  lemma RequestsAreForMissing(run: Run, p: u64)
    requires Valid(run) && OneSource(run, p)
    requires run.Then? && run.event.Arrive? && run.out.Ok? && run.out.value.request.Some?
    ensures var q, arrived := run.out.value.request.value, Sequences(Arrivals(run), p);
            && q.fromSequence <= q.toSequence
            && q.fromSequence !in arrived
            && q.toSequence == run.event.frame.header.sequence - 1
            && (forall n :: 1 <= n < run.event.frame.header.sequence && n !in arrived ==>
                              q.fromSequence <= n <= q.toSequence)
            && q.toSequence - q.fromSequence + 1 <= Now(run.before).engine.config.maxReplayRange
  {
    var f, rx := run.event.frame, Now(run.before);
    ExactlyOnceInOrder(run.before, p);
    OnePublisherIsDisciplined(run.before, p);
    SequencesGrow(Arrivals(run.before), f, p);
    GapRequest(rx, f, run.event.now);
    assert forall n :: 1 <= n < rx.tracker.expected ==> n in Sequences(Arrivals(run.before), p);
  }

  /** A request is only ever made for a gap: from the awaited sequence up to the arrival. */
  lemma GapRequest(rx: Receiver, f: OwnedFrame, now: nat)
    requires rx.mode == ReliableOrdered && CanProcess(rx, f) && rx.tracker.expected >= 1
    requires rx.tracker.active == Some(f.header.publisherId) || rx.tracker == Tracker.INITIAL
    requires var r := Processed(rx, f, now).1; r.Ok? && r.value.request.Some?
    ensures var q := Processed(rx, f, now).1.value.request.value;
            && q.fromSequence == rx.tracker.expected
            && q.toSequence == f.header.sequence - 1
            && q.fromSequence <= q.toSequence
            && q.toSequence - q.fromSequence + 1 <= rx.engine.config.maxReplayRange
  {}
}
