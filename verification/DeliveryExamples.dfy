/** Concrete runs from a fresh receiver in which exactly-once order fails. */
module DeliveryExamples {
  import opened Outcomes
  import opened Frames
  import opened Delivery
  import opened DeliveryRuns
  import Tracker
  import Dedup
  import Recovery
  import Transport

  function Frame(publisherId: u64, sequence: u64): OwnedFrame {
    NewData(1, sequence, 0, publisherId, [])
  }

  function Receive(rx: Receiver, f: OwnedFrame): (Receiver, seq<OwnedFrame>)
    requires f.header.sequence >= 1
  {
    var (rx', r) := Processed(rx, f, 0);
    (rx', FramesOf(r))
  }

  const FRESH := NewReceiver(1, ReliableOrdered, Recovery.DEFAULT_CONFIG)

  function Key(publisherId: u64, sequence: u64): Dedup.Key {
    Dedup.Key(1, publisherId, sequence)
  }

  function Reached(active: u64, expected: nat, gaps: nat, resets: nat, recent: seq<Dedup.Key>,
                   engine: Recovery.Engine, highest: nat): Receiver {
    Receiver(1, ReliableOrdered, Tracker.State(Some(active), expected, gaps, 0, resets), 10_000, recent, engine, highest)
  }

  function Waiting(low: nat, high: nat, buffer: Recovery.ReorderBuffer): Recovery.Engine {
    Recovery.Engine(Recovery.DEFAULT_CONFIG, Recovery.Recovering, 2,
                    map[1 := Recovery.ActiveRequest(1, low, high, 0, 0, 0, [])], buffer)
  }

  /** After publisher 7's frame 1. */
  function Begun(): Receiver {
    Reached(7, 2, 0, 0, [Key(7, 1)], Recovery.NewEngine(Recovery.DEFAULT_CONFIG), 1)
  }

  /** After publisher 7's frames 1 and 3. */
  function Gapped(): Receiver {
    Reached(7, 2, 1, 0, [Key(7, 1), Key(7, 3)], Waiting(2, 2, map[3 := Frame(7, 3)]), 1)
  }

  lemma ToBegun()
    ensures Receive(FRESH, Frame(7, 1)) == (Begun(), [Frame(7, 1)])
  {
    assert [] + [Key(7, 1)] == [Key(7, 1)];
    assert [Frame(7, 1)] + [] == [Frame(7, 1)];
  }

  lemma ToGapped()
    ensures Receive(Begun(), Frame(7, 3)) == (Gapped(), [])
  {
    assert [Key(7, 1)] + [Key(7, 3)] == [Key(7, 1), Key(7, 3)];
  }

  /** After the replay of 2 on top of that. */
  function Recouped(): Receiver {
    Reached(7, 2, 1, 0, [Key(7, 1), Key(7, 3)],
            Recovery.Engine(Recovery.DEFAULT_CONFIG, Recovery.Live, 2, map[], map[]), 3)
  }

  lemma ToRecouped()
    ensures Transport.Replayed(Gapped(), 1, Frame(7, 2)) == (Recouped(), [Frame(7, 2), Frame(7, 3)])
  {
    var e, buffer := Gapped().engine, map[2 := Frame(7, 2), 3 := Frame(7, 3)];
    assert e.buffer[2 := Frame(7, 2)] == buffer;
    var r := Recovery.Noted(e.outstanding[1], 2);
    assert r.received == [2];
    assert Recovery.Complete(r);
    Recovery.AscendingUnfold(buffer, 2, []);
    Recovery.AscendingUnfold(buffer - {2}, 3, [Frame(7, 2)]);
    assert buffer - {2} - {3} == map[];
    var fs := [Frame(7, 2), Frame(7, 3)];
    assert Recovery.Ascending(buffer) == fs;
    assert e.outstanding - {1} == map[];
    assert fs[..1] == [Frame(7, 2)];
    assert Transport.HighestOf(1, fs) == 3;
  }

  lemma AfterRecouped()
    ensures Receive(Recouped(), Frame(7, 2)).1 == [Frame(7, 2)]
  {
    AwaitedEffect(Recouped(), Frame(7, 2), 0);
  }

  /** Loss of 2, arrival of 3, replay of 2, late arrival of the original 2: it is delivered twice. */
  lemma ReplayRunDeliversTwice()
    ensures var (rx1, d1) := Receive(FRESH, Frame(7, 1));
            var (rx2, d2) := Receive(rx1, Frame(7, 3));
            var (rx3, d3) := Transport.Replayed(rx2, 1, Frame(7, 2));
            var (_, d4) := Receive(rx3, Frame(7, 2));
            d1 + d2 + d3 + d4 == [Frame(7, 1), Frame(7, 2), Frame(7, 3), Frame(7, 2)]
  {
    ToBegun();
    ToGapped();
    ToRecouped();
    AfterRecouped();
  }

  /** After publisher 8's frame 2 arrives while 7's frame 3 is buffered. */
  function Mixed(): Receiver {
    Reached(8, 1, 2, 1, [Key(7, 1), Key(7, 3), Key(8, 2)],
            Recovery.Engine(Recovery.DEFAULT_CONFIG, Recovery.Recovering, 3,
                            map[1 := Recovery.ActiveRequest(1, 2, 2, 0, 0, 0, []),
                                2 := Recovery.ActiveRequest(2, 1, 1, 0, 0, 0, [])],
                            map[2 := Frame(8, 2), 3 := Frame(7, 3)]),
            1)
  }

  lemma ToMixed()
    ensures Receive(Gapped(), Frame(8, 2)) == (Mixed(), [])
  {
    var e := Gapped().engine;
    assert [Key(7, 1), Key(7, 3)] + [Key(8, 2)] == [Key(7, 1), Key(7, 3), Key(8, 2)];
    assert e.buffer[2 := Frame(8, 2)] == Mixed().engine.buffer;
    assert |e.outstanding| == 1;
    assert e.outstanding[2 := Recovery.ActiveRequest(2, 1, 1, 0, 0, 0, [])] == Mixed().engine.outstanding;
  }

  lemma AfterMixed()
    ensures Receive(Mixed(), Frame(8, 1)).1 == [Frame(8, 1), Frame(8, 2), Frame(7, 3)]
  {
    AwaitedEffect(Mixed(), Frame(8, 1), 0);
    var buffer := Mixed().engine.buffer;
    assert Recovery.Drained(buffer - {2} - {3}, 4).0 == [];
    assert Recovery.Drained(buffer - {2}, 3).0 == [Frame(7, 3)];
    assert Recovery.Drained(buffer, 2).0 == [Frame(8, 2)] + [Frame(7, 3)];
  }

  /** A publisher whose first frame to arrive is not 1 inherits the reorder buffer of the one before it. */
  lemma LateStartDeliversForeignFrame()
    ensures var (rx1, d1) := Receive(FRESH, Frame(7, 1));
            var (rx2, d2) := Receive(rx1, Frame(7, 3));
            var (rx3, d3) := Receive(rx2, Frame(8, 2));
            var (_, d4) := Receive(rx3, Frame(8, 1));
            d1 + d2 + d3 + d4 == [Frame(7, 1), Frame(8, 1), Frame(8, 2), Frame(7, 3)]
  {
    ToBegun();
    ToGapped();
    ToMixed();
    AfterMixed();
  }

  /** After publisher 8 took over with its frame 1. */
  function TakenOver(): Receiver {
    Reached(8, 2, 0, 1, [Key(7, 1), Key(8, 1)], Recovery.NewEngine(Recovery.DEFAULT_CONFIG), 1)
  }

  /** After a late frame 2 of publisher 7; `expected` then moves on without any delivery. */
  function SwitchedBack(expected: nat): Receiver {
    Reached(7, expected, 1, 2, [Key(7, 1), Key(8, 1), Key(7, 2)], Waiting(1, 1, map[2 := Frame(7, 2)]), 1)
  }

  lemma ToTakenOver()
    ensures Receive(Begun(), Frame(8, 1)) == (TakenOver(), [Frame(8, 1)])
  {
    assert [Key(7, 1)] + [Key(8, 1)] == [Key(7, 1), Key(8, 1)];
  }

  lemma ToSwitchedBack()
    ensures Receive(TakenOver(), Frame(7, 2)) == (SwitchedBack(1), [])
  {
    assert [Key(7, 1), Key(8, 1)] + [Key(7, 2)] == [Key(7, 1), Key(8, 1), Key(7, 2)];
  }

  /** The tracker advances before the filter suppresses the frame. */
  lemma SuppressedYetCounted(n: u64)
    requires 1 <= n <= 2
    ensures Receive(SwitchedBack(n), Frame(7, n)) == (SwitchedBack(n + 1), [])
  {
    var recent := [Key(7, 1), Key(8, 1), Key(7, 2)];
    assert recent[0] == Key(7, 1) && recent[2] == Key(7, 2);
  }

  lemma AfterSwitchedBack()
    ensures Receive(SwitchedBack(3), Frame(7, 3)).1 == [Frame(7, 3)]
  {
    AwaitedEffect(SwitchedBack(3), Frame(7, 3), 0);
  }

  /** A late frame of an old publisher switches the tracker back; that publisher's 2 is then lost for good. */
  lemma ReturningPublisherLosesFrame()
    ensures var (rx1, d1) := Receive(FRESH, Frame(7, 1));
            var (rx2, d2) := Receive(rx1, Frame(8, 1));
            var (rx3, d3) := Receive(rx2, Frame(7, 2));
            var (rx4, d4) := Receive(rx3, Frame(7, 1));
            var (rx5, d5) := Receive(rx4, Frame(7, 2));
            var (_, d6) := Receive(rx5, Frame(7, 3));
            d1 + d2 + d3 + d4 + d5 + d6 == [Frame(7, 1), Frame(8, 1), Frame(7, 3)]
  {
    ToBegun();
    ToTakenOver();
    ToSwitchedBack();
    SuppressedYetCounted(1);
    SuppressedYetCounted(2);
    AfterSwitchedBack();
  }

  /** After publisher 7's frames 1 and 4. */
  function WideGap(buffer: Recovery.ReorderBuffer, received: seq<nat>): Receiver {
    Reached(7, 2, 1, 0, [Key(7, 1), Key(7, 4)],
            Recovery.Engine(Recovery.DEFAULT_CONFIG, Recovery.Recovering, 2,
                            map[1 := Recovery.ActiveRequest(1, 2, 3, 0, 0, 0, received)], buffer),
            1)
  }

  lemma ToWideGap()
    ensures Receive(Begun(), Frame(7, 4)) == (WideGap(map[4 := Frame(7, 4)], []), [])
  {
    assert [Key(7, 1)] + [Key(7, 4)] == [Key(7, 1), Key(7, 4)];
  }

  lemma ToForeignReply()
    ensures Transport.Replayed(WideGap(map[4 := Frame(7, 4)], []), 1, Frame(8, 3))
         == (WideGap(map[3 := Frame(8, 3), 4 := Frame(7, 4)], [3]), [])
  {
    var e := WideGap(map[4 := Frame(7, 4)], []).engine;
    var e' := WideGap(map[3 := Frame(8, 3), 4 := Frame(7, 4)], [3]).engine;
    var r := Recovery.Noted(e.outstanding[1], 3);
    assert r.received == [3];
    assert 2 !in r.received;
    assert !Recovery.Complete(r);
    assert e.buffer[3 := Frame(8, 3)] == e'.buffer;
    assert e.outstanding[1 := r] == e'.outstanding;
  }

  lemma AfterForeignReply()
    ensures Receive(WideGap(map[3 := Frame(8, 3), 4 := Frame(7, 4)], [3]), Frame(7, 2)).1
         == [Frame(7, 2), Frame(8, 3), Frame(7, 4)]
  {
    var buffer := map[3 := Frame(8, 3), 4 := Frame(7, 4)];
    AwaitedEffect(WideGap(buffer, [3]), Frame(7, 2), 0);
    assert Recovery.Drained(buffer - {3} - {4}, 5).0 == [];
    assert Recovery.Drained(buffer - {3}, 4).0 == [Frame(7, 4)];
    assert Recovery.Drained(buffer, 3).0 == [Frame(8, 3)] + [Frame(7, 4)];
  }

  /** A reply from a restarted publisher's ring completes nothing, yet is delivered between the old publisher's frames. */
  lemma ForeignReplyDelivered()
    ensures var (rx1, d1) := Receive(FRESH, Frame(7, 1));
            var (rx2, d2) := Receive(rx1, Frame(7, 4));
            var (rx3, d3) := Transport.Replayed(rx2, 1, Frame(8, 3));
            var (_, d4) := Receive(rx3, Frame(7, 2));
            && !Recovery.Completes(rx2.engine, 1, Frame(8, 3))
            && d1 + d2 + d3 + d4 == [Frame(7, 1), Frame(7, 2), Frame(8, 3), Frame(7, 4)]
  {
    ToBegun();
    ToWideGap();
    ToForeignReply();
    AfterForeignReply();
    var r := Recovery.Noted(WideGap(map[4 := Frame(7, 4)], []).engine.outstanding[1], 3);
    assert 2 !in r.received;
  }

  lemma ToAwaitedReply()
    ensures Transport.Replayed(WideGap(map[4 := Frame(7, 4)], []), 1, Frame(7, 2))
         == (WideGap(map[2 := Frame(7, 2), 4 := Frame(7, 4)], [2]), [])
  {
    var e := WideGap(map[4 := Frame(7, 4)], []).engine;
    var e' := WideGap(map[2 := Frame(7, 2), 4 := Frame(7, 4)], [2]).engine;
    var r := Recovery.Noted(e.outstanding[1], 2);
    assert r.received == [2];
    assert 3 !in r.received;
    assert !Recovery.Complete(r);
    assert e.buffer[2 := Frame(7, 2)] == e'.buffer;
    assert e.outstanding[1 := r] == e'.outstanding;
  }

  /** Frames 1 to 4 have all reached the receiver, 2 as a reply; only 1 is delivered and the rest stays buffered. */
  lemma AwaitedReplyStalls()
    ensures var (rx1, d1) := Receive(FRESH, Frame(7, 1));
            var (rx2, d2) := Receive(rx1, Frame(7, 4));
            var (rx3, d3) := Transport.Replayed(rx2, 1, Frame(7, 2));
            var (rx4, d4) := Receive(rx3, Frame(7, 3));
            && d1 + d2 + d3 + d4 == [Frame(7, 1)]
            && rx4.engine.buffer == map[2 := Frame(7, 2), 3 := Frame(7, 3), 4 := Frame(7, 4)]
  {
    ToBegun();
    ToWideGap();
    ToAwaitedReply();
    UnawaitedEffect(WideGap(map[2 := Frame(7, 2), 4 := Frame(7, 4)], [2]), Frame(7, 3), 0);
  }
}
