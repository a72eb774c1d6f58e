/** The three modes without ordering: what each delivers out of any sequence of arrivals. */
module DeliveryModes {
  import opened Outcomes
  import opened Frames
  import opened Delivery
  import opened DeliveryRuns
  import Recovery
  import Tracker

  ghost predicate Exceeds(f: OwnedFrame, before: seq<OwnedFrame>) {
    forall g :: g in before ==> g.header.sequence < f.header.sequence
  }

  /** The arrivals whose sequence exceeds that of every arrival before them. */
  ghost function Records(fs: seq<OwnedFrame>): seq<OwnedFrame> {
    if |fs| == 0 then []
    else
      var before, last := fs[..|fs| - 1], fs[|fs| - 1];
      Records(before) + if Exceeds(last, before) then [last] else []
  }

  function Highest(fs: seq<OwnedFrame>): nat {
    if |fs| == 0 then 0 else Max(Highest(fs[..|fs| - 1]), fs[|fs| - 1].header.sequence)
  }

  lemma {:induction false} HighestBounds(fs: seq<OwnedFrame>)
    ensures forall f :: f in fs ==> f.header.sequence <= Highest(fs)
    ensures Highest(fs) == 0 || exists f :: f in fs && f.header.sequence == Highest(fs)
  {
    if |fs| != 0 {
      HighestBounds(fs[..|fs| - 1]);
    }
  }

  lemma UnorderedStep(rx: Receiver, f: OwnedFrame, now: nat)
    requires (rx.mode == BestEffort || rx.mode == Latest) && CanProcess(rx, f)
    ensures var (rx', r) := Processed(rx, f, now);
            && rx'.mode == rx.mode
            && rx'.highestDelivered == Max(rx.highestDelivered, f.header.sequence)
            && FramesOf(r) == if rx.mode == BestEffort || rx.highestDelivered < f.header.sequence then [f] else []
  {}

  /** BestEffort hands over every arrival; Latest hands over the records, across publisher changes too. */
  lemma {:induction false} UnorderedModes(streamId: u64, mode: DeliveryMode, config: Recovery.Config,
                                          calls: seq<Call>)
    requires Legal(calls) && (mode == BestEffort || mode == Latest)
    ensures var (rx, delivered) := ProcessAll(NewReceiver(streamId, mode, config), calls);
            && rx.mode == mode
            && rx.highestDelivered == Highest(FramesIn(calls))
            && delivered == (if mode == BestEffort then FramesIn(calls) else Records(FramesIn(calls)))
    decreases |calls|
  {
    hide Processed, Highest, Records;
    if |calls| == 0 {
      NoRecords();
    } else {
      var init, last := calls[..|calls| - 1], calls[|calls| - 1];
      UnorderedModes(streamId, mode, config, init);
      UnorderedStep(ProcessAll(NewReceiver(streamId, mode, config), init).0, last.frame, last.now);
      RecordsStep(FramesIn(init), last.frame);
      assert FramesIn(calls) == FramesIn(init) + [last.frame];
    }
  }

  lemma NoRecords()
    ensures Highest([]) == 0 && Records([]) == []
  {}

  lemma RecordsStep(fs: seq<OwnedFrame>, f: OwnedFrame)
    requires f.header.sequence >= 1
    ensures Highest(fs + [f]) == Max(Highest(fs), f.header.sequence)
    ensures Records(fs + [f]) == Records(fs) + if Highest(fs) < f.header.sequence then [f] else []
  {
    var more := fs + [f];
    assert more[..|more| - 1] == fs;
    HighestBounds(fs);
    assert Exceeds(f, fs) <==> Highest(fs) < f.header.sequence;
  }

  /** What Latest delivers is strictly ascending. */
  lemma {:induction false} RecordsAscend(fs: seq<OwnedFrame>)
    ensures Recovery.StrictlyAscending(Records(fs))
    ensures forall f :: f in Records(fs) ==> f in fs
  {
    if |fs| != 0 {
      RecordsAscend(fs[..|fs| - 1]);
    }
  }

  // ---------------------------------------------------------------- at least once

  /** The arrival opens a gap whose replay request is refused, for its length or for too many outstanding. */
  predicate OpensRefusedGap(rx: Receiver, f: OwnedFrame)
    requires CanProcess(rx, f)
  {
    var status := Tracker.Observed(rx.tracker, f.header.publisherId, f.header.sequence).1;
    && status.Gap?
    && (Recovery.RangeLength(status.from, status.to) > rx.engine.config.maxReplayRange
        || |rx.engine.outstanding| >= rx.engine.config.maxOutstanding)
  }

  /** AtLeastOnce hands over every arrival at once, except exactly those that open a refused gap: they are dropped. */
  lemma AtLeastOnceDropsExactly(rx: Receiver, f: OwnedFrame, now: nat)
    requires rx.mode == AtLeastOnce && CanProcess(rx, f)
    ensures FramesOf(Processed(rx, f, now).1) == (if OpensRefusedGap(rx, f) then [] else [f])
  {}

  /** The arrivals that survive: those that do not open a refused gap when they come. */
  function Accepted(rx: Receiver, calls: seq<Call>): seq<OwnedFrame>
    requires Legal(calls)
  {
    if |calls| == 0 then []
    else
      var init, last := calls[..|calls| - 1], calls[|calls| - 1];
      Accepted(rx, init) + if OpensRefusedGap(ProcessAll(rx, init).0, last.frame) then [] else [last.frame]
  }

  /** Over any arrivals AtLeastOnce delivers exactly those, in the order they came. */
  lemma {:induction false} AtLeastOnceRuns(rx: Receiver, calls: seq<Call>)
    requires rx.mode == AtLeastOnce && Legal(calls)
    ensures ProcessAll(rx, calls).1 == Accepted(rx, calls) && ProcessAll(rx, calls).0.mode == AtLeastOnce
    decreases |calls|
  {
    if |calls| != 0 {
      var init, last := calls[..|calls| - 1], calls[|calls| - 1];
      AtLeastOnceRuns(rx, init);
      AtLeastOnceDropsExactly(ProcessAll(rx, init).0, last.frame, last.now);
    }
  }

  /** With the default limits a first arrival 1002 is never delivered, however many copies of it arrive. */
  lemma {:induction false} AtLeastOnceLosesFrame(calls: seq<Call>)
    requires forall i :: 0 <= i < |calls| ==> calls[i].frame == NewData(1, 1002, 0, 7, [])
    ensures Legal(calls)
    ensures var (rx, delivered) := ProcessAll(NewReceiver(1, AtLeastOnce, Recovery.DEFAULT_CONFIG), calls);
            && delivered == [] && rx.mode == AtLeastOnce && rx.engine == Recovery.NewEngine(Recovery.DEFAULT_CONFIG)
            && rx.tracker.expected == 1
            && (rx.tracker.active == None || rx.tracker.active == Some(7))
    decreases |calls|
  {
    if |calls| != 0 {
      AtLeastOnceLosesFrame(calls[..|calls| - 1]);
    }
  }
}
