/** Per-stream sequence tracking: what the next sequence should be and how an arrival relates to it. */
module Tracker {
  import opened Outcomes
  import opened Frames

  datatype Status =
    | InOrder(sequence: nat)
    | Gap(expected: nat, received: nat, from: nat, to: nat)
    | DuplicateOrOld(sequence: nat, expected: nat)
    | PublisherReset(oldPublisher: Option<u64>, newPublisher: u64, initialSequence: nat)

  datatype State = State(
    active: Option<u64>,
    expected: nat,
    gaps: nat,
    duplicates: nat,
    resets: nat)

  const INITIAL := State(None, 1, 0, 0, 0)

  /** Sequence 0 would make the gap computation underflow unless the publisher is the active one. */
  predicate CanObserve(t: State, publisherId: u64, sequence: nat) {
    t.active == Some(publisherId) || sequence >= 1
  }

  /** The tracker and its verdict after one arrival. */
  function Observed(t: State, publisherId: u64, sequence: nat): (State, Status)
    requires CanObserve(t, publisherId, sequence)
  {
    if t.active == Some(publisherId) then
      if sequence == t.expected then
        (t.(expected := t.expected + 1), InOrder(sequence))
      else if sequence < t.expected then
        (t.(duplicates := t.duplicates + 1), DuplicateOrOld(sequence, t.expected))
      else
        (t.(gaps := t.gaps + 1), Gap(t.expected, sequence, t.expected, sequence - 1))
    else
      var joined := t.(active := Some(publisherId), resets := if t.active.None? then t.resets else t.resets + 1);
      if sequence == 1 then
        (joined.(expected := 2),
         if t.active.None? then InOrder(1) else PublisherReset(t.active, publisherId, 1))
      else
        (joined.(expected := 1, gaps := t.gaps + 1), Gap(1, sequence, 1, sequence - 1))
  }

  class StreamSequenceTracker {
    var activePublisherId: Option<u64>
    var expectedSequence: nat
    var totalGapsDetected: nat
    var totalDuplicatesDetected: nat
    var totalPublisherResets: nat

    ghost function Model(): State
      reads this
    {
      State(activePublisherId, expectedSequence, totalGapsDetected, totalDuplicatesDetected, totalPublisherResets)
    }

    constructor ()
      ensures Model() == INITIAL
    {
      activePublisherId := None;
      expectedSequence := 1;
      totalGapsDetected := 0;
      totalDuplicatesDetected := 0;
      totalPublisherResets := 0;
    }

    method Observe(publisherId: u64, sequence: nat) returns (status: Status)
      requires CanObserve(Model(), publisherId, sequence)
      modifies this
      ensures (Model(), status) == Observed(old(Model()), publisherId, sequence)
    {
      match activePublisherId {
        case None =>
          activePublisherId := Some(publisherId);
          if sequence == 1 {
            expectedSequence := 2;
            status := InOrder(1);
          } else {
            expectedSequence := 1;
            totalGapsDetected := totalGapsDetected + 1;
            status := Gap(1, sequence, 1, sequence - 1);
          }
        case Some(activePub) =>
          if activePub != publisherId {
            var oldPub := activePublisherId;
            activePublisherId := Some(publisherId);
            totalPublisherResets := totalPublisherResets + 1;
            if sequence == 1 {
              expectedSequence := 2;
              status := PublisherReset(oldPub, publisherId, 1);
            } else {
              expectedSequence := 1;
              totalGapsDetected := totalGapsDetected + 1;
              status := Gap(1, sequence, 1, sequence - 1);
            }
          } else if sequence == expectedSequence {
            expectedSequence := expectedSequence + 1;
            status := InOrder(sequence);
          } else if sequence < expectedSequence {
            totalDuplicatesDetected := totalDuplicatesDetected + 1;
            status := DuplicateOrOld(sequence, expectedSequence);
          } else {
            totalGapsDetected := totalGapsDetected + 1;
            status := Gap(expectedSequence, sequence, expectedSequence, sequence - 1);
          }
      }
    }

    method AdvanceExpected(newExpected: nat)
      modifies this
      ensures Model() == old(Model()).(expected := if newExpected > old(expectedSequence)
                                                   then newExpected else old(expectedSequence))
    {
      if newExpected > expectedSequence {
        expectedSequence := newExpected;
      }
    }
  }

  // ---------------------------------------------------------------- verdicts

  /** The sequence awaited from a publisher; one that takes over starts at 1. */
  function Awaited(t: State, publisherId: u64): nat {
    if t.active == Some(publisherId) then t.expected else 1
  }

  /** What each verdict tells, and when it is given. */
  lemma VerdictMeaning(t: State, publisherId: u64, sequence: nat)
    requires CanObserve(t, publisherId, sequence)
    ensures var status, awaited := Observed(t, publisherId, sequence).1, Awaited(t, publisherId);
            match status
            case InOrder(n) =>
              n == sequence == awaited && (t.active == None || t.active == Some(publisherId))
            case Gap(expected, received, low, high) =>
              sequence > awaited && expected == awaited && received == sequence
              && low == awaited && high + 1 == sequence
            case DuplicateOrOld(n, expected) =>
              n == sequence < expected == awaited && t.active == Some(publisherId)
            case PublisherReset(former, active, n) =>
              n == sequence == 1 && active == publisherId && former == t.active != None && former != Some(publisherId)
  {}

  // ---------------------------------------------------------------- counters over runs

  datatype Arrival = Arrival(publisherId: u64, sequence: nat)

  ghost predicate Legal(calls: seq<Arrival>) {
    forall i :: 0 <= i < |calls| ==> calls[i].sequence >= 1
  }

  /** The tracker after a run of calls, and the verdicts it gave. */
  function Tracked(calls: seq<Arrival>): (State, seq<Status>)
    requires Legal(calls)
  {
    if |calls| == 0 then (INITIAL, [])
    else
      var (t, verdicts) := Tracked(calls[..|calls| - 1]);
      var last := calls[|calls| - 1];
      var (t', status) := Observed(t, last.publisherId, last.sequence);
      (t', verdicts + [status])
  }

  function Gaps(verdicts: seq<Status>): nat {
    if |verdicts| == 0 then 0
    else Gaps(verdicts[..|verdicts| - 1]) + if verdicts[|verdicts| - 1].Gap? then 1 else 0
  }

  function Duplicates(verdicts: seq<Status>): nat {
    if |verdicts| == 0 then 0
    else Duplicates(verdicts[..|verdicts| - 1]) + if verdicts[|verdicts| - 1].DuplicateOrOld? then 1 else 0
  }

  /** How often the publisher differs from the one before it. */
  function Changes(calls: seq<Arrival>): nat {
    if |calls| <= 1 then 0
    else Changes(calls[..|calls| - 1])
         + if calls[|calls| - 1].publisherId != calls[|calls| - 2].publisherId then 1 else 0
  }

  lemma CounterDeltas(t: State, publisherId: u64, sequence: nat)
    requires CanObserve(t, publisherId, sequence) && t.expected >= 1
    ensures var (t', status) := Observed(t, publisherId, sequence);
            && t'.gaps == t.gaps + (if status.Gap? then 1 else 0)
            && t'.duplicates == t.duplicates + (if status.DuplicateOrOld? then 1 else 0)
            && t'.resets == t.resets + (if t.active.Some? && t.active != Some(publisherId) then 1 else 0)
            && t'.active == Some(publisherId)
            && t'.expected >= 1
  {}

  /** Over every run the counters are the numbers of gaps and duplicates reported and of publisher changes seen. */
  lemma {:induction false} CountersCount(calls: seq<Arrival>)
    requires Legal(calls)
    ensures var (t, verdicts) := Tracked(calls);
            && |verdicts| == |calls|
            && t.gaps == Gaps(verdicts)
            && t.duplicates == Duplicates(verdicts)
            && t.resets == Changes(calls)
            && t.active == (if |calls| == 0 then None else Some(calls[|calls| - 1].publisherId))
            && t.expected >= 1
  {
    hide Observed, Gaps, Duplicates, Changes;
    if |calls| == 0 {
      NothingCounted();
    } else {
      var before, last := calls[..|calls| - 1], calls[|calls| - 1];
      CountersCount(before);
      var (t, verdicts) := Tracked(before);
      CounterDeltas(t, last.publisherId, last.sequence);
      VerdictsStep(verdicts, Observed(t, last.publisherId, last.sequence).1);
      ChangesStep(calls);
    }
  }

  lemma NothingCounted()
    ensures Gaps([]) == Duplicates([]) == Changes([]) == 0
  {}

  lemma VerdictsStep(verdicts: seq<Status>, status: Status)
    ensures Gaps(verdicts + [status]) == Gaps(verdicts) + if status.Gap? then 1 else 0
    ensures Duplicates(verdicts + [status]) == Duplicates(verdicts) + if status.DuplicateOrOld? then 1 else 0
  {
    var all := verdicts + [status];
    assert all[..|all| - 1] == verdicts;
  }

  lemma ChangesStep(calls: seq<Arrival>)
    requires |calls| > 0
    ensures var before, last := calls[..|calls| - 1], calls[|calls| - 1];
            Changes(calls) == Changes(before)
                              + if before != [] && before[|before| - 1].publisherId != last.publisherId then 1 else 0
  {}
}
