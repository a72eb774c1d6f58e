/** The publisher's retention ring: a modulo-indexed array with a min/max window over the pushes. */
module RetentionRing {
  import opened Outcomes
  import opened Frames

  // ---------------------------------------------------------------- specification

  datatype Ring = Ring(slots: seq<Option<OwnedFrame>>, min: Option<nat>, max: Option<nat>)

  datatype RangeResult = Retained(frames: seq<OwnedFrame>) | Unavailable(first: nat, last: nat)

  function Empty(capacity: nat): Ring {
    Ring(seq(capacity, _ => None), None, None)
  }

  function Pushed(r: Ring, f: OwnedFrame): (r': Ring)
    requires |r.slots| > 0
    ensures |r'.slots| == |r.slots|
  {
    var capacity, n := |r.slots|, f.header.sequence;
    Ring(r.slots[n % capacity := Some(f)],
         if r.min.None? then Some(n)
         else if n > r.min.value && n - r.min.value >= capacity then Some(n - capacity + 1)
         else r.min,
         Some(n))
  }

  function Lookup(r: Ring, n: nat): (f: Option<OwnedFrame>)
    requires |r.slots| > 0
    ensures f.Some? ==> f.value.header.sequence == n && r.min.Some? && r.max.Some?
                        && r.min.value <= n <= r.max.value
  {
    if r.min.None? || r.max.None? || n < r.min.value || n > r.max.value then None
    else
      var slot := r.slots[n % |r.slots|];
      if slot.Some? && slot.value.header.sequence == n then slot else None
  }

  /** The frames low..high, or the first sequence among them that is not retained. */
  function Collect(r: Ring, low: nat, high: nat): RangeResult
    requires |r.slots| > 0
    decreases high + 1 - low
  {
    if low > high then Retained([])
    else
      var f := Lookup(r, low);
      if f.None? then Unavailable(low, low)
      else
        var rest := Collect(r, low + 1, high);
        if rest.Unavailable? then rest else Retained([f.value] + rest.frames)
  }

  /** The frames collected so far, and those of the rest of the range. */
  function Onto(result: seq<OwnedFrame>, rest: RangeResult): RangeResult {
    if rest.Retained? then Retained(result + rest.frames) else rest
  }

  lemma OntoNothing(rest: RangeResult)
    ensures Onto([], rest) == rest
  {
    if rest.Retained? {
      assert [] + rest.frames == rest.frames;
    }
  }

  lemma CollectStep(r: Ring, n: nat, high: nat, result: seq<OwnedFrame>)
    requires |r.slots| > 0
    ensures Onto(result, Collect(r, n, high))
         == if n > high then Retained(result)
            else if Lookup(r, n).None? then Unavailable(n, n)
            else Onto(result + [Lookup(r, n).value], Collect(r, n + 1, high))
  {
    var rest := Collect(r, n + 1, high);
    assert result + [] == result;
    if n <= high && Lookup(r, n).Some? && rest.Retained? {
      var x := Lookup(r, n).value;
      assert result + ([x] + rest.frames) == (result + [x]) + rest.frames;
    }
  }

  function OrZero(o: Option<nat>): nat {
    if o.Some? then o.value else 0
  }

  function Range(r: Ring, low: nat, high: nat): RangeResult
    requires |r.slots| > 0
  {
    if low < OrZero(r.min) then Unavailable(low, OrZero(r.min) - 1)
    else if high > OrZero(r.max) then Unavailable(OrZero(r.max) + 1, high)
    else Collect(r, low, high)
  }

  // ---------------------------------------------------------------- the ring itself

  class BoundedRingBuffer {
    const buffer: array<Option<OwnedFrame>>
    var minSequence: Option<nat>
    var maxSequence: Option<nat>

    ghost predicate Valid() {
      buffer.Length > 0
    }

    ghost function Model(): Ring
      reads this, buffer
    {
      Ring(buffer[..], minSequence, maxSequence)
    }

    constructor (capacity: nat)
      requires capacity > 0
      ensures Valid() && fresh(buffer) && buffer.Length == capacity && Model() == Empty(capacity)
    {
      buffer := new Option<OwnedFrame>[capacity](_ => None);
      minSequence := None;
      maxSequence := None;
    }

    method Push(f: OwnedFrame)
      requires Valid()
      modifies this, buffer
      ensures Model() == Pushed(old(Model()), f)
    {
      var seq_ := f.header.sequence;
      var index := seq_ % buffer.Length;
      buffer[index] := Some(f);
      match minSequence {
        case None =>
          minSequence := Some(seq_);
          maxSequence := Some(seq_);
        case Some(minS) =>
          maxSequence := Some(seq_);
          if seq_ > minS && seq_ - minS >= buffer.Length {
            minSequence := Some(seq_ - buffer.Length + 1);
          }
      }
    }

    function Get(n: nat): (f: Option<OwnedFrame>)
      requires Valid()
      reads this, buffer
      ensures f == Lookup(Model(), n)
    {
      if minSequence.None? || maxSequence.None? || n < minSequence.value || n > maxSequence.value then
        None
      else
        var slot := buffer[n % buffer.Length];
        if slot.Some? && slot.value.header.sequence == n then slot else None
    }

    /** Callers have refused reversed ranges already. */
    method GetRange(low: nat, high: nat) returns (r: RangeResult)
      requires Valid() && low <= high
      ensures r == Range(Model(), low, high)
    {
      var minS, maxS := OrZero(minSequence), OrZero(maxSequence);
      if low < minS {
        return Unavailable(low, minS - 1);
      }
      if high > maxS {
        return Unavailable(maxS + 1, high);
      }
      r := CollectFrames(low, high);
    }

    /** The loop over the slots, once the range is known to lie within the bounds. */
    method CollectFrames(low: nat, high: nat) returns (r: RangeResult)
      requires Valid() && low <= high
      ensures r == Collect(Model(), low, high)
    {
      hide Collect, Lookup, Onto, Get;
      ghost var ring := Model();
      OntoNothing(Collect(ring, low, high));
      var result: seq<OwnedFrame> := [];
      var n := low;
      while n <= high
        invariant low <= n <= high + 1
        invariant Collect(ring, low, high) == Onto(result, Collect(ring, n, high))
      {
        var f := Get(n);
        CollectStep(ring, n, high, result);
        if f.None? {
          return Unavailable(n, n);
        }
        result := result + [f.value];
        n := n + 1;
      }
      CollectStep(ring, n, high, result);
      return Retained(result);
    }

    method Clear()
      requires Valid()
      modifies this, buffer
      ensures Model() == Empty(buffer.Length)
    {
      for i := 0 to buffer.Length
        invariant forall k :: 0 <= k < i ==> buffer[k] == None
      {
        buffer[i] := None;
      }
      minSequence := None;
      maxSequence := None;
    }
  }

  // ---------------------------------------------------------------- any history of pushes

  /** The ring after pushing h, in that order, since it was created or last cleared. */
  function After(capacity: nat, h: seq<OwnedFrame>): (r: Ring)
    requires capacity > 0
    ensures |r.slots| == capacity
  {
    if |h| == 0 then Empty(capacity) else Pushed(After(capacity, h[..|h| - 1]), h[|h| - 1])
  }

  /** The most recently pushed frame with sequence n. */
  function LastPushed(h: seq<OwnedFrame>, n: nat): Option<OwnedFrame> {
    if |h| == 0 then None
    else if h[|h| - 1].header.sequence == n then Some(h[|h| - 1])
    else LastPushed(h[..|h| - 1], n)
  }

  lemma {:induction false} LastPushedMeaning(h: seq<OwnedFrame>, n: nat)
    ensures LastPushed(h, n).Some? <==> exists i :: 0 <= i < |h| && h[i].header.sequence == n
    ensures LastPushed(h, n).Some? ==>
              LastPushed(h, n).value in h && LastPushed(h, n).value.header.sequence == n
  {
    if |h| != 0 {
      LastPushedMeaning(h[..|h| - 1], n);
    }
  }

  lemma {:induction false} SlotMeaning(capacity: nat, h: seq<OwnedFrame>, n: nat)
    requires capacity > 0
    ensures var slot := After(capacity, h).slots[n % capacity];
            slot.Some? && slot.value.header.sequence == n ==> slot == LastPushed(h, n)
    ensures After(capacity, h).max == if |h| == 0 then None else Some(h[|h| - 1].header.sequence)
    ensures After(capacity, h).min.Some? <==> |h| != 0
  {
    if |h| != 0 {
      SlotMeaning(capacity, h[..|h| - 1], n);
    }
  }

  /** Whatever the order of pushes, a lookup only ever returns the latest push of that very sequence. */
  lemma LookupReturnsLatest(capacity: nat, h: seq<OwnedFrame>, n: nat)
    requires capacity > 0
    ensures Lookup(After(capacity, h), n).Some? ==> Lookup(After(capacity, h), n) == LastPushed(h, n)
  {
    SlotMeaning(capacity, h, n);
  }

  lemma {:induction false} CollectMeaning(r: Ring, low: nat, high: nat)
    requires |r.slots| > 0 && low <= high + 1
    ensures match Collect(r, low, high)
            case Retained(fs) =>
              && |fs| == high + 1 - low
              && forall i :: 0 <= i < |fs| ==> Lookup(r, low + i) == Some(fs[i])
            case Unavailable(a, b) =>
              && low <= a == b <= high
              && Lookup(r, a) == None
              && forall n :: low <= n < a ==> Lookup(r, n).Some?
    decreases high + 1 - low
  {
    if low <= high {
      CollectMeaning(r, low + 1, high);
      var rest := Collect(r, low + 1, high);
      if rest.Retained? && Lookup(r, low).Some? {
        var fs := [Lookup(r, low).value] + rest.frames;
        assert forall i :: 1 <= i < |fs| ==> fs[i] == rest.frames[i - 1] && low + 1 + (i - 1) == low + i;
      }
    }
  }

  lemma MultipleBounds(m: nat, k: int)
    ensures k >= 1 ==> m * k >= m
    ensures k <= 0 ==> m * k <= 0
    ensures k <= -1 ==> m * k + m <= 0
  {}

  /** Sequences a capacity apart share a slot; sequences closer than that do not. */
  lemma SlotSharing(a: nat, b: nat, capacity: nat)
    requires 0 < capacity && a < b <= a + capacity
    ensures a % capacity == b % capacity <==> b == a + capacity
  {
    var k := b / capacity - a / capacity;
    assert b - a == capacity * k + (b % capacity - a % capacity);
    MultipleBounds(capacity, k);
    MultipleBounds(capacity, k - 1);
    assert capacity * (k - 1) == capacity * k - capacity;
  }

  /** A served range is returned whole and in order, and never exceeds the capacity. */
  lemma RangeServed(capacity: nat, h: seq<OwnedFrame>, low: nat, high: nat)
    requires capacity > 0 && low <= high
    requires Range(After(capacity, h), low, high).Retained?
    ensures var fs := Range(After(capacity, h), low, high).frames;
            && |fs| == high - low + 1 <= capacity
            && forall i :: 0 <= i < |fs| ==> fs[i].header.sequence == low + i
                                             && Some(fs[i]) == LastPushed(h, low + i)
  {
    var r := After(capacity, h);
    CollectMeaning(r, low, high);
    var fs := Range(r, low, high).frames;
    forall i | 0 <= i < |fs|
      ensures fs[i].header.sequence == low + i && Some(fs[i]) == LastPushed(h, low + i)
    {
      assert Lookup(r, low + i) == Some(fs[i]);
      LookupReturnsLatest(capacity, h, low + i);
    }
    SlotSharing(low, low + capacity, capacity);
    assert Lookup(r, low + 0).None? || Lookup(r, low + capacity).None?;
  }

  /**
   A refusal names what lies below the window, or else what lies above it, or else the first sequence that has gone: a
   nonempty range that meets the request and holds no retrievable sequence.
   */
  lemma RangeRefused(capacity: nat, h: seq<OwnedFrame>, low: nat, high: nat)
    requires capacity > 0 && low <= high
    requires Range(After(capacity, h), low, high).Unavailable?
    ensures var r := After(capacity, h);
            var Unavailable(a, b) := Range(r, low, high);
            && a <= b && a <= high && low <= b
            && forall n :: a <= n <= b ==> Lookup(r, n) == None
    ensures var r := After(capacity, h);
            var Unavailable(a, b) := Range(r, low, high);
            if r.min.Some? && low < r.min.value then a == low && b + 1 == r.min.value
            else if high > (if r.max.Some? then r.max.value else 0) then
              a == (if r.max.Some? then r.max.value else 0) + 1 && b == high
            else a == b && forall n :: low <= n < a ==> Lookup(r, n).Some?
  {
    CollectMeaning(After(capacity, h), low, high);
  }

  // ---------------------------------------------------------------- increasing pushes

  ghost predicate Increasing(h: seq<OwnedFrame>) {
    forall i, j :: 0 <= i < j < |h| ==> h[i].header.sequence < h[j].header.sequence
  }

  function Newest(h: seq<OwnedFrame>): nat
    requires |h| > 0
  {
    h[|h| - 1].header.sequence
  }

  lemma PushedBounds(before: seq<OwnedFrame>, f: OwnedFrame, n: nat)
    requires Increasing(before + [f])
    ensures LastPushed(before, n).Some? ==> before[0].header.sequence <= n < f.header.sequence
  {
    LastPushedMeaning(before, n);
    if LastPushed(before, n).Some? {
      var i :| 0 <= i < |before| && before[i].header.sequence == n;
      assert (before + [f])[i] == before[i] && (before + [f])[0] == before[0];
      assert (before + [f])[|before|] == f;
    }
  }

  /** The window's lower end: the first push, or one capacity below the newest. */
  function WindowMin(capacity: nat, h: seq<OwnedFrame>): nat
    requires |h| > 0
  {
    var first, newest := h[0].header.sequence as nat, Newest(h);
    if newest + 1 > first + capacity then newest + 1 - capacity else first
  }

  lemma {:induction false} MinOfIncreasing(capacity: nat, h: seq<OwnedFrame>)
    requires capacity > 0 && Increasing(h) && |h| > 0
    ensures After(capacity, h).min == Some(WindowMin(capacity, h))
  {
    if |h| > 1 {
      var before := h[..|h| - 1];
      assert h[|h| - 2].header.sequence < h[|h| - 1].header.sequence;
      MinOfIncreasing(capacity, before);
    } else {
      assert h[..0] == [];
    }
  }

  /** The highest sequence pushed. */
  function Highest(h: seq<OwnedFrame>): nat
    requires |h| > 0
  {
    var rest := h[..|h| - 1];
    if |rest| == 0 || Highest(rest) < Newest(h) then Newest(h) else Highest(rest)
  }

  lemma {:induction false} HighestBounds(h: seq<OwnedFrame>)
    requires |h| > 0
    ensures forall f :: f in h ==> f.header.sequence <= Highest(h)
    ensures exists f :: f in h && f.header.sequence == Highest(h)
  {
    var rest := h[..|h| - 1];
    assert h == rest + [h[|h| - 1]];
    if |rest| > 0 {
      HighestBounds(rest);
    }
  }

  /** In any order of pushes the minimum is the first sequence, or one capacity below the highest, and never falls. */
  lemma {:induction false} MinOfAnyPushes(capacity: nat, h: seq<OwnedFrame>)
    requires capacity > 0 && |h| > 0
    ensures var first, highest := h[0].header.sequence as nat, Highest(h);
            After(capacity, h).min
            == Some(if highest >= first + capacity then highest + 1 - capacity else first)
  {
    if |h| > 1 {
      MinOfAnyPushes(capacity, h[..|h| - 1]);
    } else {
      assert h[..0] == [];
    }
  }

  /** A pushed sequence less than a capacity behind the newest still sits in its slot. */
  lemma {:induction false} RecentStaysInSlot(capacity: nat, h: seq<OwnedFrame>, n: nat)
    requires capacity > 0 && Increasing(h) && |h| > 0 && Newest(h) < n + capacity
    requires LastPushed(h, n).Some?
    ensures After(capacity, h).slots[n % capacity] == LastPushed(h, n)
  {
    var before, f := h[..|h| - 1], h[|h| - 1];
    var s := f.header.sequence as nat;
    if n != s {
      assert h == before + [f];
      PushedBounds(before, f, n);
      SlotSharing(n, s, capacity);
      assert Newest(before) < s;
      RecentStaysInSlot(capacity, before, n);
    }
  }

  /** For increasing pushes the ring holds exactly the pushed sequences above newest - capacity. */
  lemma IncreasingPushes(capacity: nat, h: seq<OwnedFrame>, n: nat)
    requires capacity > 0 && Increasing(h)
    ensures Lookup(After(capacity, h), n)
         == if |h| > 0 && n + capacity > Newest(h) then LastPushed(h, n) else None
    ensures |h| > 0 ==> After(capacity, h).min == Some(WindowMin(capacity, h))
  {
    if |h| > 0 {
      MinOfIncreasing(capacity, h);
      SlotMeaning(capacity, h, n);
      LastPushedMeaning(h, n);
      if LastPushed(h, n).Some? && n + capacity > Newest(h) {
        RecentStaysInSlot(capacity, h, n);
        var i :| 0 <= i < |h| && h[i].header.sequence == n;
        assert h[0].header.sequence <= n <= Newest(h);
      }
    }
  }

  ghost predicate Consecutive(h: seq<OwnedFrame>) {
    forall i :: 0 <= i < |h| ==> h[i].header.sequence == h[0].header.sequence + i
  }

  /** For consecutive pushes a range is served exactly when it lies inside the window. */
  lemma ConsecutivePushes(capacity: nat, h: seq<OwnedFrame>, low: nat, high: nat)
    requires capacity > 0 && Consecutive(h) && low <= high && |h| > 0
    ensures var r := After(capacity, h);
            Range(r, low, high).Retained? <==> r.min.value <= low && high <= r.max.value
    ensures After(capacity, h).max == Some(Newest(h))
    ensures After(capacity, h).min == Some(WindowMin(capacity, h))
  {
    var r := After(capacity, h);
    assert Increasing(h);
    SlotMeaning(capacity, h, low);
    IncreasingPushes(capacity, h, low);
    CollectMeaning(r, low, high);
    if r.min.value <= low && high <= r.max.value && Range(r, low, high).Unavailable? {
      var a := Range(r, low, high).first;
      var i := a - h[0].header.sequence;
      assert h[i].header.sequence == a;
      IncreasingPushes(capacity, h, a);
      LastPushedMeaning(h, a);
      assert false;
    }
  }
}
