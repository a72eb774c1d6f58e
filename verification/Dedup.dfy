/** The duplicate filter: a hash set over a ring of recorded keys, and the FIFO queue it refines. */
module Dedup {
  import opened Frames

  /** Consumer duplicate key. */
  datatype Key = Key(streamId: u64, publisherId: u64, sequence: u64)

  /** The last n elements. */
  function Last<T>(s: seq<T>, n: nat): (r: seq<T>)
    ensures |r| == if |s| < n then |s| else n
  {
    if |s| <= n then s else s[|s| - n..]
  }

  /** The filter as a queue, oldest key first: a key it does not hold is appended, the oldest dropped. */
  function Record(capacity: nat, recent: seq<Key>, key: Key): (bool, seq<Key>) {
    if key in recent then (true, recent) else (false, Last(recent + [key], capacity))
  }

  ghost function Elements(s: seq<Key>): set<Key> {
    set k | k in s
  }

  ghost predicate NoRepeats<T>(s: seq<T>) {
    forall i, j :: 0 <= i < j < |s| ==> s[i] != s[j]
  }

  class DuplicateFilter {
    var recentKeys: set<Key>
    var ringHistory: seq<Key>
    var head: nat
    const capacity: nat

    ghost predicate Valid()
      reads this
    {
      && 0 < capacity
      && |ringHistory| <= capacity
      && head <= |ringHistory|
      && head < capacity
      && (|ringHistory| < capacity ==> head == 0)
      && recentKeys == Elements(ringHistory)
      && NoRepeats(ringHistory)
    }

    /** The recorded keys from oldest to newest. */
    ghost function Recent(): seq<Key>
      requires Valid()
      reads this
    {
      Rotated(ringHistory, head)
    }

    constructor (capacity: nat)
      requires 0 < capacity
      ensures Valid() && Recent() == [] && this.capacity == capacity
    {
      this.capacity := capacity;
      recentKeys := {};
      ringHistory := [];
      head := 0;
    }

    method IsDuplicateAndRecord(key: Key) returns (duplicate: bool)
      requires Valid()
      modifies this
      ensures Valid()
      ensures (duplicate, Recent()) == Record(capacity, old(Recent()), key)
    {
      RotatedElements(ringHistory, head);
      duplicate := key in recentKeys;
      if !duplicate {
        if |ringHistory| < capacity {
          Grow(key);
        } else {
          Evict(key);
        }
      }
    }

    method Grow(key: Key)
      requires Valid() && key !in recentKeys && |ringHistory| < capacity
      modifies this
      ensures Valid() && Recent() == old(Recent()) + [key]
    {
      Appended(ringHistory, key);
      ringHistory := ringHistory + [key];
      recentKeys := recentKeys + {key};
    }

    /** Overwrites the oldest key of a full ring. */
    method Evict(key: Key)
      requires Valid() && key !in recentKeys && |ringHistory| == capacity
      modifies this
      ensures Valid() && Recent() == Last(old(Recent()) + [key], capacity)
    {
      hide Rotated, NoRepeats, Last;
      var oldKey := ringHistory[head];
      Replaced(ringHistory, head, key);
      Overwritten(ringHistory, head, key);
      recentKeys := recentKeys - {oldKey};
      ringHistory := ringHistory[head := key];
      recentKeys := recentKeys + {key};
      head := (head + 1) % capacity;
    }

    method Clear()
      requires Valid()
      modifies this
      ensures Valid() && Recent() == []
    {
      recentKeys := {};
      ringHistory := [];
      head := 0;
    }
  }

  /** A ring read from its head around to its head again. */
  ghost function Rotated(ring: seq<Key>, head: nat): seq<Key>
    requires head <= |ring|
  {
    ring[head..] + ring[..head]
  }

  lemma RotatedElements(ring: seq<Key>, head: nat)
    requires head <= |ring|
    ensures forall k :: k in Rotated(ring, head) <==> k in ring
  {
    assert ring == ring[..head] + ring[head..];
  }

  /** Overwriting the slot at the head and moving on drops the oldest key and appends the new one. */
  lemma Overwritten(ring: seq<Key>, head: nat, key: Key)
    requires head < |ring|
    ensures (head + 1) % |ring| <= |ring|
    ensures Rotated(ring[head := key], (head + 1) % |ring|) == Last(Rotated(ring, head) + [key], |ring|)
  {
    NextHead(head, |ring|);
    RotatedOnward(ring, head, key, (head + 1) % |ring|);
    var all := Rotated(ring, head);
    assert all + [key] == [all[0]] + (all[1..] + [key]);
    LastDropsFirst(all[0], all[1..] + [key]);
  }

  lemma NextHead(head: nat, n: nat)
    requires head < n
    ensures (head + 1) % n == if head + 1 == n then 0 else head + 1
  {}

  lemma RotatedOnward(ring: seq<Key>, head: nat, key: Key, next: nat)
    requires head < |ring| && next == if head + 1 == |ring| then 0 else head + 1
    ensures Rotated(ring[head := key], next) == Rotated(ring, head)[1..] + [key]
  {
    var ring', all := ring[head := key], Rotated(ring, head);
    assert all[1..] == ring[head + 1..] + ring[..head];
    assert ring'[..head + 1] == ring[..head] + [key];
    assert ring'[head + 1..] == ring[head + 1..];
    assert Rotated(ring', head + 1) == all[1..] + [key];
    if head + 1 == |ring| {
      assert Rotated(ring', 0) == ring' == Rotated(ring', head + 1);
    }
  }

  lemma LastDropsFirst(x: Key, s: seq<Key>)
    ensures Last([x] + s, |s|) == s
  {}

  lemma Appended(s: seq<Key>, key: Key)
    requires NoRepeats(s) && key !in s
    ensures NoRepeats(s + [key]) && Elements(s + [key]) == Elements(s) + {key}
  {}

  lemma Replaced(s: seq<Key>, i: nat, key: Key)
    requires i < |s| && NoRepeats(s) && key !in s
    ensures Elements(s[i := key]) == Elements(s) - {s[i]} + {key}
    ensures NoRepeats(s[i := key])
  {
    var t := s[i := key];
    assert t[i] == key;
    forall k | k in s && k != s[i]
      ensures k in t
    {
      var j :| 0 <= j < |s| && s[j] == k;
      assert t[j] == k;
    }
  }

  // ---------------------------------------------------------------- runs

  /** The queue after a run of calls on a fresh filter. */
  function QueueAfter(capacity: nat, calls: seq<Key>): seq<Key> {
    if |calls| == 0 then [] else
      Record(capacity, QueueAfter(capacity, calls[..|calls| - 1]), calls[|calls| - 1]).1
  }

  /** The unbounded log of recorded keys: a key is recorded when not among the last `capacity` of the log. */
  function RecordLog(capacity: nat, calls: seq<Key>): seq<Key> {
    if |calls| == 0 then [] else
      var log, key := RecordLog(capacity, calls[..|calls| - 1]), calls[|calls| - 1];
      if key in Last(log, capacity) then log else log + [key]
  }

  /** In every run the filter answers "duplicate" exactly for the last `capacity` recorded keys, held once each. */
  lemma {:induction false} FilterIsWindowOfLog(capacity: nat, calls: seq<Key>, key: Key)
    requires 0 < capacity
    ensures QueueAfter(capacity, calls) == Last(RecordLog(capacity, calls), capacity)
    ensures Record(capacity, QueueAfter(capacity, calls), key).0 <==> key in Last(RecordLog(capacity, calls), capacity)
    ensures NoRepeats(QueueAfter(capacity, calls))
    decreases |calls|
  {
    if |calls| != 0 {
      hide Last, NoRepeats;
      var before, k := calls[..|calls| - 1], calls[|calls| - 1];
      FilterIsWindowOfLog(capacity, before, k);
      var log := RecordLog(capacity, before);
      LastAppend(log, k, capacity);
      RecordKeepsDistinct(capacity, QueueAfter(capacity, before), k);
    }
  }

  lemma RecordKeepsDistinct(capacity: nat, recent: seq<Key>, key: Key)
    requires NoRepeats(recent)
    ensures NoRepeats(Record(capacity, recent, key).1)
  {
    if key !in recent {
      Appended(recent, key);
    }
  }

  lemma LastAppend<T>(s: seq<T>, x: T, n: nat)
    requires 0 < n
    ensures Last(Last(s, n) + [x], n) == Last(s + [x], n)
  {}
}
