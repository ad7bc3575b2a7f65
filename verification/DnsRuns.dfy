/** Runs of the cache: every hit is the latest put and unexpired, the size stays
    bounded, and a key touched recently enough is still there. */
module DnsRuns {
  import opened Prelude
  import opened DnsMessage
  import opened DnsCache

  datatype Op = Get(key: Bytes, now: nat) | Put(key: Bytes, entry: Entry)

  function TimeOf(op: Op): nat {
    match op
    case Get(_, now) => now
    case Put(_, entry) => entry.insertedAt
  }

  function Step(slots: seq<Slot>, capacity: Capacity, op: Op): seq<Slot> {
    match op
    case Get(key, now) => AfterGet(slots, key, now)
    case Put(key, entry) => LruPut(slots, capacity, key, entry)
  }

  function Run(ops: seq<Op>, capacity: Capacity): seq<Slot> {
    if ops == [] then [] else Step(Run(ops[..|ops| - 1], capacity), capacity, ops[|ops| - 1])
  }

  // The unbounded map the cache stands for: the latest put of every key.
  function LatestPuts(ops: seq<Op>): map<Bytes, Entry> {
    if ops == [] then map[]
    else
      var before := LatestPuts(ops[..|ops| - 1]);
      match ops[|ops| - 1]
      case Get(_, _) => before
      case Put(key, entry) => before[key := entry]
  }

  // An operation that makes a key the most recent one: a put, or a get that hits.
  predicate Touches(slots: seq<Slot>, op: Op) {
    op.Put? || Hit(slots, op.key, op.now).Some?
  }

  // The other keys touched since the last touch of the given one.
  function OthersSince(ops: seq<Op>, capacity: Capacity, key: Bytes): set<Bytes> {
    if ops == [] then {}
    else
      var n := |ops| - 1;
      var before := OthersSince(ops[..n], capacity, key);
      if !Touches(Run(ops[..n], capacity), ops[n]) then before
      else if ops[n].key == key then {}
      else before + {ops[n].key}
  }

  /* ---- The list structure ---- */

  predicate Holds(slots: seq<Slot>, key: Bytes) {
    exists i :: 0 <= i < |slots| && slots[i].key == key
  }

  predicate DistinctKeys(slots: seq<Slot>) {
    forall i, j :: 0 <= i < j < |slots| ==> slots[i].key != slots[j].key
  }

  lemma {:induction false} LookupHolds(slots: seq<Slot>, key: Bytes)
    ensures Lookup(slots, key).Some? <==> Holds(slots, key)
    ensures Lookup(slots, key).Some? ==>
              exists i :: 0 <= i < |slots| && slots[i] == Slot(key, Lookup(slots, key).value)
  {
    if slots != [] && slots[0].key != key {
      LookupHolds(slots[1..], key);
      if Lookup(slots, key).Some? {
        var i :| 0 <= i < |slots[1..]| && slots[1..][i] == Slot(key, Lookup(slots, key).value);
        assert slots[i + 1] == Slot(key, Lookup(slots, key).value);
      }
      if i :| 0 <= i < |slots| && slots[i].key == key {
        assert slots[1..][i - 1].key == key;
      }
    } else if slots != [] {
      assert slots[0] == Slot(key, Lookup(slots, key).value);
    }
  }

  lemma HoldsFirst(slots: seq<Slot>, key: Bytes)
    requires slots != []
    ensures Holds(slots, key) <==> slots[0].key == key || Holds(slots[1..], key)
  {
    if i :| 0 <= i < |slots| && slots[i].key == key {
      if i > 0 {
        assert slots[1..][i - 1].key == key;
      }
    }
  }

  lemma {:induction false} WithoutMembers(slots: seq<Slot>, key: Bytes)
    ensures forall s :: s in Without(slots, key) <==> s in slots && s.key != key
  {
    if slots == [] {
    } else {
      WithoutMembers(slots[1..], key);
      assert slots == [slots[0]] + slots[1..];
    }
  }

  lemma DistinctTail(slots: seq<Slot>)
    requires slots != [] && DistinctKeys(slots)
    ensures DistinctKeys(slots[1..]) && forall s :: s in slots[1..] ==> s.key != slots[0].key
  {
    forall s | s in slots[1..] ensures s.key != slots[0].key {
      var i :| 0 <= i < |slots[1..]| && slots[1..][i] == s;
      assert slots[i + 1] == s;
    }
  }

  lemma DistinctCons(first: Slot, rest: seq<Slot>)
    requires DistinctKeys(rest) && forall s :: s in rest ==> s.key != first.key
    ensures DistinctKeys([first] + rest)
  {
    assert forall i :: 0 <= i < |rest| ==> rest[i] in rest;
  }

  lemma NoneHeld(slots: seq<Slot>, key: Bytes)
    requires forall s :: s in slots ==> s.key != key
    ensures !Holds(slots, key)
  {
    assert forall i :: 0 <= i < |slots| ==> slots[i] in slots;
  }

  lemma {:induction false} WithoutKeeps(slots: seq<Slot>, key: Bytes)
    requires DistinctKeys(slots)
    ensures DistinctKeys(Without(slots, key)) && !Holds(Without(slots, key), key)
    ensures forall s :: s in Without(slots, key) <==> s in slots && s.key != key
    ensures |Without(slots, key)| == |slots| - if Holds(slots, key) then 1 else 0
  {
    WithoutMembers(slots, key);
    if slots == [] {
    } else {
      DistinctTail(slots);
      WithoutKeeps(slots[1..], key);
      HoldsFirst(slots, key);
      if slots[0].key == key {
        assert Without(slots, key) == Without(slots[1..], key);
        NoneHeld(slots[1..], key);
      } else {
        DistinctCons(slots[0], Without(slots[1..], key));
        HoldsFirst(Without(slots, key), key);
        assert Without(slots, key)[1..] == Without(slots[1..], key);
      }
    }
  }

  // The entry has a lifetime, and it has not ended.
  predicate Live(e: Entry, now: nat) {
    e.ttl > 0 && now < e.insertedAt + e.ttl * 1_000_000_000
  }

  lemma LiveExactly(e: Entry, now: nat)
    ensures Live(e, now) <==> !Expired(e, now)
  {
  }

  ghost predicate Refines(slots: seq<Slot>, capacity: Capacity, latest: map<Bytes, Entry>) {
    && |slots| <= capacity
    && DistinctKeys(slots)
    && forall s :: s in slots ==> s.key in latest && latest[s.key] == s.entry
  }

  lemma GetRefines(slots: seq<Slot>, capacity: Capacity, latest: map<Bytes, Entry>, key: Bytes, now: nat)
    requires Refines(slots, capacity, latest)
    ensures Refines(AfterGet(slots, key, now), capacity, latest)
  {
    LookupHolds(slots, key);
    WithoutKeeps(slots, key);
  }

  lemma PutRefines(slots: seq<Slot>, capacity: Capacity, latest: map<Bytes, Entry>, key: Bytes, entry: Entry)
    requires Refines(slots, capacity, latest)
    ensures Refines(LruPut(slots, capacity, key, entry), capacity, latest[key := entry])
  {
    LookupHolds(slots, key);
    WithoutKeeps(slots, key);
    forall s | s in slots && Lookup(slots, key).None? ensures s.key != key {
      var i :| 0 <= i < |slots| && slots[i] == s;
    }
  }

  // The cache never holds more than its capacity and never anything but latest puts.
  lemma {:induction false} RunRefines(ops: seq<Op>, capacity: Capacity)
    ensures Refines(Run(ops, capacity), capacity, LatestPuts(ops))
  {
    if ops == [] {
    } else {
      var n := |ops| - 1;
      RunRefines(ops[..n], capacity);
      var slots, latest := Run(ops[..n], capacity), LatestPuts(ops[..n]);
      match ops[n] {
        case Get(key, now) => GetRefines(slots, capacity, latest, key, now);
        case Put(key, entry) => PutRefines(slots, capacity, latest, key, entry);
      }
    }
  }

  // On every run, each hit is the latest put for its key, and unexpired.
  lemma HitIsLatest(ops: seq<Op>, capacity: Capacity, key: Bytes, now: nat)
    requires Hit(Run(ops, capacity), key, now).Some?
    ensures key in LatestPuts(ops) && Hit(Run(ops, capacity), key, now).value == LatestPuts(ops)[key]
    ensures Live(LatestPuts(ops)[key], now) && !Expired(LatestPuts(ops)[key], now)
  {
    RunRefines(ops, capacity);
    var slots := Run(ops, capacity);
    LookupHolds(slots, key);
    var i :| 0 <= i < |slots| && slots[i] == Slot(key, Lookup(slots, key).value);
    assert slots[i] in slots;
    LiveExactly(LatestPuts(ops)[key], now);
  }

  /* ---- Retention ---- */

  // The key is in the list, and every key ahead of it belongs to s.
  predicate AheadWithin(slots: seq<Slot>, key: Bytes, s: set<Bytes>) {
    slots != [] && (slots[0].key == key || (slots[0].key in s && AheadWithin(slots[1..], key, s)))
  }

  lemma {:induction false} AheadHolds(slots: seq<Slot>, key: Bytes, s: set<Bytes>)
    requires AheadWithin(slots, key, s)
    ensures Lookup(slots, key).Some?
  {
    if slots[0].key != key {
      AheadHolds(slots[1..], key, s);
    }
  }

  lemma {:induction false} AheadWidens(slots: seq<Slot>, key: Bytes, s: set<Bytes>, t: set<Bytes>)
    requires AheadWithin(slots, key, s) && s <= t
    ensures AheadWithin(slots, key, t)
  {
    if slots[0].key != key {
      AheadWidens(slots[1..], key, s, t);
    }
  }

  lemma {:induction false} AheadOfWithout(slots: seq<Slot>, key: Bytes, s: set<Bytes>, other: Bytes)
    requires AheadWithin(slots, key, s) && other != key
    ensures AheadWithin(Without(slots, other), key, s)
  {
    if slots[0].key == key {
      assert Without(slots, other)[0] == slots[0];
    } else {
      AheadOfWithout(slots[1..], key, s, other);
      if slots[0].key != other {
        assert Without(slots, other)[1..] == Without(slots[1..], other);
      } else {
        assert Without(slots, other) == Without(slots[1..], other);
      }
    }
  }

  // Keys that are not in the list play no part.
  lemma {:induction false} AheadNarrows(slots: seq<Slot>, key: Bytes, s: set<Bytes>, absent: Bytes)
    requires AheadWithin(slots, key, s) && !Holds(slots, absent)
    ensures AheadWithin(slots, key, s - {absent})
  {
    if slots[0].key != key {
      forall i | 0 <= i < |slots[1..]| ensures slots[1..][i].key != absent { assert slots[i + 1].key != absent; }
      assert slots[0].key != absent;
      AheadNarrows(slots[1..], key, s, absent);
    }
  }

  // With few enough keys ahead, dropping the last slot does not drop the key.
  lemma {:induction false} AheadSurvivesDrop(slots: seq<Slot>, key: Bytes, s: set<Bytes>)
    requires AheadWithin(slots, key, s) && DistinctKeys(slots) && |s| < |slots| - 1
    ensures AheadWithin(slots[..|slots| - 1], key, s)
  {
    if slots[0].key != key {
      var first, rest := slots[0].key, slots[1..];
      forall i | 0 <= i < |rest| ensures rest[i].key != first { assert slots[i + 1].key != first; }
      AheadNarrows(rest, key, s, first);
      AheadSurvivesDrop(rest, key, s - {first});
      AheadWidens(rest[..|rest| - 1], key, s - {first}, s);
      assert slots[..|slots| - 1][1..] == rest[..|rest| - 1];
    }
  }

  // A put of another key, with capacity left for it and the keys ahead.
  lemma PutRetains(slots: seq<Slot>, capacity: Capacity, key: Bytes, s: set<Bytes>, other: Bytes, entry: Entry)
    requires AheadWithin(slots, key, s) && other != key && DistinctKeys(slots)
    requires |slots| <= capacity && |s + {other}| < capacity
    ensures AheadWithin(LruPut(slots, capacity, other, entry), key, s + {other})
  {
    var after := LruPut(slots, capacity, other, entry);
    LookupHolds(slots, other);
    var tail := after[1..];
    if Lookup(slots, other).Some? {
      AheadOfWithout(slots, key, s, other);
      assert tail == Without(slots, other);
      AheadWidens(tail, key, s, s + {other});
    } else if |slots| >= capacity {
      AheadNarrows(slots, key, s, other);
      assert s + {other} == (s - {other}) + {other};
      AheadSurvivesDrop(slots, key, s - {other});
      assert tail == slots[..capacity - 1];
      AheadWidens(tail, key, s - {other}, s + {other});
    } else {
      assert tail == slots;
      AheadWidens(tail, key, s, s + {other});
    }
  }

  lemma GetRetains(slots: seq<Slot>, key: Bytes, s: set<Bytes>, other: Bytes, now: nat)
    requires AheadWithin(slots, key, s) && other != key
    ensures AheadWithin(AfterGet(slots, other, now), key,
                        if Hit(slots, other, now).Some? then s + {other} else s)
  {
    var after := AfterGet(slots, other, now);
    if Lookup(slots, other).Some? {
      AheadOfWithout(slots, key, s, other);
      if Hit(slots, other, now).Some? {
        assert after[1..] == Without(slots, other);
        AheadWidens(after[1..], key, s, s + {other});
      }
    }
  }

  lemma {:induction false} SubsetSize<T>(a: set<T>, b: set<T>)
    requires a <= b
    ensures |a| <= |b|
  {
    if a == {} {
    } else {
      var x :| x in a;
      SubsetSize(a - {x}, b - {x});
    }
  }

  // A present key whose latest put is live later on is a hit now.
  lemma LiveIsHit(ops: seq<Op>, capacity: Capacity, key: Bytes, now: nat, later: nat)
    requires Lookup(Run(ops, capacity), key).Some? && key in LatestPuts(ops)
    requires now <= later && !Expired(LatestPuts(ops)[key], later)
    ensures Hit(Run(ops, capacity), key, now) == Some(LatestPuts(ops)[key])
  {
    var slots := Run(ops, capacity);
    RunRefines(ops, capacity);
    LookupHolds(slots, key);
    var i :| 0 <= i < |slots| && slots[i] == Slot(key, Lookup(slots, key).value);
    assert slots[i] in slots;
  }

  // While the latest put of a key is live and fewer than capacity other keys have been
  // touched since its own last touch, only those are ahead of it.
  lemma {:induction false} Retained(ops: seq<Op>, capacity: Capacity, key: Bytes, now: nat)
    requires key in LatestPuts(ops) && !Expired(LatestPuts(ops)[key], now)
    requires forall i :: 0 <= i < |ops| ==> TimeOf(ops[i]) <= now
    requires |OthersSince(ops, capacity, key)| < capacity
    ensures AheadWithin(Run(ops, capacity), key, OthersSince(ops, capacity, key))
  {
    var n := |ops| - 1;
    var before, op, slots := ops[..n], ops[n], Run(ops[..n], capacity);
    var others := OthersSince(before, capacity, key);
    if !(op.key == key && Touches(slots, op)) {
      assert others <= OthersSince(ops, capacity, key);
      SubsetSize(others, OthersSince(ops, capacity, key));
      Retained(before, capacity, key, now);
      AheadHolds(slots, key, others);
      RunRefines(before, capacity);
      if op.key == key {
        LiveIsHit(before, capacity, key, op.now, now);
      } else if op.Put? {
        PutRetains(slots, capacity, key, others, op.key, op.entry);
      } else {
        GetRetains(slots, key, others, op.key, op.now);
      }
    }
  }

  // An unexpired key is a hit, with its latest put, whenever fewer than capacity other
  // keys were put or hit since its own last put or hit.
  lemma RecentKeyHits(ops: seq<Op>, capacity: Capacity, key: Bytes, now: nat)
    requires key in LatestPuts(ops) && Live(LatestPuts(ops)[key], now)
    requires forall i :: 0 <= i < |ops| ==> TimeOf(ops[i]) <= now
    requires |OthersSince(ops, capacity, key)| < capacity
    ensures Hit(Run(ops, capacity), key, now) == Some(LatestPuts(ops)[key])
  {
    LiveExactly(LatestPuts(ops)[key], now);
    Retained(ops, capacity, key, now);
    AheadHolds(Run(ops, capacity), key, OthersSince(ops, capacity, key));
    LiveIsHit(ops, capacity, key, now, now);
  }

  // After a get, a key is in the list exactly when the get was a hit: an expired entry is
  // removed.
  lemma ExpiredIsRemoved(ops: seq<Op>, capacity: Capacity, key: Bytes, now: nat)
    ensures Holds(Run(ops + [Get(key, now)], capacity), key) <==> Hit(Run(ops, capacity), key, now).Some?
  {
    var slots := Run(ops, capacity);
    assert (ops + [Get(key, now)])[..|ops|] == ops;
    RunRefines(ops, capacity);
    LookupHolds(slots, key);
    WithoutKeeps(slots, key);
    if Hit(slots, key, now).Some? {
      assert AfterGet(slots, key, now)[0].key == key;
    }
  }
}
