/** What the resolver stores it also serves: on every interleaved run a stored reply answers
    later queries for its key while it lives and few enough other keys have come by. */
module DohServed {
  import opened Prelude
  import opened DnsMessage
  import opened DnsCache
  import opened DnsRuns
  import opened DohResolve

  // The key of the call an event belongs to.
  function KeyOf(c: Config, events: seq<Event>, k: nat): Option<Bytes>
    requires k < |events|
  {
    match events[k]
    case Consulted(query, _) => QueryKey(c, query)
    case Completed(of, _, _) => if of < k && events[of].Consulted? then QueryKey(c, events[of].query) else None
  }

  // The keys of all events.
  function KeysOf(c: Config, events: seq<Event>): (keys: seq<Option<Bytes>>)
    ensures |keys| == |events|
  {
    seq(|events|, k requires 0 <= k < |events| => KeyOf(c, events, k))
  }

  // The other keys that came to the cache from one event to before another.
  function OtherKeys(keys: seq<Option<Bytes>>, from: nat, to: nat, key: Bytes): set<Bytes>
    requires to <= |keys|
  {
    set k | from <= k < to && keys[k].Some? && keys[k].value != key :: keys[k].value
  }

  lemma OpsOneMore(c: Config, events: seq<Event>, m: nat)
    requires c.Valid() && m < |events|
    ensures OpsOfRun(c, events[..m + 1]) == OpsOfRun(c, events[..m]) + EventOps(c, events[..m], events[m])
  {
    assert events[..m + 1][..m] == events[..m];
  }

  lemma OpKey(c: Config, events: seq<Event>, m: nat)
    requires c.Valid() && m < |events|
    ensures forall op :: op in EventOps(c, events[..m], events[m]) ==>
              KeyOf(c, events, m) == Some(op.key) && TimeOf(op) == events[m].now
  {
  }

  lemma {:induction false} OpsInTime(c: Config, events: seq<Event>, m: nat, now: nat)
    requires c.Valid() && m <= |events| && forall k :: 0 <= k < m ==> events[k].now <= now
    ensures forall i :: 0 <= i < |OpsOfRun(c, events[..m])| ==> TimeOf(OpsOfRun(c, events[..m])[i]) <= now
  {
    if m == 0 {
      assert events[..0] == [];
    } else {
      OpsInTime(c, events, m - 1, now);
      OpsOneMore(c, events, m - 1);
      OpKey(c, events, m - 1);
      var ops := EventOps(c, events[..m - 1], events[m - 1]);
      assert forall i :: 0 <= i < |ops| ==> ops[i] in ops;
    }
  }

  lemma OthersOneMore(ops: seq<Op>, more: seq<Op>, capacity: Capacity, key: Bytes, x: Bytes)
    requires |more| <= 1 && x in OthersSince(ops + more, capacity, key)
    ensures x in OthersSince(ops, capacity, key) || (|more| == 1 && x == more[0].key)
  {
    if more == [] {
      assert ops + more == ops;
    } else {
      assert (ops + more)[..|ops|] == ops && (ops + more)[|ops|] == more[0];
    }
  }

  lemma {:induction false} KeyIsNoOther(ops: seq<Op>, capacity: Capacity, key: Bytes)
    ensures key !in OthersSince(ops, capacity, key)
  {
    if ops == [] {
    } else {
      KeyIsNoOther(ops[..|ops| - 1], capacity, key);
    }
  }

  lemma NoneAtStore(c: Config, events: seq<Event>, s: nat, key: Bytes)
    requires c.Valid() && s < |events| && Stores(c, events, s, key)
    ensures OthersSince(OpsOfRun(c, events[..s + 1]), c.capacity, key) == {}
  {
    OpsOneMore(c, events, s);
    var before, more := OpsOfRun(c, events[..s]), EventOps(c, events[..s], events[s]);
    assert (before + more)[|before|] == more[0];
  }

  lemma EventOpOf(c: Config, events: seq<Event>, m: nat)
    requires c.Valid() && m < |events| && |EventOps(c, events[..m], events[m])| == 1
    ensures KeyOf(c, events, m) == Some(EventOps(c, events[..m], events[m])[0].key)
  {
  }

  // The other keys touched since a store are among those that came by.
  lemma OthersStep(c: Config, events: seq<Event>, n: nat, key: Bytes, x: Bytes)
    requires c.Valid() && n < |events| && x in OthersSince(OpsOfRun(c, events[..n + 1]), c.capacity, key)
    ensures x in OthersSince(OpsOfRun(c, events[..n]), c.capacity, key) || KeysOf(c, events)[n] == Some(x)
  {
    OpsOneMore(c, events, n);
    OthersOneMore(OpsOfRun(c, events[..n]), EventOps(c, events[..n], events[n]), c.capacity, key, x);
    if |EventOps(c, events[..n], events[n])| == 1 {
      EventOpOf(c, events, n);
    }
  }

  // The other keys touched by way of each event.
  function OthersAt(c: Config, events: seq<Event>, key: Bytes): (others: seq<set<Bytes>>)
    requires c.Valid()
    ensures |others| == |events|
  {
    seq(|events|, n requires 0 <= n < |events| => OthersSince(OpsOfRun(c, events[..n + 1]), c.capacity, key))
  }

  ghost predicate GrowByKeys(keys: seq<Option<Bytes>>, others: seq<set<Bytes>>, s: nat) {
    && s < |keys| == |others| && others[s] == {}
    && forall m, y :: s < m < |keys| && y in others[m] ==> y in others[m - 1] || keys[m] == Some(y)
  }

  // Sets that start empty and take in one key at a time hold keys taken in.
  lemma {:induction false} OthersAccumulate(keys: seq<Option<Bytes>>, others: seq<set<Bytes>>, s: nat, n: nat, x: Bytes)
    requires GrowByKeys(keys, others, s) && s <= n < |keys| && x in others[n]
    ensures exists k :: s < k <= n && keys[k] == Some(x)
    decreases n
  {
    if n > s && keys[n] != Some(x) {
      OthersAccumulate(keys, others, s, n - 1, x);
    }
  }

  lemma OthersAtIs(c: Config, events: seq<Event>, key: Bytes, n: nat)
    requires c.Valid() && n < |events|
    ensures OthersAt(c, events, key)[n] == OthersSince(OpsOfRun(c, events[..n + 1]), c.capacity, key)
  {
  }

  lemma OthersAtStep(c: Config, events: seq<Event>, key: Bytes, m: nat, y: Bytes)
    requires c.Valid() && 0 < m < |events| && y in OthersAt(c, events, key)[m]
    ensures y in OthersAt(c, events, key)[m - 1] || KeysOf(c, events)[m] == Some(y)
  {
    OthersAtIs(c, events, key, m);
    OthersAtIs(c, events, key, m - 1);
    OthersStep(c, events, m, key, y);
  }

  lemma OthersGrowByKeys(c: Config, events: seq<Event>, s: nat, key: Bytes)
    requires c.Valid() && s < |events| && OthersAt(c, events, key)[s] == {}
    ensures GrowByKeys(KeysOf(c, events), OthersAt(c, events, key), s)
  {
    var keys, others := KeysOf(c, events), OthersAt(c, events, key);
    forall m, y | s < m < |keys| && y in others[m] ensures y in others[m - 1] || keys[m] == Some(y) {
      OthersAtStep(c, events, key, m, y);
    }
  }

  lemma FewAccumulate(keys: seq<Option<Bytes>>, others: seq<set<Bytes>>, s: nat, n: nat, key: Bytes)
    requires GrowByKeys(keys, others, s) && s <= n < |keys| && key !in others[n]
    ensures |others[n]| <= |OtherKeys(keys, s + 1, n + 1, key)|
  {
    forall x | x in others[n] ensures x in OtherKeys(keys, s + 1, n + 1, key) {
      OthersAccumulate(keys, others, s, n, x);
    }
    SubsetSize(others[n], OtherKeys(keys, s + 1, n + 1, key));
  }

  lemma FewOthers(c: Config, events: seq<Event>, s: nat, n: nat, key: Bytes)
    requires c.Valid() && s < n <= |events| && Stores(c, events, s, key)
    ensures |OthersSince(OpsOfRun(c, events[..n]), c.capacity, key)| <= |OtherKeys(KeysOf(c, events), s + 1, n, key)|
  {
    NoneAtStore(c, events, s, key);
    OthersAtIs(c, events, key, s);
    OthersGrowByKeys(c, events, s, key);
    KeyIsNoOther(OpsOfRun(c, events[..n]), c.capacity, key);
    OthersAtIs(c, events, key, n - 1);
    FewAccumulate(KeysOf(c, events), OthersAt(c, events, key), s, n - 1, key);
  }

  // The latest put of a key by way of the first n events.
  function LatestBy(c: Config, events: seq<Event>, n: nat, key: Bytes): Option<Entry>
    requires c.Valid() && n <= |events|
  {
    var latest := LatestPuts(OpsOfRun(c, events[..n]));
    if key in latest then Some(latest[key]) else None
  }

  lemma StoredIsLatest(c: Config, events: seq<Event>, s: nat, n: nat, key: Bytes, e: Entry)
    requires c.Valid() && s < n <= |events| && Stores(c, events, s, key)
    requires e == EventOps(c, events[..s], events[s])[0].entry
    requires forall k :: s < k < n ==> !Stores(c, events, k, key)
    ensures LatestBy(c, events, n, key) == Some(e)
  {
    OpsOneMore(c, events, s);
    LatestAppends(OpsOfRun(c, events[..s]), EventOps(c, events[..s], events[s]));
    LatestKept(c, events, s + 1, n, key);
  }

  lemma StoredHits(c: Config, events: seq<Event>, s: nat, n: nat, key: Bytes, e: Entry)
    requires c.Valid() && ClockOrdered(events) && s < n < |events| && Stores(c, events, s, key)
    requires e == EventOps(c, events[..s], events[s])[0].entry && Live(e, events[n].now)
    requires forall k :: s < k < n ==> !Stores(c, events, k, key)
    requires |OtherKeys(KeysOf(c, events), s + 1, n, key)| < c.capacity
    ensures Hit(SlotsAfter(c, events[..n]), key, events[n].now) == Some(e)
  {
    StoredIsLatest(c, events, s, n, key, e);
    FewOthers(c, events, s, n, key);
    OpsInTime(c, events, n, events[n].now);
    RecentKeyHits(OpsOfRun(c, events[..n]), c.capacity, key, events[n].now);
    EventsAreOps(c, events[..n]);
  }

  lemma StoresExactly(c: Config, events: seq<Event>, s: nat, key: Bytes)
    requires c.Valid() && s < |events|
    ensures Stores(c, events, s, key) <==>
            events[s].Completed? && Succeeded(events[s].upstream) && KeyOf(c, events, s) == Some(key)
    ensures Stores(c, events, s, key) ==>
            EventOps(c, events[..s], events[s])[0].entry ==
            Entry(events[s].upstream.body, events[s].now, Lifetime(c.codec, c.limits, events[s].upstream.body))
  {
  }

  // A successful completion is served to every later consult for its key, as long as it lives, nothing newer is stored under the
  // key, and fewer than capacity other keys came to the cache in between.
  lemma StoredIsServed(c: Config, events: seq<Event>, s: nat, n: nat, key: Bytes, e: Entry)
    requires c.Valid() && ValidRun(c, events) && ClockOrdered(events) && s < n < |events|
    requires events[s].Completed? && Succeeded(events[s].upstream) && KeyOf(c, events, s) == Some(key)
    requires e == Entry(events[s].upstream.body, events[s].now, Lifetime(c.codec, c.limits, events[s].upstream.body))
    requires events[n].Consulted? && KeyOf(c, events, n) == Some(key) && Live(e, events[n].now)
    requires forall k :: s < k < n && events[k].Completed? && Succeeded(events[k].upstream) ==> KeyOf(c, events, k) != Some(key)
    requires |OtherKeys(KeysOf(c, events), s + 1, n, key)| < c.capacity
    ensures ServedEntry(c, events, n) == Some(e)
    ensures ReplyAt(c, events, n).Some? && ReplyAt(c, events, n).value.Answer? && ReplyAt(c, events, n).value.cached
  {
    StoresExactly(c, events, s, key);
    forall k | s < k < n ensures !Stores(c, events, k, key) {
      StoresExactly(c, events, k, key);
    }
    StoredHits(c, events, s, n, key, e);
  }
}
