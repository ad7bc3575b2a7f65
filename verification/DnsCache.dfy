/** The DNS response cache: a bounded LRU whose entries expire, and the lifetimes it
    gives them. */
module DnsCache {
  import opened Prelude
  import opened DnsMessage

  const NANOS := 1_000_000_000

  type Capacity = n: nat | n >= 1 witness 1

  datatype Entry = Entry(response: Bytes, insertedAt: nat, ttl: U32)

  // Instant::elapsed saturates at zero.
  function Elapsed(e: Entry, now: nat): nat {
    if now < e.insertedAt then 0 else now - e.insertedAt
  }

  predicate Expired(e: Entry, now: nat) {
    Elapsed(e, now) >= e.ttl * NANOS
  }

  // Whole seconds left.
  function Remaining(e: Entry, now: nat): (r: U32)
    requires !Expired(e, now)
    ensures r * NANOS <= e.ttl * NANOS - Elapsed(e, now) < (r + 1) * NANOS
  {
    (e.ttl * NANOS - Elapsed(e, now)) / NANOS
  }

  /* ---- The LRU library: most recent first ---- */

  datatype Slot = Slot(key: Bytes, entry: Entry)

  function Lookup(slots: seq<Slot>, key: Bytes): Option<Entry> {
    if slots == [] then None
    else if slots[0].key == key then Some(slots[0].entry)
    else Lookup(slots[1..], key)
  }

  function Without(slots: seq<Slot>, key: Bytes): seq<Slot> {
    if slots == [] then []
    else (if slots[0].key == key then [] else [slots[0]]) + Without(slots[1..], key)
  }

  // A put promotes or inserts; into a full cache it first drops the least recent slot.
  function LruPut(slots: seq<Slot>, capacity: Capacity, key: Bytes, entry: Entry): seq<Slot>
  {
    if Lookup(slots, key).Some? then [Slot(key, entry)] + Without(slots, key)
    else if |slots| >= capacity then [Slot(key, entry)] + slots[..capacity - 1]
    else [Slot(key, entry)] + slots
  }

  // A get promotes a live entry and removes an expired one.
  function AfterGet(slots: seq<Slot>, key: Bytes, now: nat): seq<Slot> {
    match Lookup(slots, key)
    case None => slots
    case Some(e) => if Expired(e, now) then Without(slots, key) else [Slot(key, e)] + Without(slots, key)
  }

  function Hit(slots: seq<Slot>, key: Bytes, now: nat): Option<Entry> {
    match Lookup(slots, key)
    case None => None
    case Some(e) => if Expired(e, now) then None else Some(e)
  }

  /* ---- Lifetimes ---- */

  function Ttls(records: seq<Record>, withOpt: bool): seq<U32> {
    if records == [] then []
    else
      var n := |records| - 1;
      Ttls(records[..n], withOpt) + if withOpt || !records[n].isOpt then [records[n].ttl] else []
  }

  // The record TTLs that count: all answers, and additionals other than OPT.
  function Counted(m: Message): seq<U32> {
    Ttls(m.answers, true) + Ttls(m.additionals, false)
  }

  function Least(cap: U32, ttls: seq<U32>): (r: U32)
    ensures r <= cap && (forall t :: t in ttls ==> r <= t) && (r == cap || r in ttls)
  {
    if ttls == [] then cap
    else
      var before := Least(cap, ttls[..|ttls| - 1]);
      assert ttls == ttls[..|ttls| - 1] + [ttls[|ttls| - 1]];
      if ttls[|ttls| - 1] < before then ttls[|ttls| - 1] else before
  }

  lemma {:induction false} LeastOfParts(cap: U32, a: seq<U32>, b: seq<U32>)
    ensures Least(cap, a + b) == Least(Least(cap, a), b)
  {
    if b == [] {
      assert a + b == a;
    } else {
      LeastOfParts(cap, a, b[..|b| - 1]);
      assert (a + b)[..|a + b| - 1] == a + b[..|b| - 1];
    }
  }

  datatype Limits = Limits(minTtl: U32, maxTtl: U32)

  function Clamp(t: U32, l: Limits): U32
    requires l.minTtl <= l.maxTtl
  {
    if t < l.minTtl then l.minTtl else if t > l.maxTtl then l.maxTtl else t
  }

  // extract_min_ttl
  function MinTtl(codec: Codec, l: Limits, response: Bytes): U32 {
    match codec.decode(response)
    case None => l.minTtl
    case Some(m) =>
      var least := Least(l.maxTtl, Counted(m));
      if least == l.maxTtl && m.answers != [] then l.minTtl else least
  }

  function Lifetime(codec: Codec, l: Limits, response: Bytes): U32
    requires l.minTtl <= l.maxTtl
  {
    Clamp(MinTtl(codec, l, response), l)
  }

  lemma {:induction false} TtlsExactly(records: seq<Record>, withOpt: bool, t: U32)
    ensures t in Ttls(records, withOpt) <==>
            exists i :: 0 <= i < |records| && (withOpt || !records[i].isOpt) && records[i].ttl == t
  {
    if records == [] {
    } else {
      var n := |records| - 1;
      TtlsExactly(records[..n], withOpt, t);
      if t in Ttls(records, withOpt) && t !in Ttls(records[..n], withOpt) {
        assert records[n].ttl == t;
      }
    }
  }

  // An answer, or an additional record other than OPT, has this TTL.
  ghost predicate HasTtl(m: Message, t: U32) {
    || (exists i :: 0 <= i < |m.answers| && m.answers[i].ttl == t)
    || (exists i :: 0 <= i < |m.additionals| && !m.additionals[i].isOpt && m.additionals[i].ttl == t)
  }

  lemma CountedExactly(m: Message, t: U32)
    ensures t in Counted(m) <==> HasTtl(m, t)
  {
    TtlsExactly(m.answers, true, t);
    TtlsExactly(m.additionals, false, t);
  }

  // The lifetime, by the TTLs of the response: the least below the maximum, or the minimum
  // where that is more; with none below the maximum, the minimum if there are answers and
  // the maximum if there are none. What cannot be decoded is stored for the minimum.
  lemma LifetimeByTtls(codec: Codec, l: Limits, response: Bytes)
    requires l.minTtl <= l.maxTtl
    ensures var life, decoded := Lifetime(codec, l, response), codec.decode(response);
      match decoded
      case None => life == l.minTtl
      case Some(m) =>
        if exists t: U32 :: HasTtl(m, t) && t < l.maxTtl
        then exists t: U32 :: HasTtl(m, t) && t < l.maxTtl && (forall u: U32 :: HasTtl(m, u) ==> t <= u) &&
                              life == if t < l.minTtl then l.minTtl else t
        else life == if m.answers != [] then l.minTtl else l.maxTtl
  {
    if codec.decode(response).Some? {
      var m := codec.decode(response).value;
      forall t: U32 ensures t in Counted(m) <==> HasTtl(m, t) {
        CountedExactly(m, t);
      }
      var least := Least(l.maxTtl, Counted(m));
      if t: U32 :| HasTtl(m, t) && t < l.maxTtl {
        assert least <= t;
        assert HasTtl(m, least);
      }
    }
  }

  // A stored lifetime lies within the limits, and is the minimum or no longer than any
  // record that counts.
  lemma LifetimeBounds(codec: Codec, l: Limits, response: Bytes)
    requires l.minTtl <= l.maxTtl
    ensures l.minTtl <= Lifetime(codec, l, response) <= l.maxTtl
    ensures codec.decode(response).Some? ==>
              || Lifetime(codec, l, response) == l.minTtl
              || forall t :: t in Counted(codec.decode(response).value) ==> Lifetime(codec, l, response) <= t
  {
  }

  // The configuration speaks of the least counted TTL brought within the limits. That
  // is what is stored, except that a response with answers whose counted TTLs all reach
  // the maximum is stored for the minimum.
  lemma LifetimeExactly(codec: Codec, l: Limits, response: Bytes)
    requires l.minTtl <= l.maxTtl && codec.decode(response).Some?
    ensures var m := codec.decode(response).value;
            Lifetime(codec, l, response) == Clamp(Least(l.maxTtl, Counted(m)), l) <==>
            m.answers == [] || l.minTtl == l.maxTtl || exists t :: t in Counted(m) && t < l.maxTtl
  {
    var ttls := Counted(codec.decode(response).value);
    if t :| t in ttls && t < l.maxTtl {
      assert Least(l.maxTtl, ttls) <= t;
    }
  }

  lemma LeastOfOne(cap: U32, record: Record)
    ensures Ttls([record], true) == [record.ttl] && Least(cap, [record.ttl]) == if record.ttl < cap then record.ttl else cap
  {
    assert [record][..0] == [] && [record.ttl][..0] == [];
  }

  // It is so stored: one answer whose TTL reaches the maximum, and nothing else.
  lemma LongTtlStoredForMinimum(codec: Codec, l: Limits, response: Bytes, record: Record)
    requires l.minTtl < l.maxTtl <= record.ttl && codec.decode(response).Some?
    requires codec.decode(response).value.answers == [record] && codec.decode(response).value.additionals == []
    ensures Lifetime(codec, l, response) == l.minTtl < Clamp(Least(l.maxTtl, [record.ttl]), l) == l.maxTtl
    ensures Counted(codec.decode(response).value) == [record.ttl]
  {
    LeastOfOne(l.maxTtl, record);
    var m := codec.decode(response).value;
    assert Ttls(m.answers, true) == [record.ttl] && Ttls(m.additionals, false) == [];
  }

  // The seconds left never reach past the expiry of the entry, and do not rise from one
  // hit to a later one.
  lemma RewrittenTtl(e: Entry, now: nat, later: nat)
    requires e.insertedAt <= now <= later && !Expired(e, now) && !Expired(e, later)
    ensures later + Remaining(e, later) * NANOS <= e.insertedAt + e.ttl * NANOS
    ensures Remaining(e, later) <= Remaining(e, now) <= e.ttl
  {
  }

  /* ---- The cache object ---- */

  lemma TtlsStep(records: seq<Record>, i: nat, withOpt: bool)
    requires i < |records|
    ensures Ttls(records[..i + 1], withOpt) ==
            Ttls(records[..i], withOpt) + if withOpt || !records[i].isOpt then [records[i].ttl] else []
  {
    assert records[..i + 1][..i] == records[..i];
  }

  // Least, one more record at a time.
  lemma LeastStep(cap: U32, records: seq<Record>, i: nat, withOpt: bool)
    requires i < |records|
    ensures var before, ttl := Least(cap, Ttls(records[..i], withOpt)), records[i].ttl;
            Least(cap, Ttls(records[..i + 1], withOpt)) ==
            if (withOpt || !records[i].isOpt) && ttl < before then ttl else before
  {
    TtlsStep(records, i, withOpt);
    var ttls := Ttls(records[..i], withOpt);
    assert (ttls + [records[i].ttl])[..|ttls|] == ttls;
    assert ttls + [] == ttls;
  }

  lemma {:induction false} WithoutTwice(slots: seq<Slot>, key: Bytes)
    ensures Without(Without(slots, key), key) == Without(slots, key)
  {
    if slots == [] {
    } else {
      var rest := Without(slots[1..], key);
      WithoutTwice(slots[1..], key);
      if slots[0].key != key {
        assert ([slots[0]] + rest)[1..] == rest;
      } else {
        assert Without(slots, key) == rest;
      }
    }
  }

  // Popping the slot a get has just promoted.
  lemma PopPromoted(key: Bytes, entry: Entry, slots: seq<Slot>)
    ensures Without([Slot(key, entry)] + Without(slots, key), key) == Without(slots, key)
  {
    WithoutTwice(slots, key);
    assert ([Slot(key, entry)] + Without(slots, key))[1..] == Without(slots, key);
  }

  class Cache {
    const capacity: Capacity
    const limits: Limits
    const codec: Codec
    var slots: seq<Slot>

    constructor (maxEntries: nat, minTtl: U32, maxTtl: U32, codec: Codec)
      ensures capacity == (if maxEntries < 1 then 1 else maxEntries)
      ensures limits == Limits(minTtl, maxTtl) && this.codec == codec && slots == []
    {
      capacity := if maxEntries < 1 then 1 else maxEntries;
      limits := Limits(minTtl, maxTtl);
      this.codec := codec;
      slots := [];
    }

    method ExtractMinTtl(response: Bytes) returns (r: U32)
      ensures r == MinTtl(codec, limits, response)
    {
      match codec.decode(response) {
        case None =>
          r := limits.minTtl;
        case Some(m) =>
          var least := LeastOfAnswers(m.answers, limits.maxTtl);
          least := LeastOfAdditionals(m.additionals, least);
          LeastOfParts(limits.maxTtl, Ttls(m.answers, true), Ttls(m.additionals, false));
          if least == limits.maxTtl && m.answers != [] {
            r := limits.minTtl;
          } else {
            r := least;
          }
      }
    }

    method LeastOfAnswers(records: seq<Record>, start: U32) returns (least: U32)
      ensures least == Least(start, Ttls(records, true))
    {
      least := start;
      for i := 0 to |records|
        invariant least == Least(start, Ttls(records[..i], true))
      {
        LeastStep(start, records, i, true);
        if records[i].ttl < least {
          least := records[i].ttl;
        }
      }
      assert records[..|records|] == records;
    }

    method LeastOfAdditionals(records: seq<Record>, start: U32) returns (least: U32)
      ensures least == Least(start, Ttls(records, false))
    {
      least := start;
      for i := 0 to |records|
        invariant least == Least(start, Ttls(records[..i], false))
      {
        LeastStep(start, records, i, false);
        if !records[i].isOpt {
          if records[i].ttl < least {
            least := records[i].ttl;
          }
        }
      }
      assert records[..|records|] == records;
    }

    // get
    method Get(query: Message, now: nat) returns (response: Option<array<Byte>>)
      modifies this
      ensures CacheKey(codec, query).None? ==> response.None? && slots == old(slots)
      ensures CacheKey(codec, query).Some? ==>
                && slots == AfterGet(old(slots), CacheKey(codec, query).value, now)
                && (response.Some? <==> Hit(old(slots), CacheKey(codec, query).value, now).Some?)
      ensures response.Some? ==>
                && fresh(response.value)
                && var e := Hit(old(slots), CacheKey(codec, query).value, now).value;
                   response.value[..] == Adjusted(codec, e.response, Remaining(e, now))
    {
      if CacheKey(codec, query).None? {
        return None;
      }
      var key := CacheKey(codec, query).value;
      var found := Lookup(slots, key);
      if found.None? {
        return None;
      }
      var entry := found.value;
      slots := [Slot(key, entry)] + Without(slots, key);
      if Expired(entry, now) {
        PopPromoted(key, entry, old(slots));
        slots := Without(slots, key);
        return None;
      }
      var remaining := Remaining(entry, now);
      var stored := entry.response;
      var copy := new Byte[|stored|](i requires 0 <= i < |stored| => stored[i]);
      assert copy[..] == stored;
      AdjustTtls(codec, copy, remaining);
      response := Some(copy);
    }

    // put: the clamp demands ordered limits once a key exists.
    method Put(query: Message, response: Bytes, now: nat)
      requires CacheKey(codec, query).Some? ==> limits.minTtl <= limits.maxTtl
      modifies this
      ensures CacheKey(codec, query).None? ==> slots == old(slots)
      ensures CacheKey(codec, query).Some? ==>
                slots == LruPut(old(slots), capacity, CacheKey(codec, query).value,
                                Entry(response, now, Lifetime(codec, limits, response)))
    {
      if CacheKey(codec, query).None? {
        return;
      }
      var ttl := ExtractMinTtl(response);
      slots := LruPut(slots, capacity, CacheKey(codec, query).value, Entry(response, now, Clamp(ttl, limits)));
    }
  }
}
