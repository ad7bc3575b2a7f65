/** The resolver: consult the cache, ask upstream on a miss, store the reply, and put
    the caller's ID on whatever goes back. Between the consult and the store a call waits
    for its upstream, and other calls use the same cache. */
module DohResolve {
  import opened Prelude
  import opened DnsMessage
  import opened DnsCache
  import opened DnsRuns

  // What the HTTP exchange with the upstream server gave.
  datatype Upstream = Failed | Replied(status: nat, body: Bytes)

  predicate Succeeded(u: Upstream) {
    u.Replied? && 200 <= u.status < 300
  }

  datatype Reply = Error | Answer(response: Bytes, cached: bool)

  datatype Config = Config(capacity: Capacity, limits: Limits, codec: Codec) {
    predicate Valid() { limits.minTtl <= limits.maxTtl }
  }

  /* ---- The two halves of a call ---- */

  function QueryKey(c: Config, query: Bytes): Option<Bytes> {
    match c.codec.decode(query)
    case None => None
    case Some(m) => CacheKey(c.codec, m)
  }

  function CachedEntry(c: Config, slots: seq<Slot>, m: Message, now: nat): Option<Entry> {
    match CacheKey(c.codec, m)
    case None => None
    case Some(key) => Hit(slots, key, now)
  }

  // The reply before any exchange, or None when upstream has to be asked.
  function ConsultReply(c: Config, slots: seq<Slot>, query: Bytes, now: nat): Option<Reply> {
    match c.codec.decode(query)
    case None => Some(Error)
    case Some(m) =>
      match CachedEntry(c, slots, m, now)
      case None => None
      case Some(e) =>
        assert !Expired(e, now);
        Some(Answer(WithId(Adjusted(c.codec, e.response, Remaining(e, now)), m.id), true))
  }

  // The cache operations of the two halves.
  function ConsultOps(c: Config, query: Bytes, now: nat): (ops: seq<Op>)
    ensures |ops| <= 1
  {
    match QueryKey(c, query)
    case None => []
    case Some(key) => [Get(key, now)]
  }

  function CompleteReply(m: Message, upstream: Upstream): Reply {
    if Succeeded(upstream) then Answer(WithId(upstream.body, m.id), false) else Error
  }

  function CompleteOps(c: Config, query: Bytes, upstream: Upstream, now: nat): (ops: seq<Op>)
    requires c.Valid()
    ensures |ops| <= 1
  {
    match QueryKey(c, query)
    case None => []
    case Some(key) =>
      if Succeeded(upstream)
      then [Put(key, Entry(upstream.body, now, Lifetime(c.codec, c.limits, upstream.body)))]
      else []
  }

  function AfterOps(c: Config, slots: seq<Slot>, ops: seq<Op>): seq<Slot> {
    if ops == [] then slots
    else Step(AfterOps(c, slots, ops[..|ops| - 1]), c.capacity, ops[|ops| - 1])
  }

  lemma AfterOne(c: Config, slots: seq<Slot>, op: Op)
    ensures AfterOps(c, slots, [op]) == Step(slots, c.capacity, op)
  {
    assert [op][..0] == [];
  }

  function ConfigOf(cache: Cache): Config {
    Config(cache.capacity, cache.limits, cache.codec)
  }

  // resolve, up to the exchange with upstream.
  method Consult(cache: Cache, query: Bytes, now: nat) returns (reply: Option<Reply>)
    modifies cache
    ensures reply == ConsultReply(ConfigOf(cache), old(cache.slots), query, now)
    ensures cache.slots == AfterOps(ConfigOf(cache), old(cache.slots), ConsultOps(ConfigOf(cache), query, now))
  {
    var decoded := cache.codec.decode(query);
    if decoded.None? {
      return Some(Error);
    }
    var m := decoded.value;
    if CacheKey(cache.codec, m).Some? {
      AfterOne(ConfigOf(cache), cache.slots, Get(CacheKey(cache.codec, m).value, now));
    }
    var hit := cache.Get(m, now);
    if hit.Some? {
      var response := hit.value;
      RewriteId(response, m.id);
      return Some(Answer(response[..], true));
    }
    return None;
  }

  // resolve, from there on.
  method Complete(cache: Cache, query: Bytes, upstream: Upstream, now: nat) returns (reply: Reply)
    requires cache.limits.minTtl <= cache.limits.maxTtl && cache.codec.decode(query).Some?
    modifies cache
    ensures reply == CompleteReply(cache.codec.decode(query).value, upstream)
    ensures cache.slots == AfterOps(ConfigOf(cache), old(cache.slots), CompleteOps(ConfigOf(cache), query, upstream, now))
  {
    if !Succeeded(upstream) {
      return Error;
    }
    var m, body := cache.codec.decode(query).value, upstream.body;
    if CacheKey(cache.codec, m).Some? {
      AfterOne(ConfigOf(cache), cache.slots,
               Put(CacheKey(cache.codec, m).value, Entry(body, now, Lifetime(cache.codec, cache.limits, body))));
    }
    cache.Put(m, body, now);
    var result := new Byte[|body|](i requires 0 <= i < |body| => body[i]);
    assert result[..] == body;
    RewriteId(result, m.id);
    reply := Answer(result[..], false);
  }

  // resolve. While it waits for upstream, other calls do to the cache what they do.
  method Resolve(cache: Cache, query: Bytes, getAt: nat, others: seq<Op>, upstream: Upstream, putAt: nat) returns (reply: Reply)
    requires cache.limits.minTtl <= cache.limits.maxTtl
    modifies cache
    ensures var c, was := ConfigOf(cache), old(cache.slots);
            var first, consulted := ConsultReply(c, was, query, getAt), AfterOps(c, was, ConsultOps(c, query, getAt));
            match first
            case Some(r) => reply == r && cache.slots == consulted
            case None =>
              && c.codec.decode(query).Some?
              && reply == CompleteReply(c.codec.decode(query).value, upstream)
              && cache.slots == AfterOps(c, AfterOps(c, consulted, others), CompleteOps(c, query, upstream, putAt))
  {
    var first := Consult(cache, query, getAt);
    if first.Some? {
      return first.value;
    }
    cache.slots := AfterOps(ConfigOf(cache), cache.slots, others);
    reply := Complete(cache, query, upstream, putAt);
  }

  /* ---- Runs of interleaved calls against one cache ---- */

  // Completions refer to the event at which their call consulted the cache.
  datatype Event = Consulted(query: Bytes, now: nat) | Completed(of: nat, upstream: Upstream, now: nat)

  function EventOps(c: Config, before: seq<Event>, e: Event): (ops: seq<Op>)
    requires c.Valid()
    ensures |ops| <= 1
  {
    match e
    case Consulted(query, now) => ConsultOps(c, query, now)
    case Completed(of, upstream, now) =>
      if of < |before| && before[of].Consulted? then CompleteOps(c, before[of].query, upstream, now) else []
  }

  // The cache operations of a run, in the order the calls come to the cache.
  function OpsOfRun(c: Config, events: seq<Event>): seq<Op>
    requires c.Valid()
  {
    if events == [] then []
    else
      var n := |events| - 1;
      OpsOfRun(c, events[..n]) + EventOps(c, events[..n], events[n])
  }

  function SlotsAfter(c: Config, events: seq<Event>): seq<Slot>
    requires c.Valid()
  {
    if events == [] then []
    else
      var n := |events| - 1;
      AfterOps(c, SlotsAfter(c, events[..n]), EventOps(c, events[..n], events[n]))
  }

  // What the n-th event answers at once, if it is a consult.
  function ConsultAt(c: Config, events: seq<Event>, n: nat): Option<Reply>
    requires c.Valid() && n < |events| && events[n].Consulted?
  {
    ConsultReply(c, SlotsAfter(c, events[..n]), events[n].query, events[n].now)
  }

  // The consult a completion belongs to asked upstream.
  predicate Waiting(c: Config, events: seq<Event>, of: nat)
    requires c.Valid()
  {
    of < |events| && events[of].Consulted? && ConsultAt(c, events, of).None?
  }

  // Only calls that asked upstream complete, each at most once.
  ghost predicate ValidRun(c: Config, events: seq<Event>)
    requires c.Valid()
  {
    && (forall n :: 0 <= n < |events| && events[n].Completed? ==>
          events[n].of < n && Waiting(c, events, events[n].of))
    && (forall i, j :: 0 <= i < j < |events| && events[i].Completed? && events[j].Completed? ==>
          events[i].of != events[j].of)
  }

  // The query of the call an event belongs to.
  function QueryOf(events: seq<Event>, n: nat): Bytes
    requires n < |events| && (events[n].Completed? ==> events[n].of < |events| && events[events[n].of].Consulted?)
  {
    if events[n].Consulted? then events[n].query else events[events[n].of].query
  }

  lemma WaitingDecodes(c: Config, events: seq<Event>, of: nat)
    requires c.Valid() && Waiting(c, events, of)
    ensures c.codec.decode(events[of].query).Some?
  {
  }

  // The reply of the n-th event, if it brings its call to an end.
  function ReplyAt(c: Config, events: seq<Event>, n: nat): Option<Reply>
    requires c.Valid() && ValidRun(c, events) && n < |events|
  {
    match events[n]
    case Consulted(_, _) => ConsultAt(c, events, n)
    case Completed(of, upstream, _) =>
      WaitingDecodes(c, events, of);
      Some(CompleteReply(c.codec.decode(events[of].query).value, upstream))
  }

  lemma {:induction false} RunAppends(c: Config, before: seq<Op>, ops: seq<Op>)
    ensures Run(before + ops, c.capacity) == AfterOps(c, Run(before, c.capacity), ops)
  {
    if ops == [] {
      assert before + ops == before;
    } else {
      var n := |ops| - 1;
      RunAppends(c, before, ops[..n]);
      assert (before + ops)[..|before + ops| - 1] == before + ops[..n];
    }
  }

  // A run of interleaved calls is a run of cache operations, so what holds of those
  // holds here.
  lemma {:induction false} EventsAreOps(c: Config, events: seq<Event>)
    requires c.Valid()
    ensures SlotsAfter(c, events) == Run(OpsOfRun(c, events), c.capacity)
  {
    if events == [] {
    } else {
      var n := |events| - 1;
      EventsAreOps(c, events[..n]);
      RunAppends(c, OpsOfRun(c, events[..n]), EventOps(c, events[..n], events[n]));
    }
  }

  /* ---- Where replies come from ---- */

  // The i-th event stored this entry: an upstream answer to a query with this key.
  predicate Fetched(c: Config, events: seq<Event>, i: nat, key: Bytes, e: Entry)
    requires c.Valid()
  {
    && i < |events| && events[i].Completed? && Succeeded(events[i].upstream)
    && events[i].of < i && events[events[i].of].Consulted?
    && QueryKey(c, events[events[i].of].query) == Some(key)
    && e == Entry(events[i].upstream.body, events[i].now, Lifetime(c.codec, c.limits, events[i].upstream.body))
  }

  lemma LatestAppends(before: seq<Op>, ops: seq<Op>)
    requires |ops| <= 1
    ensures LatestPuts(before + ops) ==
            if |ops| == 1 && ops[0].Put? then LatestPuts(before)[ops[0].key := ops[0].entry] else LatestPuts(before)
  {
    if |ops| == 1 {
      assert (before + ops)[..|before|] == before;
    } else {
      assert before + ops == before;
    }
  }

  lemma PutIsFetched(c: Config, events: seq<Event>, key: Bytes)
    requires c.Valid() && events != []
    requires var n := |events| - 1;
             var ops := EventOps(c, events[..n], events[n]);
             |ops| == 1 && ops[0].Put? && ops[0].key == key
    ensures var n := |events| - 1;
            Fetched(c, events, n, key, EventOps(c, events[..n], events[n])[0].entry)
  {
  }

  lemma FetchedLater(c: Config, events: seq<Event>, n: nat, i: nat, key: Bytes, e: Entry)
    requires c.Valid() && n <= |events| && Fetched(c, events[..n], i, key, e)
    ensures Fetched(c, events, i, key, e)
  {
    assert events[..n][i] == events[i];
  }

  lemma {:induction false} PutsWereFetched(c: Config, events: seq<Event>, key: Bytes) returns (i: nat)
    requires c.Valid() && key in LatestPuts(OpsOfRun(c, events))
    ensures Fetched(c, events, i, key, LatestPuts(OpsOfRun(c, events))[key])
  {
    var n := |events| - 1;
    var before, ops := OpsOfRun(c, events[..n]), EventOps(c, events[..n], events[n]);
    LatestAppends(before, ops);
    if |ops| == 1 && ops[0].Put? && ops[0].key == key {
      i := n;
      PutIsFetched(c, events, key);
    } else {
      i := PutsWereFetched(c, events[..n], key);
      FetchedLater(c, events, n, i, key, LatestPuts(before)[key]);
    }
  }

  // The entry a consult is served from, if any.
  function ServedEntry(c: Config, events: seq<Event>, n: nat): Option<Entry>
    requires c.Valid() && n < |events| && events[n].Consulted?
  {
    match c.codec.decode(events[n].query)
    case None => None
    case Some(m) => CachedEntry(c, SlotsAfter(c, events[..n]), m, events[n].now)
  }

  // Re-encoding under the new TTLs succeeds and keeps the length, so that the rewritten
  // bytes are taken.
  predicate RewriteTakes(codec: Codec, body: Bytes, ttl: U32) {
    && codec.decode(body).Some?
    && var m := codec.decode(body).value;
       var bytes := codec.encode(m.(answers := SetTtls(m.answers, ttl)));
       bytes.Some? && |bytes.value| == |body|
  }

  // Of one length, and equal but for the first two bytes; shorter than that, equal.
  predicate SameFromThird(r: Bytes, body: Bytes) {
    |r| == |body| && (if |r| >= 2 then r[2..] == body[2..] else r == body)
  }

  // A reply made of a live entry: its body, through the rewriting of TTLs to the seconds it
  // has left, which end no later than its lifetime.
  ghost predicate ComesFrom(c: Config, r: Bytes, id: U16, now: nat, e: Entry) {
    && !Expired(e, now)
    && r == WithId(Adjusted(c.codec, e.response, Remaining(e, now)), id)
    && Remaining(e, now) <= e.ttl
    && (e.insertedAt <= now ==> now + Remaining(e, now) * NANOS <= e.insertedAt + e.ttl * NANOS)
  }

  lemma WithIdBytes(body: Bytes, id: U16)
    ensures var r := WithId(body, id);
            SameFromThird(r, body) && (|r| >= 2 ==> 0x100 * (r[0] as int) + r[1] as int == id)
  {
    var r := WithId(body, id);
    if |body| >= 2 {
      assert r[..2] == BigEndian(id) && r[2..] == body[2..];
    }
  }

  lemma UntakenKept(codec: Codec, body: Bytes, ttl: U32)
    requires !RewriteTakes(codec, body, ttl)
    ensures Adjusted(codec, body, ttl) == body
  {
  }

  // The entry a cached reply is served from, and the event that stored it.
  lemma ServedFrom(c: Config, events: seq<Event>, n: nat) returns (e: Entry, s: nat)
    requires c.Valid() && n < |events| && events[n].Consulted?
    requires ConsultAt(c, events, n).Some? && ConsultAt(c, events, n).value.Answer?
    ensures var m := c.codec.decode(events[n].query).value;
      && ServedEntry(c, events, n) == Some(e) && !Expired(e, events[n].now)
      && s < n && CacheKey(c.codec, m).Some? && Fetched(c, events, s, CacheKey(c.codec, m).value, e)
      && ConsultAt(c, events, n).value == Answer(WithId(Adjusted(c.codec, e.response, Remaining(e, events[n].now)), m.id), true)
  {
    var m, now := c.codec.decode(events[n].query).value, events[n].now;
    var key := CacheKey(c.codec, m).value;
    EventsAreOps(c, events[..n]);
    e := ServedEntry(c, events, n).value;
    HitIsLatest(OpsOfRun(c, events[..n]), c.capacity, key, now);
    s := PutsWereFetched(c, events[..n], key);
    FetchedLater(c, events, n, s, key, e);
  }

  // On every interleaved run, each reply of two or more bytes carries its caller's ID, high
  // byte first. A fresh one is the upstream body of its own call under that ID; a cached
  // one comes from the upstream body of an earlier completion with the same key.
  lemma ReplyIsUpstreams(c: Config, events: seq<Event>, n: nat) returns (s: nat, e: Entry)
    requires c.Valid() && ValidRun(c, events) && n < |events|
    requires ReplyAt(c, events, n).Some? && ReplyAt(c, events, n).value.Answer?
    ensures var Answer(r, cached) := ReplyAt(c, events, n).value;
      var query := c.codec.decode(QueryOf(events, n));
      && query.Some?
      && (|r| >= 2 ==> 0x100 * (r[0] as int) + r[1] as int == query.value.id)
      && (!cached ==> events[n].Completed? && Succeeded(events[n].upstream) && SameFromThird(r, events[n].upstream.body))
      && (cached ==> events[n].Consulted? && s < n && CacheKey(c.codec, query.value).Some?
                     && ServedEntry(c, events, n) == Some(e)
                     && Fetched(c, events, s, CacheKey(c.codec, query.value).value, e)
                     && ComesFrom(c, r, query.value.id, events[n].now, e)
                     && |r| == |e.response|
                     && (!RewriteTakes(c.codec, e.response, Remaining(e, events[n].now)) ==> SameFromThird(r, e.response)))
  {
    s, e := 0, Entry([], 0, 0);
    if events[n].Completed? {
      WaitingDecodes(c, events, events[n].of);
      WithIdBytes(events[n].upstream.body, c.codec.decode(QueryOf(events, n)).value.id);
    } else {
      e, s := ServedFrom(c, events, n);
      var ttl := Remaining(e, events[n].now);
      WithIdBytes(Adjusted(c.codec, e.response, ttl), c.codec.decode(events[n].query).value.id);
      if !RewriteTakes(c.codec, e.response, ttl) {
        UntakenKept(c.codec, e.response, ttl);
      }
    }
  }

  // A consult fails exactly when its query cannot be decoded; a completion fails exactly
  // when upstream did not reply with a status from 200 to 299.
  lemma FailsExactlyWhen(c: Config, events: seq<Event>, n: nat)
    requires c.Valid() && ValidRun(c, events) && n < |events|
    ensures ReplyAt(c, events, n) == Some(Error) <==>
            match events[n]
            case Consulted(query, _) => c.codec.decode(query).None?
            case Completed(_, upstream, _) => upstream.Failed? || upstream.status < 200 || upstream.status > 299
  {
  }

  // The k-th event stores something under the key.
  predicate Stores(c: Config, events: seq<Event>, k: nat, key: Bytes)
    requires c.Valid() && k < |events|
  {
    var ops := EventOps(c, events[..k], events[k]);
    |ops| == 1 && ops[0].Put? && ops[0].key == key
  }

  lemma {:induction false} LatestKept(c: Config, events: seq<Event>, m: nat, n: nat, key: Bytes)
    requires c.Valid() && m <= n <= |events| && forall k :: m <= k < n ==> !Stores(c, events, k, key)
    ensures var first, second := LatestPuts(OpsOfRun(c, events[..m])), LatestPuts(OpsOfRun(c, events[..n]));
            (key in first <==> key in second) && (key in first ==> first[key] == second[key])
    decreases n
  {
    if m == n {
    } else {
      LatestKept(c, events, m, n - 1, key);
      assert events[..n][..n - 1] == events[..n - 1];
      LatestAppends(OpsOfRun(c, events[..n - 1]), EventOps(c, events[..n - 1], events[n - 1]));
      assert !Stores(c, events, n - 1, key);
    }
  }

  // Two hits on one key, with nothing stored under it between them, are served from the
  // same entry.
  lemma SameEntryServed(c: Config, events: seq<Event>, m: nat, n: nat, key: Bytes)
    requires c.Valid() && m < n < |events| && events[m].Consulted? && events[n].Consulted?
    requires QueryKey(c, events[m].query) == Some(key) == QueryKey(c, events[n].query)
    requires ServedEntry(c, events, m).Some? && ServedEntry(c, events, n).Some?
    requires forall k :: m <= k < n ==> !Stores(c, events, k, key)
    ensures ServedEntry(c, events, m) == ServedEntry(c, events, n)
  {
    EventsAreOps(c, events[..m]);
    EventsAreOps(c, events[..n]);
    HitIsLatest(OpsOfRun(c, events[..m]), c.capacity, key, events[m].now);
    HitIsLatest(OpsOfRun(c, events[..n]), c.capacity, key, events[n].now);
    LatestKept(c, events, m, n, key);
  }

  /* ---- The same, read as messages ---- */

  // What a wire codec guarantees: encoding is undone by decoding, and the ID sits in the
  // first two bytes (section 4.1.1 of RFC 1035).
  ghost predicate Lawful(codec: Codec) {
    && (forall m, b :: codec.encode(m) == Some(b) ==> codec.decode(b) == Some(m))
    && (forall b, id: U16 :: |b| >= 2 && codec.decode(b).Some? ==>
          codec.decode(WithId(b, id)) == Some(codec.decode(b).value.(id := id)))
  }

  // The answers a caller sees: rewritten ones where the rewriting takes, else the
  // upstream's own.
  function SeenAnswers(codec: Codec, body: Bytes, ttl: U32): seq<Record>
    requires codec.decode(body).Some?
  {
    var answers := codec.decode(body).value.answers;
    if RewriteTakes(codec, body, ttl) then SetTtls(answers, ttl) else answers
  }

  // As many as upstream's, each with its own data, and with the seconds left as TTL where the
  // rewriting takes and its own elsewhere.
  predicate AnswersSeen(answers: seq<Record>, seen: seq<Record>, ttl: U32, takes: bool) {
    && |seen| == |answers|
    && forall i :: 0 <= i < |seen| ==>
         && seen[i].data == answers[i].data && seen[i].isOpt == answers[i].isOpt
         && seen[i].ttl == if takes then ttl else answers[i].ttl
  }

  // The rewriting takes exactly when the message with those answers encodes to as many bytes.
  lemma TakesExactly(codec: Codec, body: Bytes, ttl: U32)
    requires codec.decode(body).Some?
    ensures var m := codec.decode(body).value;
            RewriteTakes(codec, body, ttl) <==>
            exists answers :: AnswersSeen(m.answers, answers, ttl, true) &&
              var bytes := codec.encode(m.(answers := answers)); bytes.Some? && |bytes.value| == |body|
  {
    var m := codec.decode(body).value;
    assert AnswersSeen(m.answers, SetTtls(m.answers, ttl), ttl, true);
    forall answers | AnswersSeen(m.answers, answers, ttl, true) ensures answers == SetTtls(m.answers, ttl) {
    }
  }

  // Decoded, a cached reply is the upstream message under the caller's ID and with the
  // answers seen, and nothing else changed.
  lemma CachedReplyMessage(codec: Codec, body: Bytes, ttl: U32, id: U16)
    requires Lawful(codec) && codec.decode(body).Some? && |body| >= 2
    ensures codec.decode(WithId(Adjusted(codec, body, ttl), id)) ==
            Some(codec.decode(body).value.(id := id, answers := SeenAnswers(codec, body, ttl)))
    ensures AnswersSeen(codec.decode(body).value.answers, SeenAnswers(codec, body, ttl), ttl, RewriteTakes(codec, body, ttl))
  {
    var m, adjusted := codec.decode(body).value, Adjusted(codec, body, ttl);
    assert codec.decode(adjusted) == Some(m.(answers := SeenAnswers(codec, body, ttl)));
    assert codec.decode(WithId(adjusted, id)) == Some(codec.decode(adjusted).value.(id := id));
  }

  predicate AllHaveTtl(records: seq<Record>, ttl: U32) {
    forall i :: 0 <= i < |records| ==> records[i].ttl == ttl
  }

  // No TTL of the records reaches past the given time.
  predicate NoneOutlives(records: seq<Record>, now: nat, end: nat) {
    forall i :: 0 <= i < |records| ==> now + records[i].ttl * NANOS <= end
  }

  // The TTLs a caller sees are the seconds left, and end with the entry, exactly when the
  // rewriting takes or the upstream's own TTLs already did.
  lemma SeenTtlsExactly(codec: Codec, body: Bytes, ttl: U32, now: nat, end: nat)
    requires codec.decode(body).Some? && now + ttl * NANOS <= end
    ensures var answers, seen := codec.decode(body).value.answers, SeenAnswers(codec, body, ttl);
      && (AllHaveTtl(seen, ttl) <==> RewriteTakes(codec, body, ttl) || AllHaveTtl(answers, ttl))
      && (NoneOutlives(seen, now, end) <==> RewriteTakes(codec, body, ttl) || NoneOutlives(answers, now, end))
  {
  }

  // Additional records other than OPT, whose TTLs are never rewritten.
  predicate AdditionalsEnd(records: seq<Record>, now: nat, end: nat) {
    forall i :: 0 <= i < |records| && !records[i].isOpt ==> now + records[i].ttl * NANOS <= end
  }

  lemma {:induction false} AdditionalCounts(records: seq<Record>, i: nat)
    requires i < |records| && !records[i].isOpt
    ensures records[i].ttl in Ttls(records, false)
  {
    var n := |records| - 1;
    if i < n {
      AdditionalCounts(records[..n], i);
    }
  }

  // Unless the lifetime was raised to the minimum it is no longer than any TTL that counts.
  // Then, at any moment after the storing, every additional record reaches past the end of
  // the entry; at that moment it does unless its TTL is the lifetime.
  lemma AdditionalsEndExactly(codec: Codec, e: Entry, now: nat)
    requires codec.decode(e.response).Some? && e.insertedAt <= now
    requires forall t :: t in Counted(codec.decode(e.response).value) ==> e.ttl <= t
    ensures var records, end := codec.decode(e.response).value.additionals, e.insertedAt + e.ttl * NANOS;
            AdditionalsEnd(records, now, end) <==>
            forall i :: 0 <= i < |records| && !records[i].isOpt ==> now == e.insertedAt && records[i].ttl == e.ttl
  {
    var records := codec.decode(e.response).value.additionals;
    forall i | 0 <= i < |records| && !records[i].isOpt ensures e.ttl <= records[i].ttl {
      AdditionalCounts(records, i);
      assert records[i].ttl in Counted(codec.decode(e.response).value);
    }
  }

  // So on every interleaved run, with a lawful codec, what a cached reply decodes to is the
  // stored message under the caller's ID. Its answers' TTLs end with the entry exactly when
  // the rewriting takes or they already did; all its TTLs, exactly when the additional
  // records' also did.
  lemma CachedReplyOnRuns(c: Config, events: seq<Event>, n: nat) returns (s: nat, e: Entry)
    requires c.Valid() && ValidRun(c, events) && n < |events|
    requires ReplyAt(c, events, n).Some? && ReplyAt(c, events, n).value.Answer?
    ensures var Answer(r, cached) := ReplyAt(c, events, n).value;
      var query := c.codec.decode(QueryOf(events, n));
      && query.Some?
      && (cached ==> s < n && CacheKey(c.codec, query.value).Some? && Fetched(c, events, s, CacheKey(c.codec, query.value).value, e)
                     && events[n].Consulted? && ServedEntry(c, events, n) == Some(e) && !Expired(e, events[n].now))
      && (cached && |r| >= 2 && Lawful(c.codec) && c.codec.decode(e.response).Some? ==>
           var up, now, end := c.codec.decode(e.response).value, events[n].now, e.insertedAt + e.ttl * NANOS;
           var answers, takes := SeenAnswers(c.codec, e.response, Remaining(e, now)), RewriteTakes(c.codec, e.response, Remaining(e, now));
           && c.codec.decode(r).Some? && AnswersSeen(up.answers, c.codec.decode(r).value.answers, Remaining(e, now), takes)
           && c.codec.decode(r) == Some(up.(id := query.value.id, answers := answers))
           && (e.insertedAt <= now ==>
                && (NoneOutlives(answers, now, end) <==> takes || NoneOutlives(up.answers, now, end))
                && (NoneOutlives(answers, now, end) && AdditionalsEnd(c.codec.decode(r).value.additionals, now, end) <==>
                    (takes || NoneOutlives(up.answers, now, end)) && AdditionalsEnd(up.additionals, now, end))))
  {
    s, e := ReplyIsUpstreams(c, events, n);
    var reply := ReplyAt(c, events, n).value;
    if reply.cached && |reply.response| >= 2 && Lawful(c.codec) && c.codec.decode(e.response).Some? {
      var now, end := events[n].now, e.insertedAt + e.ttl * NANOS;
      CachedReplyMessage(c.codec, e.response, Remaining(e, now), c.codec.decode(QueryOf(events, n)).value.id);
      if e.insertedAt <= now {
        SeenTtlsExactly(c.codec, e.response, Remaining(e, now), now, end);
      }
    }
  }

  // TTLs are fixed 32-bit fields (section 3.2.1 of RFC 1035): whether a rewriting takes
  // does not depend on the number.
  ghost predicate FixedWidth(codec: Codec) {
    forall body, s: U32, t: U32 :: RewriteTakes(codec, body, s) ==> RewriteTakes(codec, body, t)
  }

  predicate NoneRises(first: seq<Record>, second: seq<Record>) {
    |first| == |second| && forall i :: 0 <= i < |first| ==> second[i].ttl <= first[i].ttl
  }

  // Then the TTLs seen do not rise from one hit on an entry to a later one.
  lemma SeenTtlsNeverRise(codec: Codec, e: Entry, now: nat, later: nat)
    requires FixedWidth(codec) && codec.decode(e.response).Some?
    requires e.insertedAt <= now <= later && !Expired(e, now) && !Expired(e, later)
    ensures NoneRises(SeenAnswers(codec, e.response, Remaining(e, now)), SeenAnswers(codec, e.response, Remaining(e, later)))
  {
    RewrittenTtl(e, now, later);
    assert RewriteTakes(codec, e.response, Remaining(e, now)) <==> RewriteTakes(codec, e.response, Remaining(e, later));
  }

  ghost predicate ClockOrdered(events: seq<Event>) {
    forall i, j :: 0 <= i < j < |events| ==> events[i].now <= events[j].now
  }

  // The reply of the n-th event is cached and long enough to carry an ID.
  predicate CachedAt(c: Config, events: seq<Event>, n: nat)
    requires c.Valid() && n < |events|
  {
    events[n].Consulted? && ConsultAt(c, events, n).Some? &&
    match ConsultAt(c, events, n).value case Error => false case Answer(r, cached) => cached && |r| >= 2
  }

  // Of two cached replies of a run for one key, with nothing stored under it between them,
  // the later decodes to answers of no greater TTL.
  lemma RepliesNeverRise(c: Config, events: seq<Event>, m: nat, n: nat, key: Bytes)
    requires c.Valid() && ValidRun(c, events) && ClockOrdered(events) && m < n < |events|
    requires CachedAt(c, events, m) && CachedAt(c, events, n)
    requires QueryKey(c, events[m].query) == Some(key) == QueryKey(c, events[n].query)
    requires forall k :: m <= k < n ==> !Stores(c, events, k, key)
    ensures Lawful(c.codec) && FixedWidth(c.codec) && c.codec.decode(ServedEntry(c, events, m).value.response).Some? ==>
      var first, second := c.codec.decode(ConsultAt(c, events, m).value.response), c.codec.decode(ConsultAt(c, events, n).value.response);
      first.Some? && second.Some? && NoneRises(first.value.answers, second.value.answers)
  {
    var s, e := CachedReplyOnRuns(c, events, m);
    var s', e' := CachedReplyOnRuns(c, events, n);
    SameEntryServed(c, events, m, n, key);
    if Lawful(c.codec) && FixedWidth(c.codec) && c.codec.decode(e.response).Some? {
      SeenTtlsNeverRise(c.codec, e, events[m].now, events[n].now);
    }
  }

  /* ---- TTLs that reach past the end ---- */

  const HOUR: U16 := 3600
  const DAY: U32 := 86400

  function U16Of(high: Byte, low: Byte): U16 {
    0x100 * (high as int) + low as int
  }

  lemma BigEndianRead(n: U16)
    ensures U16Of(BigEndian(n)[0], BigEndian(n)[1]) == n
  {
  }

  lemma BigEndianWritten(high: Byte, low: Byte)
    ensures BigEndian(U16Of(high, low)) == [high, low]
  {
  }

  // One question, one answer, and an additional record of an hour.
  function SmallMessage(id: U16, ttl: U16): Message {
    Message(id, [Query([], 1, 1)], [Record(ttl, false, [])], [Record(HOUR, false, [])], [])
  }

  // Such messages on the wire: the ID and the answer's TTL. Encoding compresses; a fifth
  // byte is what an uncompressed name would take.
  function Compressed(id: U16, ttl: U16): (b: Bytes)
    ensures |b| == 4
  {
    BigEndian(id) + BigEndian(ttl)
  }

  function DecodeSmall(b: Bytes): Option<Message> {
    if |b| == 4 || |b| == 5 then Some(SmallMessage(U16Of(b[0], b[1]), U16Of(b[2], b[3]))) else None
  }

  function EncodeSmall(m: Message): Option<Bytes> {
    if |m.answers| == 1 && m.answers[0].ttl < 0x1_0000 && m == SmallMessage(m.id, m.answers[0].ttl)
    then Some(Compressed(m.id, m.answers[0].ttl)) else None
  }

  const SMALL := Codec(DecodeSmall, EncodeSmall, (name: Bytes) => name)

  lemma DecodeCompressed(id: U16, ttl: U16, rest: Bytes)
    requires |rest| <= 1
    ensures DecodeSmall(Compressed(id, ttl) + rest) == Some(SmallMessage(id, ttl))
  {
    var b := Compressed(id, ttl) + rest;
    BigEndianRead(id);
    BigEndianRead(ttl);
    assert b[0] == BigEndian(id)[0] && b[1] == BigEndian(id)[1] && b[2] == BigEndian(ttl)[0] && b[3] == BigEndian(ttl)[1];
  }

  lemma SmallKeepsId(b: Bytes, id: U16)
    requires |b| == 4 || |b| == 5
    ensures DecodeSmall(WithId(b, id)) == Some(DecodeSmall(b).value.(id := id))
  {
    var renamed := WithId(b, id);
    BigEndianRead(id);
    assert renamed[0] == BigEndian(id)[0] && renamed[1] == BigEndian(id)[1] && renamed[2] == b[2] && renamed[3] == b[3];
  }

  lemma SmallIsLawful()
    ensures Lawful(SMALL)
  {
    forall m, b | EncodeSmall(m) == Some(b) ensures DecodeSmall(b) == Some(m) {
      DecodeCompressed(m.id, m.answers[0].ttl, []);
      assert b + [] == b;
    }
    forall b, id: U16 | |b| >= 2 && DecodeSmall(b).Some?
      ensures DecodeSmall(WithId(b, id)) == Some(DecodeSmall(b).value.(id := id))
    {
      SmallKeepsId(b, id);
    }
  }

  lemma OneTtl(record: Record, withOpt: bool)
    requires !record.isOpt
    ensures Ttls([record], withOpt) == [record.ttl]
  {
    assert [record][..0] == [];
  }

  lemma HourCounts()
    ensures forall id: U16 :: Counted(SmallMessage(id, HOUR)) == [HOUR, HOUR]
    ensures Least(DAY, [HOUR, HOUR]) == HOUR
  {
    var record := Record(HOUR, false, []);
    OneTtl(record, true);
    OneTtl(record, false);
    LeastOfOne(DAY, record);
    assert [HOUR, HOUR][..1] == [HOUR];
  }

  lemma HourLifetime(body: Bytes, id: U16)
    requires DecodeSmall(body) == Some(SmallMessage(id, HOUR))
    ensures Lifetime(SMALL, Limits(60, DAY), body) == HOUR
  {
    HourCounts();
    assert SMALL.decode(body) == DecodeSmall(body);
  }

  // A miss and its completion leave the one entry.
  lemma OneStored(c: Config, body: Bytes, id: U16, events: seq<Event>, key: Bytes)
    requires c == Config(1, Limits(60, DAY), SMALL) && DecodeSmall(body) == Some(SmallMessage(id, HOUR))
    requires QueryKey(c, body) == Some(key)
    requires events == [Consulted(body, 0), Completed(0, Replied(200, body), 0)]
    ensures ConsultAt(c, events, 0).None?
    ensures SlotsAfter(c, events) == [Slot(key, Entry(body, 0, HOUR))]
  {
    HourLifetime(body, id);
    assert events[..1] == [events[0]] && events[..1][..0] == [] && events[..0] == [];
    AfterOne(c, [], Get(key, 0));
    assert SlotsAfter(c, events[..1]) == [];
    AfterOne(c, [], Put(key, Entry(body, 0, HOUR)));
    assert SlotsAfter(c, events) == LruPut([], 1, key, Entry(body, 0, HOUR));
  }

  const LATER: nat := 3000 * NANOS

  // The run: stored at 0 for an hour, served again 3000 seconds later.
  function ServedAgain(body: Bytes): seq<Event> {
    [Consulted(body, 0), Completed(0, Replied(200, body), 0), Consulted(body, LATER)]
  }

  lemma ReplyFromSlot(c: Config, body: Bytes, id: U16, key: Bytes)
    requires c == Config(1, Limits(60, DAY), SMALL) && DecodeSmall(body) == Some(SmallMessage(id, HOUR))
    requires QueryKey(c, body) == Some(key)
    ensures ConsultReply(c, [Slot(key, Entry(body, 0, HOUR))], body, LATER) ==
            Some(Answer(WithId(Adjusted(SMALL, body, 600), id), true))
  {
    assert Remaining(Entry(body, 0, HOUR), LATER) == 600;
  }

  lemma ServedAgainIsValid(c: Config, body: Bytes, id: U16)
    requires c == Config(1, Limits(60, DAY), SMALL) && DecodeSmall(body) == Some(SmallMessage(id, HOUR))
    ensures ValidRun(c, ServedAgain(body))
  {
    var events := ServedAgain(body);
    assert events[..0] == [];
    assert Waiting(c, events, 0);
  }

  lemma ServedAgainReply(c: Config, body: Bytes, id: U16)
    requires c == Config(1, Limits(60, DAY), SMALL) && DecodeSmall(body) == Some(SmallMessage(id, HOUR))
    ensures ValidRun(c, ServedAgain(body))
    ensures ReplyAt(c, ServedAgain(body), 2) == Some(Answer(WithId(Adjusted(SMALL, body, 600), id), true))
  {
    ServedAgainIsValid(c, body, id);
    var events, key := ServedAgain(body), QueryKey(c, body).value;
    OneStored(c, body, id, events[..2], key);
    ReplyFromSlot(c, body, id, key);
    assert ReplyAt(c, events, 2) == ConsultAt(c, events, 2);
  }

  // An uncompressed reply: re-encoding shortens it, so the old bytes are served, with the
  // TTL of an hour they came with and 600 seconds left.
  lemma UnrewrittenTtlOutlives(c: Config, id: U16)
    requires c == Config(1, Limits(60, DAY), SMALL)
    ensures var body, end := Compressed(id, HOUR) + [0], HOUR * NANOS;
      && Lawful(c.codec) && ValidRun(c, ServedAgain(body)) && Lifetime(c.codec, c.limits, body) == HOUR
      && ReplyAt(c, ServedAgain(body), 2) == Some(Answer(body, true))
      && c.codec.decode(body).Some? && !NoneOutlives(c.codec.decode(body).value.answers, LATER, end)
  {
    var body := Compressed(id, HOUR) + [0];
    SmallIsLawful();
    DecodeCompressed(id, HOUR, [0]);
    HourLifetime(body, id);
    ServedAgainReply(c, body, id);
    assert Adjusted(SMALL, body, 600) == body;
    assert WithId(body, id) == body;
  }

  lemma RewrittenSmall(body: Bytes, id: U16)
    requires |body| == 4 && DecodeSmall(body) == Some(SmallMessage(id, HOUR))
    ensures Adjusted(SMALL, body, 600) == Compressed(id, 600)
  {
    var m := SmallMessage(id, HOUR);
    assert SetTtls(m.answers, 600) == [Record(600, false, [])];
    assert m.(answers := SetTtls(m.answers, 600)) == SmallMessage(id, 600);
  }

  // A compressed one is rewritten, and its answer has the 600 seconds left; its additional
  // record still has the hour, which reaches past the end of the entry.
  lemma AdditionalOutlives(c: Config, id: U16)
    requires c == Config(1, Limits(60, DAY), SMALL)
    ensures var body, reply, end := Compressed(id, HOUR), Compressed(id, 600), HOUR * NANOS;
      && Lawful(c.codec) && ValidRun(c, ServedAgain(body)) && Lifetime(c.codec, c.limits, body) == HOUR
      && ReplyAt(c, ServedAgain(body), 2) == Some(Answer(reply, true))
      && c.codec.decode(reply) == Some(SmallMessage(id, 600))
      && NoneOutlives(SmallMessage(id, 600).answers, LATER, end)
      && !AdditionalsEnd(SmallMessage(id, 600).additionals, LATER, end)
  {
    var body := Compressed(id, HOUR);
    SmallIsLawful();
    DecodeCompressed(id, HOUR, []);
    DecodeCompressed(id, 600, []);
    assert body + [] == body && Compressed(id, 600) + [] == Compressed(id, 600);
    HourLifetime(body, id);
    ServedAgainReply(c, body, id);
    RewrittenSmall(body, id);
    assert WithId(Compressed(id, 600), id) == Compressed(id, 600);
  }
}
