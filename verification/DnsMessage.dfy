/** DNS messages as the cache sees them. The wire codec is a parameter: a pair of
    partial functions between bytes and messages, and the printing of names. */
module DnsMessage {
  import opened Prelude

  type Byte = x: int | 0 <= x < 0x100
  type U16 = x: int | 0 <= x < 0x1_0000
  type U32 = x: int | 0 <= x < 0x1_0000_0000
  type Bytes = seq<Byte>

  datatype Query = Query(name: Bytes, qtype: U16, qclass: U16)
  datatype Record = Record(ttl: U32, isOpt: bool, data: Bytes)
  datatype Message = Message(id: U16, queries: seq<Query>, answers: seq<Record>, additionals: seq<Record>, rest: Bytes)

  // The last part prints a name.
  datatype Codec = Codec(decode: Bytes -> Option<Message>, encode: Message -> Option<Bytes>, show: Bytes -> Bytes)

  function BigEndian(n: U16): (b: Bytes)
    ensures |b| == 2
  {
    [n / 0x100, n % 0x100]
  }

  function LowerByte(b: Byte): Byte {
    if 'A' as int <= b <= 'Z' as int then b + 32 else b
  }

  function LowerName(name: Bytes): (r: Bytes)
    ensures |r| == |name|
  {
    seq(|name|, i requires 0 <= i < |name| => LowerByte(name[i]))
  }

  const PIPE: Byte := 124

  // cache_key: nothing for a query without a question.
  function CacheKey(codec: Codec, query: Message): Option<Bytes> {
    if query.queries == [] then None
    else
      var q := query.queries[0];
      Some(codec.show(LowerName(q.name)) + [PIPE] + BigEndian(q.qtype) + [PIPE] + BigEndian(q.qclass))
  }

  lemma KeyParts(codec: Codec, m: Message)
    requires m.queries != []
    ensures var q, key := m.queries[0], CacheKey(codec, m).value;
            && |key| >= 6 && key[..|key| - 6] == codec.show(LowerName(q.name))
            && q.qtype as int == 0x100 * (key[|key| - 5] as int) + (key[|key| - 4] as int)
            && q.qclass as int == 0x100 * (key[|key| - 2] as int) + (key[|key| - 1] as int)
  {
  }

  // Two queries share a key exactly when their lowercased and printed names, types and classes agree.
  lemma CacheKeyExactly(codec: Codec, a: Message, b: Message)
    requires a.queries != [] && b.queries != []
    ensures CacheKey(codec, a) == CacheKey(codec, b) <==>
            && codec.show(LowerName(a.queries[0].name)) == codec.show(LowerName(b.queries[0].name))
            && a.queries[0].qtype == b.queries[0].qtype
            && a.queries[0].qclass == b.queries[0].qclass
  {
    if CacheKey(codec, a) == CacheKey(codec, b) {
      KeyParts(codec, a);
      KeyParts(codec, b);
    }
  }

  // A capital letter and its small one.
  predicate CasePair(capital: Byte, small: Byte) {
    0x41 <= capital <= 0x5a && small as int == capital as int + 0x20
  }

  // Equal but for the case of ASCII letters.
  predicate SameButCase(a: Bytes, b: Bytes) {
    |a| == |b| && forall i :: 0 <= i < |a| ==> a[i] == b[i] || CasePair(a[i], b[i]) || CasePair(b[i], a[i])
  }

  lemma LoweredExactly(a: Bytes, b: Bytes)
    ensures LowerName(a) == LowerName(b) <==> SameButCase(a, b)
  {
    if LowerName(a) == LowerName(b) {
      forall i | 0 <= i < |a| ensures a[i] == b[i] || CasePair(a[i], b[i]) || CasePair(b[i], a[i]) {
        assert LowerName(a)[i] == LowerByte(a[i]) && LowerName(b)[i] == LowerByte(b[i]);
      }
    }
  }

  // Where no two names print alike, two queries share a key exactly when their names agree
  // but for case, and their types and classes agree.
  lemma CacheKeyIgnoresCase(codec: Codec, a: Message, b: Message)
    requires a.queries != [] && b.queries != []
    requires forall x, y :: codec.show(x) == codec.show(y) ==> x == y
    ensures CacheKey(codec, a) == CacheKey(codec, b) <==>
            && SameButCase(a.queries[0].name, b.queries[0].name)
            && a.queries[0].qtype == b.queries[0].qtype
            && a.queries[0].qclass == b.queries[0].qclass
  {
    CacheKeyExactly(codec, a, b);
    LoweredExactly(a.queries[0].name, b.queries[0].name);
  }

  function SetTtls(records: seq<Record>, ttl: U32): (r: seq<Record>)
    ensures |r| == |records|
  {
    seq(|records|, i requires 0 <= i < |records| => records[i].(ttl := ttl))
  }

  // adjust_ttls: the old bytes stay when decoding or encoding fails or changes the length.
  function Adjusted(codec: Codec, response: Bytes, ttl: U32): (r: Bytes)
    ensures |r| == |response|
  {
    match codec.decode(response)
    case None => response
    case Some(msg) =>
      match codec.encode(msg.(answers := SetTtls(msg.answers, ttl)))
      case None => response
      case Some(bytes) => if |bytes| == |response| then bytes else response
  }

  function WithId(response: Bytes, id: U16): (r: Bytes)
    ensures |r| == |response|
  {
    if |response| >= 2 then BigEndian(id) + response[2..] else response
  }

  method AdjustTtls(codec: Codec, response: array<Byte>, ttl: U32)
    modifies response
    ensures response[..] == Adjusted(codec, old(response[..]), ttl)
  {
    match codec.decode(response[..]) {
      case None =>
      case Some(msg) =>
        match codec.encode(msg.(answers := SetTtls(msg.answers, ttl))) {
          case None =>
          case Some(bytes) =>
            if |bytes| == response.Length {
              forall i | 0 <= i < response.Length {
                response[i] := bytes[i];
              }
              assert response[..] == bytes;
            }
        }
    }
  }

  method RewriteId(response: array<Byte>, id: U16)
    modifies response
    ensures response[..] == WithId(old(response[..]), id)
  {
    if response.Length >= 2 {
      response[0] := id / 0x100;
      response[1] := id % 0x100;
    }
  }
}
