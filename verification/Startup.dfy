/** The untyped first message of a connection: StartupMessage and SSLRequest
    (internal/sidecar/pgwire/frame.go). */
module Startup {
  import opened Text
  import opened Frame

  type Params = map<bytes, bytes>

  datatype StartupResult = SslRequest(rest: bytes) | Started(params: Params, rest: bytes) | StartupError(rest: bytes)

  // ---------------------------------------------------------------- reading

  /** NUL-terminated strings; an unterminated last one is an error. */
  function CStrings(b: bytes): Option<seq<bytes>>
  {
    var pieces := Split(b, NUL);
    if pieces[|pieces| - 1] == [] then Some(pieces[..|pieces| - 1]) else None
  }

  /** Strings taken two at a time as key and value; a repeated key keeps its last value. */
  function PairMap(strs: seq<bytes>): Params
    requires |strs| % 2 == 0
  {
    var n := |strs|;
    if n == 0 then map[] else PairMap(strs[..n - 2])[strs[n - 2] := strs[n - 1]]
  }

  function DropTerminator(strs: seq<bytes>): seq<bytes>
  {
    if |strs| > 0 && strs[|strs| - 1] == [] then strs[..|strs| - 1] else strs
  }

  function ParsePairs(b: bytes): Option<Params>
  {
    match CStrings(b)
    case None => None
    case Some(all) =>
      var strs := DropTerminator(all);
      if |strs| % 2 != 0 then None else Some(PairMap(strs))
  }

  function ReadStartupSpec(s: bytes): StartupResult
  {
    if |s| < 8 then StartupError([])
    else
      var length := FromBigEndian32(s[..4]);
      var code := Signed32(FromBigEndian32(s[4..8]));
      if code == SSL_REQUEST_CODE then
        if length != 8 then StartupError(s[8..]) else SslRequest(s[8..])
      else if code != PROTOCOL_VERSION_3 || length < 9 then StartupError(s[8..])
      else if |s| < length then StartupError([])
      else
        match ParsePairs(s[8..length])
        case None => StartupError(s[length..])
        case Some(params) => Started(params, s[length..])
  }

  /** One more string cut off. */
  lemma CutString(b: bytes, out: seq<bytes>, start: nat, i: nat)
    requires start <= i < |b| && b[i] == NUL && NUL !in b[start..i]
    requires Split(b, NUL) == out + Split(b[start..], NUL)
    ensures Split(b, NUL) == out + [b[start..i]] + Split(b[i + 1..], NUL)
  {
    DropCut(b, start, i);
    SplitCons(b[start..i], NUL, b[i + 1..]);
    Assoc(out, [b[start..i]], Split(b[i + 1..], NUL));
  }

  method SplitCStrings(b: bytes) returns (r: Option<seq<bytes>>)
    ensures r == CStrings(b)
  {
    var out: seq<bytes> := [];
    var start := 0;
    for i := 0 to |b|
      invariant 0 <= start <= i
      invariant NUL !in b[start..i]
      invariant Split(b, NUL) == out + Split(b[start..], NUL)
    {
      if b[i] == NUL {
        CutString(b, out, start, i);
        out := out + [b[start..i]];
        start := i + 1;
      } else {
        assert b[start..i + 1] == b[start..i] + [b[i]];
      }
    }
    assert b[start..] == b[start..|b|];
    SplitClean(b[start..], NUL);
    return if start != |b| then None else Some(out);
  }

  method ParseCStringPairs(b: bytes) returns (r: Option<Params>)
    ensures r == ParsePairs(b)
  {
    var parsed := SplitCStrings(b);
    if parsed.None? { return None; }
    var strs := parsed.value;
    if |strs| > 0 && strs[|strs| - 1] == [] {
      strs := strs[..|strs| - 1];
    }
    if |strs| % 2 != 0 { return None; }
    var out: Params := map[];
    var i := 0;
    while i < |strs|
      invariant 0 <= i <= |strs| && i % 2 == 0
      invariant out == PairMap(strs[..i])
    {
      assert strs[..i + 2][..i] == strs[..i];
      out := out[strs[i] := strs[i + 1]];
      i := i + 2;
    }
    assert strs[..i] == strs;
    return Some(out);
  }

  method ReadStartupOrSslRequest(c: Conn) returns (r: StartupResult)
    modifies c`incoming
    ensures r == ReadStartupSpec(old(c.incoming))
    ensures c.incoming == r.rest
  {
    var s := c.incoming;
    var ok, head := c.ReadFull(8);
    if !ok { return StartupError(c.incoming); }
    assert head[..4] == s[..4] && head[4..8] == s[4..8];
    var length := FromBigEndian32(head[..4]);
    var code := Signed32(FromBigEndian32(head[4..8]));
    if code == SSL_REQUEST_CODE {
      if length != 8 { return StartupError(c.incoming); }
      return SslRequest(c.incoming);
    }
    if code != PROTOCOL_VERSION_3 || length < 9 { return StartupError(c.incoming); }
    var body;
    ok, body := c.ReadFull(length - 8);
    if !ok { return StartupError(c.incoming); }
    assert body == s[8..length] && c.incoming == s[length..];
    var params := ParseCStringPairs(body);
    return if params.None? then StartupError(c.incoming) else Started(params.value, c.incoming);
  }

  /** The i-th pair is the last one named k. */
  ghost predicate LastNamed(strs: seq<bytes>, k: bytes, i: nat)
  {
    2 * i + 1 < |strs| && strs[2 * i] == k && forall j :: i < j && 2 * j < |strs| ==> strs[2 * j] != k
  }

  /** Which strings become which parameters: the first, third and so on name them, each is followed by
      its value, and the last value of a repeated name counts. */
  lemma {:induction false} PairMapExactly(strs: seq<bytes>, k: bytes)
    requires |strs| % 2 == 0
    ensures k in PairMap(strs) <==> exists i :: LastNamed(strs, k, i)
    ensures forall i :: LastNamed(strs, k, i) ==> PairMap(strs)[k] == strs[2 * i + 1]
  {
    var n := |strs|;
    if n > 0 {
      var front, last := strs[..n - 2], n / 2 - 1;
      PairMapExactly(front, k);
      assert 2 * last == n - 2;
      if strs[n - 2] == k {
        assert LastNamed(strs, k, last);
        assert forall i :: LastNamed(strs, k, i) ==> i == last;
      } else {
        forall i ensures LastNamed(strs, k, i) <==> LastNamed(front, k, i) { LastNamedFront(strs, k, i); }
      }
    }
  }

  lemma LastNamedFront(strs: seq<bytes>, k: bytes, i: nat)
    requires |strs| % 2 == 0 && |strs| > 0 && strs[|strs| - 2] != k
    ensures LastNamed(strs, k, i) <==> LastNamed(strs[..|strs| - 2], k, i)
  {
    var front := strs[..|strs| - 2];
    assert forall j :: 0 <= 2 * j < |strs| && strs[2 * j] == k ==> 2 * j < |front| && front[2 * j] == k;
    assert forall j :: 0 <= 2 * j < |front| ==> front[2 * j] == strs[2 * j];
  }

  lemma EightBytes()
    ensures BigEndian32(8) == [0 as char, 0 as char, 0 as char, 8 as char] && FromBigEndian32(BigEndian32(8)) == 8
  {
    LengthBytes(8);
    BigEndian32Value(8);
  }

  lemma SslCodeBytes()
    ensures BigEndian32(80877103) == [0x04 as char, 0xd2 as char, 0x16 as char, 0x2f as char]
    ensures FromBigEndian32(BigEndian32(80877103)) == 80877103 == SSL_REQUEST_CODE
  {
    LengthBytes(80877103);
    BigEndian32Value(80877103);
  }

  lemma SslRequestRead(s: bytes, tail: bytes, length: bytes, code: bytes)
    requires |length| == |code| == 4 && FromBigEndian32(length) == 8 && FromBigEndian32(code) == SSL_REQUEST_CODE
    requires BigEndian32(8) == length && BigEndian32(SSL_REQUEST_CODE) == code
    ensures ReadStartupSpec(s) == SslRequest(tail) <==> s == length + code + tail
  {
    if |s| >= 8 {
      FromBigEndian32Value(s[..4]);
      FromBigEndian32Value(s[4..8]);
      assert s == s[..4] + s[4..8] + s[8..];
    }
    if s == length + code + tail {
      assert s[..4] == length && s[4..8] == code && s[8..] == tail;
    }
  }

  /** The eight bytes of an SSL request, and nothing else, are read as one, whatever follows them. */
  lemma SslRequestExactly(s: bytes, tail: bytes)
    ensures ReadStartupSpec(s) == SslRequest(tail) <==>
            s == [0 as char, 0 as char, 0 as char, 8 as char, 0x04 as char, 0xd2 as char, 0x16 as char, 0x2f as char] + tail
  {
    var length: bytes := [0 as char, 0 as char, 0 as char, 8 as char];
    var code: bytes := [0x04 as char, 0xd2 as char, 0x16 as char, 0x2f as char];
    EightBytes();
    SslCodeBytes();
    SslRequestRead(s, tail, length, code);
    assert length + code == [0 as char, 0 as char, 0 as char, 8 as char, 0x04 as char, 0xd2 as char, 0x16 as char, 0x2f as char];
  }

  /** A startup message is only read from protocol version 3.0, and is as long as its length says. */
  lemma VersionAndLength(s: bytes)
    requires ReadStartupSpec(s).Started?
    ensures |s| >= 9 && s[4..8] == [0 as char, 3 as char, 0 as char, 0 as char]
    ensures var n := FromBigEndian32(s[..4]); n <= |s| && ReadStartupSpec(s).rest == s[n..]
  {
    FromBigEndian32Value(s[4..8]);
    VersionBytes();
  }

  lemma VersionBytes()
    ensures BigEndian32(PROTOCOL_VERSION_3) == [0 as char, 3 as char, 0 as char, 0 as char]
  {
    LengthBytes(PROTOCOL_VERSION_3);
  }

  // ---------------------------------------------------------------- writing

  /** One of the orders in which Go may iterate over the parameter map. */
  predicate IsOrder(order: seq<bytes>, params: Params)
  {
    && (forall k <- order :: k in params)
    && multiset(order) == multiset(params.Keys)
  }

  function PairBytes(order: seq<bytes>, params: Params): bytes
    requires forall k <- order :: k in params
  {
    if order == [] then []
    else
      var n := |order| - 1;
      var k := order[n];
      PairBytes(order[..n], params) + k + [NUL] + params[k] + [NUL]
  }

  function StartupBody(order: seq<bytes>, params: Params): bytes
    requires forall k <- order :: k in params
  {
    BigEndian32(PROTOCOL_VERSION_3) + PairBytes(order, params) + [NUL]
  }

  function StartupBytes(order: seq<bytes>, params: Params): bytes
    requires forall k <- order :: k in params
  {
    BigEndian32(4 + |StartupBody(order, params)|) + StartupBody(order, params)
  }

  lemma PairBytesNext(order: seq<bytes>, params: Params, k: bytes)
    requires (forall x <- order :: x in params) && k in params
    ensures forall x <- order + [k] :: x in params
    ensures PairBytes(order + [k], params) == PairBytes(order, params) + k + [NUL] + params[k] + [NUL]
  {
    assert (order + [k])[..|order|] == order;
  }

  /** Appending a pair piece by piece to what is there. */
  lemma AppendPieces(head: bytes, pairs: bytes, k: bytes, v: bytes)
    ensures head + pairs + k + [NUL] + v + [NUL] == head + (pairs + k + [NUL] + v + [NUL])
  {
  }

  /** The order the Go runtime picks is reported as a ghost result; any order may come out. */
  method WriteStartupMessage(c: Conn, params: Params) returns (ok: bool, ghost order: seq<bytes>)
    modifies c`sent, c`writesLeft
    ensures IsOrder(order, params)
    ensures ok == (old(c.writesLeft) > 0)
    ensures ok ==> c.sent == old(c.sent) + StartupBytes(order, params) && c.writesLeft == old(c.writesLeft) - 1
    ensures !ok ==> c.sent == old(c.sent) && c.writesLeft == 0
  {
    var body: bytes := BigEndian32(PROTOCOL_VERSION_3);
    order := [];
    var remaining := params.Keys;
    while remaining != {}
      invariant remaining <= params.Keys
      invariant forall k <- order :: k in params
      invariant multiset(order) + multiset(remaining) == multiset(params.Keys)
      invariant body == BigEndian32(PROTOCOL_VERSION_3) + PairBytes(order, params)
      invariant c.sent == old(c.sent) && c.writesLeft == old(c.writesLeft)
      decreases remaining
    {
      var k :| k in remaining;
      PairBytesNext(order, params, k);
      AppendPieces(BigEndian32(PROTOCOL_VERSION_3), PairBytes(order, params), k, params[k]);
      body := body + k;
      body := body + [NUL];
      body := body + params[k];
      body := body + [NUL];
      order := order + [k];
      remaining := remaining - {k};
    }
    body := body + [NUL];
    assert body == StartupBody(order, params);
    var out: bytes := BigEndian32(4 + |body|);
    out := out + body;
    ok := c.Write(out);
  }

  // ---------------------------------------------------------------- the round trip

  predicate NulFree(params: Params)
  {
    forall k <- params :: NUL !in k && NUL !in params[k]
  }

  function Flatten(order: seq<bytes>, params: Params): (r: seq<bytes>)
    requires forall k <- order :: k in params
    ensures |r| == 2 * |order|
  {
    if order == [] then []
    else
      var n := |order| - 1;
      Flatten(order[..n], params) + [order[n], params[order[n]]]
  }

  lemma {:induction false} SplitPairBytes(order: seq<bytes>, params: Params, tail: bytes)
    requires forall k <- order :: k in params
    requires NulFree(params)
    ensures Split(PairBytes(order, params) + tail, NUL) == Flatten(order, params) + Split(tail, NUL)
  {
    if order == [] {
      assert PairBytes(order, params) + tail == tail;
    } else {
      var n := |order| - 1;
      var k := order[n];
      var v := params[k];
      assert k in order;
      var valueOn := v + [NUL] + tail;
      var keyOn := k + [NUL] + valueOn;
      assert PairBytes(order, params) + tail == PairBytes(order[..n], params) + keyOn;
      SplitPairBytes(order[..n], params, keyOn);
      SplitCons(k, NUL, valueOn);
      SplitCons(v, NUL, tail);
    }
  }

  lemma MapNext(order: seq<bytes>, params: Params)
    requires order != [] && forall k <- order :: k in params
    ensures var n := |order| - 1;
            (map k | k in order[..n] :: params[k])[order[n] := params[order[n]]] == map k | k in order :: params[k]
  {
    InitLast(order);
  }

  lemma {:induction false} PairMapFlatten(order: seq<bytes>, params: Params)
    requires forall k <- order :: k in params
    ensures PairMap(Flatten(order, params)) == map k | k in order :: params[k]
  {
    if order != [] {
      var n := |order| - 1;
      PairMapFlatten(order[..n], params);
      var strs := Flatten(order, params);
      assert strs[..|strs| - 2] == Flatten(order[..n], params);
      MapNext(order, params);
    }
  }

  /** Behind the pairs stand the terminator, which is dropped, and nothing. */
  lemma PairsOfPieces(b: bytes, flat: seq<bytes>)
    requires |flat| % 2 == 0
    requires Split(b, NUL) == flat + [[], []]
    ensures ParsePairs(b) == Some(PairMap(flat))
  {
    var pieces := Split(b, NUL);
    var strs := pieces[..|pieces| - 1];
    assert strs == flat + [[]];
    assert strs[..|strs| - 1] == flat;
  }

  lemma PairsOfBody(order: seq<bytes>, params: Params)
    requires (forall k <- order :: k in params) && (map k | k in order :: params[k]) == params && NulFree(params)
    ensures ParsePairs(PairBytes(order, params) + [NUL]) == Some(params)
  {
    SplitPairBytes(order, params, [NUL]);
    assert Split([NUL], NUL) == [[], []] by {
      assert [NUL] == [] + [NUL] + [];
      SplitCons([], NUL, []);
    }
    PairsOfPieces(PairBytes(order, params) + [NUL], Flatten(order, params));
    PairMapFlatten(order, params);
  }

  lemma AsGiven(order: seq<bytes>, params: Params)
    requires IsOrder(order, params)
    ensures (map k | k in order :: params[k]) == params
  {
    assert forall k :: k in order <==> k in multiset(order);
  }

  lemma {:induction false} PairMapNulFree(strs: seq<bytes>)
    requires |strs| % 2 == 0
    requires forall s <- strs :: NUL !in s
    ensures NulFree(PairMap(strs))
  {
    var n := |strs|;
    if n > 0 {
      PairMapNulFree(strs[..n - 2]);
      assert strs[n - 2] in strs && strs[n - 1] in strs;
    }
  }

  lemma ParsedPairsNulFree(b: bytes)
    requires ParsePairs(b).Some?
    ensures NulFree(ParsePairs(b).value)
  {
    JoinSplit(b, NUL);
    var strs := DropTerminator(CStrings(b).value);
    assert forall s <- strs :: s in Split(b, NUL);
    PairMapNulFree(strs);
  }

  lemma ReadsParts(length: bytes, code: bytes, pairs: bytes, tail: bytes)
    requires |length| == |code| == 4 && |pairs| >= 1
    requires FromBigEndian32(length) == 8 + |pairs|
    requires FromBigEndian32(code) == PROTOCOL_VERSION_3
    ensures ReadStartupSpec(length + code + pairs + tail)
         == match ParsePairs(pairs)
            case None => StartupError(tail)
            case Some(read) => Started(read, tail)
  {
    var s := length + code + pairs + tail;
    assert s[..4] == length;
    assert s[4..8] == code;
    assert s[8..8 + |pairs|] == pairs;
    assert s[8 + |pairs|..] == tail;
  }

  lemma StartupParts(order: seq<bytes>, params: Params, tail: bytes)
    requires forall k <- order :: k in params
    ensures var pairs := PairBytes(order, params) + [NUL];
            StartupBytes(order, params) + tail == BigEndian32(8 + |pairs|) + BigEndian32(PROTOCOL_VERSION_3) + pairs + tail
  {
    var pairs := PairBytes(order, params) + [NUL];
    var body := StartupBody(order, params);
    var length, code := BigEndian32(8 + |pairs|), BigEndian32(PROTOCOL_VERSION_3);
    Assoc(code, PairBytes(order, params), [NUL]);
    assert body == code + pairs;
    Assoc(length, code, pairs);
  }

  lemma ReadsHeader(pairs: bytes, tail: bytes)
    requires 1 <= |pairs| && 8 + |pairs| < TWO_32
    ensures ReadStartupSpec(BigEndian32(8 + |pairs|) + BigEndian32(PROTOCOL_VERSION_3) + pairs + tail)
         == match ParsePairs(pairs)
            case None => StartupError(tail)
            case Some(read) => Started(read, tail)
  {
    BigEndian32Value(8 + |pairs|);
    ProtocolCode();
    ReadsParts(BigEndian32(8 + |pairs|), BigEndian32(PROTOCOL_VERSION_3), pairs, tail);
  }

  /** The header of a written startup message leads the reader to exactly the written pairs. */
  lemma ReadsBody(order: seq<bytes>, params: Params, tail: bytes)
    requires forall k <- order :: k in params
    requires 4 + |StartupBody(order, params)| < TWO_32
    ensures ReadStartupSpec(StartupBytes(order, params) + tail)
         == match ParsePairs(PairBytes(order, params) + [NUL])
            case None => StartupError(tail)
            case Some(read) => Started(read, tail)
  {
    BodyLength(order, params);
    StartupParts(order, params, tail);
    ReadsHeader(PairBytes(order, params) + [NUL], tail);
  }

  lemma BodyLength(order: seq<bytes>, params: Params)
    requires forall k <- order :: k in params
    ensures |StartupBody(order, params)| == 4 + |PairBytes(order, params) + [NUL]|
  {
  }

  lemma ProtocolCode()
    ensures FromBigEndian32(BigEndian32(PROTOCOL_VERSION_3)) == PROTOCOL_VERSION_3
  {
    BigEndian32Value(PROTOCOL_VERSION_3);
  }

  /** In whatever order the pairs are written, reading gives back the map, is no SSL probe, and
      consumes exactly the written bytes, if and only if no key or value holds a NUL and the length fits
      32 bits. */
  lemma StartupRoundTrip(order: seq<bytes>, params: Params, tail: bytes)
    requires IsOrder(order, params)
    ensures ReadStartupSpec(StartupBytes(order, params) + tail) == Started(params, tail)
       <==> NulFree(params) && 4 + |StartupBody(order, params)| < TWO_32
  {
    if 4 + |StartupBody(order, params)| < TWO_32 {
      FittingRoundTrip(order, params, tail);
    } else {
      WrappedLeavesMore(order, params, tail);
    }
  }

  /** A length that wraps makes the reader stop too early. */
  lemma WrappedLeavesMore(order: seq<bytes>, params: Params, tail: bytes)
    requires IsOrder(order, params) && 4 + |StartupBody(order, params)| >= TWO_32
    ensures var r := ReadStartupSpec(StartupBytes(order, params) + tail); r.Started? ==> |r.rest| > |tail|
  {
    var n := 4 + |StartupBody(order, params)|;
    var s := StartupBytes(order, params) + tail;
    BigEndian32Value(n);
    assert s[..4] == BigEndian32(n);
    assert |s| == n + |tail|;
  }

  lemma FittingRoundTrip(order: seq<bytes>, params: Params, tail: bytes)
    requires IsOrder(order, params) && 4 + |StartupBody(order, params)| < TWO_32
    ensures ReadStartupSpec(StartupBytes(order, params) + tail) == Started(params, tail) <==> NulFree(params)
  {
    ReadsBody(order, params, tail);
    var pairs := PairBytes(order, params) + [NUL];
    AsGiven(order, params);
    if NulFree(params) {
      PairsOfBody(order, params);
    } else if ParsePairs(pairs).Some? {
      ParsedPairsNulFree(pairs);
    }
  }
}
