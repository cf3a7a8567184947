/** The SCRAM-SHA-256 client of internal/sidecar/pgwire/scram.go. SHA-256, HMAC and PBKDF2 are
    arbitrary functions with 32-byte results. */
module Scram {
  import opened Text
  import opened Frame
  import Base64

  type digest = b: bytes | |b| == 32 witness seq(32, _ => '\0')

  datatype Hashes = Hashes(
    H: bytes -> digest,
    HMAC: (bytes, bytes) -> digest,
    Hi: (bytes, bytes, int) -> digest)

  const MECHANISM: bytes := "SCRAM-SHA-256"
  const GS2_HEADER: bytes := "n,,"
  const CLIENT_KEY: bytes := "Client Key"
  const SERVER_KEY: bytes := "Server Key"

  const SASL_CONTINUE := 11
  const SASL_FINAL := 12
  const AUTH_OK := 0

  function Std64(b: bytes): bytes { Base64.Encode(b, Base64.Std) }

  function ReadStd64(s: bytes): Option<bytes> { Base64.Decode(s, Base64.Std) }

  lemma Std64Avoids(b: bytes, c: byte)
    requires c in [',', '$', ':']
    ensures c !in Std64(b)
  {
    Base64.EncodeAlphabet(b, Base64.Std);
  }

  // ---------------------------------------------------------------- exclusive or

  /** Bitwise exclusive or of the low n bits. */
  function XorBits(a: nat, b: nat, n: nat): nat
  {
    if n == 0 then 0 else 2 * XorBits(a / 2, b / 2, n - 1) + (if a % 2 == b % 2 then 0 else 1)
  }

  lemma {:induction false} XorBitsInvolution(a: nat, b: nat, n: nat)
    requires a < Pow2(n)
    ensures XorBits(a, b, n) < Pow2(n)
    ensures XorBits(XorBits(a, b, n), b, n) == a
  {
    if n > 0 {
      XorBitsInvolution(a / 2, b / 2, n - 1);
      assert XorBits(a, b, n) / 2 == XorBits(a / 2, b / 2, n - 1);
    }
  }

  /** Bit i of a number, the lowest first. */
  function Bit(a: nat, i: nat): nat { if i == 0 then a % 2 else Bit(a / 2, i - 1) }

  /** What XOR computes: a bit of the result is set exactly when the two bits differ. */
  lemma {:induction false} XorEachBit(a: nat, b: nat, n: nat, i: nat)
    requires i < n
    ensures Bit(XorBits(a, b, n), i) == if Bit(a, i) == Bit(b, i) then 0 else 1
  {
    var r := XorBits(a, b, n);
    assert r / 2 == XorBits(a / 2, b / 2, n - 1) && r % 2 == if a % 2 == b % 2 then 0 else 1;
    if i > 0 { XorEachBit(a / 2, b / 2, n - 1, i - 1); }
  }

  function XorByte(a: byte, b: byte): byte
  {
    XorBitsInvolution(a as int, b as int, 8);
    assert Pow2(8) == 2 * (2 * (2 * (2 * Pow2(4))));
    Byte(XorBits(a as int, b as int, 8))
  }

  lemma XorByteInvolution(a: byte, b: byte)
    ensures XorByte(XorByte(a, b), b) == a
  {
    assert Pow2(8) == 2 * (2 * (2 * (2 * Pow2(4))));
    XorBitsInvolution(a as int, b as int, 8);
  }

  function Xor(a: bytes, b: bytes): (r: bytes)
    requires |a| <= |b|
    ensures |r| == |a|
  {
    seq(|a|, i requires 0 <= i < |a| => XorByte(a[i], b[i]))
  }

  lemma XorInvolution(a: bytes, b: bytes)
    requires |a| == |b|
    ensures Xor(Xor(a, b), b) == a
  {
    forall i | 0 <= i < |a| ensures Xor(Xor(a, b), b)[i] == a[i] {
      XorByteInvolution(a[i], b[i]);
    }
  }

  /** Bit i of r is set exactly when the two bits differ. */
  predicate BitDiffers(a: byte, b: byte, r: byte, i: nat)
  {
    Bit(r as int, i) == if Bit(a as int, i) == Bit(b as int, i) then 0 else 1
  }

  predicate BitsDiffer(a: byte, b: byte, r: byte)
  {
    forall i :: 0 <= i < 8 ==> BitDiffers(a, b, r, i)
  }

  lemma XorByteBits(a: byte, b: byte)
    ensures BitsDiffer(a, b, XorByte(a, b))
  {
    XorBitsInvolution(a as int, b as int, 8);
    assert XorByte(a, b) as int == XorBits(a as int, b as int, 8);
    forall i | 0 <= i < 8 ensures BitDiffers(a, b, XorByte(a, b), i) {
      XorEachBit(a as int, b as int, 8, i);
    }
  }

  /** Every bit of every byte. */
  lemma XorBitsOf(a: bytes, b: bytes)
    requires |a| <= |b|
    ensures forall k :: 0 <= k < |a| ==> BitsDiffer(a[k], b[k], Xor(a, b)[k])
  {
    forall k | 0 <= k < |a| ensures BitsDiffer(a[k], b[k], Xor(a, b)[k]) {
      XorByteBits(a[k], b[k]);
    }
  }

  method XorBytes(a: bytes, b: bytes) returns (r: bytes)
    requires |a| <= |b|
    ensures r == Xor(a, b)
    ensures forall k :: 0 <= k < |a| ==> BitsDiffer(a[k], b[k], r[k])
  {
    XorBitsOf(a, b);
    var out := new byte[|a|];
    for i := 0 to |a|
      invariant forall k :: 0 <= k < i ==> out[k] == XorByte(a[k], b[k])
    {
      out[i] := XorByte(a[i], b[i]);
    }
    return out[..];
  }

  // ---------------------------------------------------------------- names

  /** strings.ReplaceAll of one character. */
  function ReplaceAll(s: bytes, c: byte, with: bytes): bytes
  {
    if s == [] then [] else (if s[0] == c then with else [s[0]]) + ReplaceAll(s[1..], c, with)
  }

  function SaslEscape(s: bytes): bytes
  {
    ReplaceAll(ReplaceAll(s, '=', "=3D"), ',', "=2C")
  }

  /** What RFC 5802, section 5.1, has the server do with a name; any other '=' is an error. */
  function SaslUnescape(s: bytes): Option<bytes>
  {
    if s == [] then Some([])
    else if s[0] == '=' then
      if "=3D" <= s then Prepend('=', SaslUnescape(s[3..]))
      else if "=2C" <= s then Prepend(',', SaslUnescape(s[3..]))
      else None
    else Prepend(s[0], SaslUnescape(s[1..]))
  }

  function Prepend(c: byte, r: Option<bytes>): Option<bytes>
  {
    match r case None => None case Some(s) => Some([c] + s)
  }

  lemma {:induction false} ReplaceAllAppend(a: bytes, b: bytes, c: byte, with: bytes)
    ensures ReplaceAll(a + b, c, with) == ReplaceAll(a, c, with) + ReplaceAll(b, c, with)
  {
    if a == [] {
      assert a + b == b;
    } else {
      ReplaceAllAppend(a[1..], b, c, with);
      assert (a + b)[1..] == a[1..] + b;
      var head := if a[0] == c then with else [a[0]];
      Assoc(head, ReplaceAll(a[1..], c, with), ReplaceAll(b, c, with));
    }
  }

  /** The escape of one character. */
  function Escaped(c: byte): bytes { if c == '=' then "=3D" else if c == ',' then "=2C" else [c] }

  lemma EscapedHead(c: byte)
    ensures ReplaceAll(if c == '=' then "=3D" else [c], ',', "=2C") == Escaped(c)
  {
    if c == '=' {
      var t: bytes := "=3D";
      assert t[1..] == "3D" && t[1..][1..] == "D" && t[1..][1..][1..] == [];
    } else {
      var t: bytes := [c];
      assert t[1..] == [];
    }
  }

  lemma EscapeFirst(s: bytes)
    requires s != []
    ensures SaslEscape(s) == (if s[0] == '=' then "=3D" else if s[0] == ',' then "=2C" else [s[0]]) + SaslEscape(s[1..])
  {
    var head: bytes := if s[0] == '=' then "=3D" else [s[0]];
    EscapedHead(s[0]);
    ReplaceAllAppend(head, ReplaceAll(s[1..], '=', "=3D"), ',', "=2C");
  }

  lemma UnescapeFirst(c: byte, e: bytes)
    ensures SaslUnescape(Escaped(c) + e) == Prepend(c, SaslUnescape(e))
  {
    var s := Escaped(c) + e;
    TakeAppend(Escaped(c), e);
    if c == '=' {
      assert "=3D" <= s && s[3..] == e;
    } else if c == ',' {
      assert "=2C" <= s && s[1] == '2' && s[3..] == e;
    } else {
      assert s[0] == c && s[1..] == e;
    }
  }

  /** Escaping removes every ',' and loses nothing. */
  lemma {:induction false} SaslEscapeRoundTrip(s: bytes)
    ensures ',' !in SaslEscape(s)
    ensures SaslUnescape(SaslEscape(s)) == Some(s)
  {
    if s != [] {
      EscapeFirst(s);
      SaslEscapeRoundTrip(s[1..]);
      UnescapeFirst(s[0], SaslEscape(s[1..]));
      HeadTail(s);
    }
  }

  // ---------------------------------------------------------------- the client's messages

  function FirstBare(user: bytes, nonce: bytes): bytes
  {
    "n=" + SaslEscape(user) + ",r=" + nonce
  }

  datatype ServerFirst = ServerFirst(nonce: bytes, salt: bytes, iterations: int)

  /** Attributes seen so far in a server-first-message; no salt yet is None. */
  datatype Attributes = Attributes(nonce: bytes, salt: Option<bytes>, iterations: int)

  /** One attribute; None when it is a salt or iteration count that does not parse. */
  function ReadAttribute(part: bytes, a: Attributes): Option<Attributes>
  {
    if |part| < 2 || part[1] != '=' then Some(a)
    else if part[0] == 'r' then Some(a.(nonce := part[2..]))
    else if part[0] == 's' then
      (match ReadStd64(part[2..]) case None => None case Some(salt) => Some(a.(salt := Some(salt))))
    else if part[0] == 'i' then
      (match ParseInt(part[2..]) case None => None case Some(n) => Some(a.(iterations := n)))
    else Some(a)
  }

  function ReadAttributes(parts: seq<bytes>, a: Attributes): Option<Attributes>
  {
    if parts == [] then Some(a)
    else
      match ReadAttribute(parts[0], a)
      case None => None
      case Some(next) => ReadAttributes(parts[1..], next)
  }

  const NO_ATTRIBUTES := Attributes([], None, 0)

  function ParseServerFirst(msg: bytes): Option<ServerFirst>
  {
    match ReadAttributes(Split(msg, ','), NO_ATTRIBUTES)
    case None => None
    case Some(a) =>
      if a.nonce == [] || a.salt.None? || a.iterations <= 0 then None
      else Some(ServerFirst(a.nonce, a.salt.value, a.iterations))
  }

  // ---------------------------------------------------------------- which server-first-messages are read

  /** What the last part with this attribute letter says. */
  function Last(parts: seq<bytes>, letter: byte): Option<bytes>
  {
    if parts == [] then None
    else if Last(parts[1..], letter).Some? then Last(parts[1..], letter)
    else if |parts[0]| >= 2 && parts[0][0] == letter && parts[0][1] == '=' then Some(parts[0][2..])
    else None
  }

  /** Every salt and every iteration count decodes. */
  predicate Decodable(parts: seq<bytes>)
  {
    forall p: bytes <- parts :: ("s=" <= p ==> ReadStd64(p[2..]).Some?) && ("i=" <= p ==> ParseInt(p[2..]).Some?)
  }

  /** The attributes after some parts, when they were `before` in front of them. */
  predicate LastCounts(parts: seq<bytes>, before: Attributes, a: Attributes)
  {
    && a.nonce == (match Last(parts, 'r') case Some(text) => text case None => before.nonce)
    && a.salt == (match Last(parts, 's') case Some(text) => ReadStd64(text) case None => before.salt)
    && Some(a.iterations) == (match Last(parts, 'i') case Some(text) => ParseInt(text) case None => Some(before.iterations))
  }

  lemma {:induction false} AttributesExactly(parts: seq<bytes>, before: Attributes)
    ensures ReadAttributes(parts, before).Some? <==> Decodable(parts)
    ensures ReadAttributes(parts, before).Some? ==> LastCounts(parts, before, ReadAttributes(parts, before).value)
  {
    if parts != [] {
      HeadTail(parts);
      assert Decodable(parts) <==> Decodable([parts[0]]) && Decodable(parts[1..]);
      assert ReadAttribute(parts[0], before).Some? <==> Decodable([parts[0]]);
      if ReadAttribute(parts[0], before).Some? {
        AttributesExactly(parts[1..], ReadAttribute(parts[0], before).value);
      }
    }
  }

  /** Exactly which server-first-messages are read, and as what: all salts and iteration counts decode,
      and the last nonce, salt and count are there, the nonce not empty and the count positive. */
  lemma ServerFirstExactly(msg: bytes, sf: ServerFirst)
    ensures var parts := Split(msg, ',');
            ParseServerFirst(msg) == Some(sf) <==>
              && Decodable(parts)
              && Last(parts, 'r') == Some(sf.nonce) && sf.nonce != []
              && Last(parts, 's').Some? && ReadStd64(Last(parts, 's').value) == Some(sf.salt)
              && Last(parts, 'i').Some? && ParseInt(Last(parts, 'i').value) == Some(sf.iterations) && sf.iterations > 0
  {
    AttributesExactly(Split(msg, ','), NO_ATTRIBUTES);
  }

  method ParseServerFirstLoop(msg: bytes) returns (r: Option<ServerFirst>)
    ensures r == ParseServerFirst(msg)
  {
    var parts := Split(msg, ',');
    var out := NO_ATTRIBUTES;
    for i := 0 to |parts|
      invariant ReadAttributes(parts, NO_ATTRIBUTES) == ReadAttributes(parts[i..], out)
    {
      var part := parts[i];
      assert parts[i..][1..] == parts[i + 1..];
      if |part| < 2 || part[1] != '=' { continue; }
      match part[0]
      case 'r' =>
        out := out.(nonce := part[2..]);
      case 's' =>
        var salt := ReadStd64(part[2..]);
        if salt.None? { return None; }
        out := out.(salt := salt);
      case 'i' =>
        var n := ParseInt(part[2..]);
        if n.None? { return None; }
        out := out.(iterations := n.value);
      case _ =>
    }
    if out.nonce == [] || out.salt.None? || out.iterations <= 0 { return None; }
    return Some(ServerFirst(out.nonce, out.salt.value, out.iterations));
  }

  function WithoutProof(nonce: bytes): bytes
  {
    "c=" + Std64(GS2_HEADER) + ",r=" + nonce
  }

  function AuthMessage(firstBare: bytes, serverFirstRaw: bytes, nonce: bytes): bytes
  {
    firstBare + "," + serverFirstRaw + "," + WithoutProof(nonce)
  }

  function ClientProof(hs: Hashes, password: bytes, sf: ServerFirst, auth: bytes): bytes
  {
    var clientKey := hs.HMAC(hs.Hi(password, sf.salt, sf.iterations), CLIENT_KEY);
    Xor(clientKey, hs.HMAC(hs.H(clientKey), auth))
  }

  function FinalMessage(hs: Hashes, password: bytes, firstBare: bytes, sf: ServerFirst, raw: bytes): bytes
  {
    WithoutProof(sf.nonce) + ",p=" + Std64(ClientProof(hs, password, sf, AuthMessage(firstBare, raw, sf.nonce)))
  }

  function ExpectedSignature(hs: Hashes, password: bytes, firstBare: bytes, sf: ServerFirst, raw: bytes): bytes
  {
    hs.HMAC(hs.HMAC(hs.Hi(password, sf.salt, sf.iterations), SERVER_KEY), AuthMessage(firstBare, raw, sf.nonce))
  }

  predicate VerifyServerFinal(serverFinal: bytes, expected: bytes)
  {
    "v=" <= serverFinal && ReadStd64(serverFinal[2..]) == Some(expected)
  }

  function InitialResponse(mechanism: bytes, response: bytes): bytes
  {
    mechanism + [NUL] + BigEndian32(|response|) + response
  }

  /** The client's state across the two round trips. */
  class Client {
    const password: bytes
    const clientNonce: bytes
    var clientFirstBare: bytes

    constructor (password: bytes, nonce: bytes)
      ensures this.password == password && clientNonce == nonce && clientFirstBare == []
    {
      this.password, this.clientNonce, this.clientFirstBare := password, nonce, [];
    }

    method ClientFirstWire(user: bytes) returns (wire: bytes)
      modifies this
      ensures clientFirstBare == FirstBare(user, clientNonce)
      ensures wire == GS2_HEADER + FirstBare(user, clientNonce)
    {
      clientFirstBare := "n=" + SaslEscape(user) + ",r=" + clientNonce;
      wire := GS2_HEADER + clientFirstBare;
    }

    method ClientFinalMessage(hs: Hashes, sf: ServerFirst, raw: bytes) returns (final: bytes, expected: bytes)
      ensures final == FinalMessage(hs, password, clientFirstBare, sf, raw)
      ensures expected == ExpectedSignature(hs, password, clientFirstBare, sf, raw)
    {
      var saltedPassword := hs.Hi(password, sf.salt, sf.iterations);
      var clientKey := hs.HMAC(saltedPassword, CLIENT_KEY);
      var storedKey := hs.H(clientKey);
      var withoutProof: bytes := "c=" + Std64(GS2_HEADER) + ",r=" + sf.nonce;
      var authMessage: bytes := clientFirstBare + "," + raw + "," + withoutProof;
      var clientSignature := hs.HMAC(storedKey, authMessage);
      var proof := XorBytes(clientKey, clientSignature);
      var serverKey := hs.HMAC(saltedPassword, SERVER_KEY);
      expected := hs.HMAC(serverKey, authMessage);
      final := withoutProof + ",p=" + Std64(proof);
    }
  }

  // ---------------------------------------------------------------- the exchange on the wire

  predicate IsServerFirst(m: Message, nonce: bytes)
  {
    && ParseAuthentication(m).Some? && ParseAuthentication(m).value.0 == SASL_CONTINUE
    && ParseServerFirst(ParseAuthentication(m).value.1).Some?
    && nonce <= ParseServerFirst(ParseAuthentication(m).value.1).value.nonce
  }

  predicate IsServerFinal(m: Message, expected: bytes)
  {
    && ParseAuthentication(m).Some? && ParseAuthentication(m).value.0 == SASL_FINAL
    && VerifyServerFinal(ParseAuthentication(m).value.1, expected)
  }

  predicate IsAuthenticationOk(m: Message)
  {
    ParseAuthentication(m).Some? && ParseAuthentication(m).value.0 == AUTH_OK
  }

  /** Three messages that complete the exchange: a server-first-message whose nonce extends the
      client's, a server-final-message whose signature is the expected one, and AuthenticationOK. */
  predicate CompletesExchange(hs: Hashes, user: bytes, password: bytes, nonce: bytes, ms: seq<Message>)
  {
    && |ms| == 3
    && IsServerFirst(ms[0], nonce)
    && var raw := ParseAuthentication(ms[0]).value.1;
    && IsServerFinal(ms[1], ExpectedSignature(hs, password, FirstBare(user, nonce), ParseServerFirst(raw).value, raw))
    && IsAuthenticationOk(ms[2])
  }

  predicate ExchangeSucceeds(hs: Hashes, user: bytes, password: bytes, nonce: bytes, incoming: bytes)
  {
    var read := DecodeMany(incoming, 3);
    read.Got? && CompletesExchange(hs, user, password, nonce, read.value)
  }

  /** The bytes of the client's two messages. */
  function FirstSent(user: bytes, nonce: bytes): bytes
  {
    EncodeMessage(Message(PASSWORD_MESSAGE, InitialResponse(MECHANISM, GS2_HEADER + FirstBare(user, nonce))))
  }

  function FinalSent(hs: Hashes, user: bytes, password: bytes, nonce: bytes, m: Message): bytes
    requires IsServerFirst(m, nonce)
  {
    var raw := ParseAuthentication(m).value.1;
    EncodeMessage(Message(PASSWORD_MESSAGE, FinalMessage(hs, password, FirstBare(user, nonce), ParseServerFirst(raw).value, raw)))
  }

  /** What the exchange sends, however it ends: the first message if it can be written, and the final
      one if the server's first message is in order and it can be written too. */
  function ScramSent(hs: Hashes, user: bytes, password: bytes, nonce: bytes, incoming: bytes, writes: nat): bytes
  {
    if writes == 0 then []
    else
      var d := DecodeMessage(incoming);
      FirstSent(user, nonce)
      + if writes >= 2 && d.Got? && IsServerFirst(d.value, nonce) then FinalSent(hs, user, password, nonce, d.value) else []
  }

  lemma {:induction false} DecodeManyLength(s: bytes, n: nat)
    ensures DecodeMany(s, n).Got? ==> |DecodeMany(s, n).value| == n
  {
    if n > 0 && DecodeMessage(s).Got? { DecodeManyLength(DecodeMessage(s).rest, n - 1); }
  }

  /** Three reads in a row, spelled out. */
  lemma DecodeThree(s: bytes)
    ensures DecodeMany(s, 3).Got? <==>
            (&& DecodeMessage(s).Got?
             && DecodeMessage(DecodeMessage(s).rest).Got?
             && DecodeMessage(DecodeMessage(DecodeMessage(s).rest).rest).Got?)
    ensures DecodeMany(s, 3).Got? ==>
            var d1 := DecodeMessage(s);
            var d2 := DecodeMessage(d1.rest);
            var d3 := DecodeMessage(d2.rest);
            DecodeMany(s, 3) == Got([d1.value, d2.value, d3.value], d3.rest)
  {
    var d1 := DecodeMessage(s);
    if d1.Got? {
      var d2 := DecodeMessage(d1.rest);
      if d2.Got? {
        var d3 := DecodeMessage(d2.rest);
        if d3.Got? {
          assert [d3.value] + [] == [d3.value];
          assert DecodeMany(d2.rest, 1) == Got([d3.value], d3.rest);
          assert [d2.value] + [d3.value] == [d2.value, d3.value];
          assert DecodeMany(d1.rest, 2) == Got([d2.value, d3.value], d3.rest);
          assert [d1.value] + [d2.value, d3.value] == [d1.value, d2.value, d3.value];
        } else {
          assert DecodeMany(d2.rest, 1).Failed?;
          assert DecodeMany(d1.rest, 2).Failed?;
        }
      } else {
        assert DecodeMany(d1.rest, 2).Failed?;
      }
    }
  }

  method FirstRoundTrip(c: Conn, client: Client, user: bytes) returns (r: Option<(bytes, ServerFirst)>)
    modifies c, client
    ensures client.clientFirstBare == FirstBare(user, client.clientNonce)
    ensures var d := DecodeMessage(old(c.incoming));
            && (r.Some? <==> old(c.writesLeft) >= 1 && d.Got? && IsServerFirst(d.value, client.clientNonce))
            && (r.Some? ==>
                  && r.value.0 == ParseAuthentication(d.value).value.1
                  && r.value.1 == ParseServerFirst(r.value.0).value
                  && c.incoming == d.rest && c.writesLeft == old(c.writesLeft) - 1)
    ensures c.sent == old(c.sent) + if old(c.writesLeft) >= 1 then FirstSent(user, client.clientNonce) else []
  {
    var wire := client.ClientFirstWire(user);
    var written := WriteMessage(c, PASSWORD_MESSAGE, InitialResponse(MECHANISM, wire));
    if !written { return None; }
    var msg := ReadMessage(c);
    if msg.None? { return None; }
    var auth := ParseAuthentication(msg.value);
    if auth.None? || auth.value.0 != SASL_CONTINUE { return None; }
    var parsed := ParseServerFirstLoop(auth.value.1);
    if parsed.None? || !(client.clientNonce <= parsed.value.nonce) { return None; }
    return Some((auth.value.1, parsed.value));
  }

  method AwaitOutcome(c: Conn, expected: bytes) returns (ok: bool)
    modifies c`incoming
    ensures var d2 := DecodeMessage(old(c.incoming));
            && (ok <==> d2.Got? && IsServerFinal(d2.value, expected)
                        && DecodeMessage(d2.rest).Got? && IsAuthenticationOk(DecodeMessage(d2.rest).value))
            && (ok ==> c.incoming == DecodeMessage(d2.rest).rest)
  {
    var msg := ReadMessage(c);
    if msg.None? { return false; }
    var auth := ParseAuthentication(msg.value);
    if auth.None? || auth.value.0 != SASL_FINAL { return false; }
    if !VerifyServerFinal(auth.value.1, expected) { return false; }
    msg := ReadMessage(c);
    if msg.None? { return false; }
    auth := ParseAuthentication(msg.value);
    return auth.Some? && auth.value.0 == AUTH_OK;
  }

  method SecondRoundTrip(hs: Hashes, c: Conn, client: Client, ghost user: bytes, raw: bytes, sf: ServerFirst)
    returns (ok: bool)
    requires client.clientFirstBare == FirstBare(user, client.clientNonce)
    modifies c
    ensures var d2 := DecodeMessage(old(c.incoming));
            var expected := ExpectedSignature(hs, client.password, FirstBare(user, client.clientNonce), sf, raw);
            && (ok <==> old(c.writesLeft) >= 1 && d2.Got? && IsServerFinal(d2.value, expected)
                        && DecodeMessage(d2.rest).Got? && IsAuthenticationOk(DecodeMessage(d2.rest).value))
            && (ok ==> c.incoming == DecodeMessage(d2.rest).rest && c.writesLeft == old(c.writesLeft) - 1)
    ensures c.sent == old(c.sent) + if old(c.writesLeft) >= 1 then EncodeMessage(Message(PASSWORD_MESSAGE,
                                      FinalMessage(hs, client.password, FirstBare(user, client.clientNonce), sf, raw))) else []
  {
    var final, expected := client.ClientFinalMessage(hs, sf, raw);
    var written := WriteMessage(c, PASSWORD_MESSAGE, final);
    if !written { return false; }
    ok := AwaitOutcome(c, expected);
  }

  lemma ExchangeByReads(hs: Hashes, user: bytes, password: bytes, nonce: bytes, s: bytes)
    ensures ExchangeSucceeds(hs, user, password, nonce, s) <==>
            var d1 := DecodeMessage(s);
            && d1.Got? && IsServerFirst(d1.value, nonce)
            && var raw := ParseAuthentication(d1.value).value.1;
            && var d2 := DecodeMessage(d1.rest);
            && d2.Got?
            && IsServerFinal(d2.value, ExpectedSignature(hs, password, FirstBare(user, nonce), ParseServerFirst(raw).value, raw))
            && DecodeMessage(d2.rest).Got? && IsAuthenticationOk(DecodeMessage(d2.rest).value)
    ensures ExchangeSucceeds(hs, user, password, nonce, s) ==>
            && DecodeMany(s, 3).value[0] == DecodeMessage(s).value
            && DecodeMany(s, 3).rest == DecodeMessage(DecodeMessage(DecodeMessage(s).rest).rest).rest
  {
    DecodeThree(s);
  }

  /** What ScramSent comes to: nothing, the first message, or both. */
  lemma ScramSentCases(hs: Hashes, user: bytes, password: bytes, nonce: bytes, incoming: bytes, writes: nat)
    ensures var d := DecodeMessage(incoming);
            var sent := ScramSent(hs, user, password, nonce, incoming, writes);
            && (writes == 0 ==> sent == [])
            && (writes == 1 || (writes >= 2 && !(d.Got? && IsServerFirst(d.value, nonce))) ==> sent == FirstSent(user, nonce))
            && (writes >= 2 && d.Got? && IsServerFirst(d.value, nonce) ==>
                  sent == FirstSent(user, nonce) + FinalSent(hs, user, password, nonce, d.value))
  {
    assert FirstSent(user, nonce) + [] == FirstSent(user, nonce);
  }

  method PerformScram(hs: Hashes, c: Conn, user: bytes, password: bytes, nonce: bytes) returns (ok: bool)
    modifies c
    ensures ok <==> old(c.writesLeft) >= 2 && ExchangeSucceeds(hs, user, password, nonce, old(c.incoming))
    ensures ok ==> c.incoming == DecodeMany(old(c.incoming), 3).rest && c.writesLeft == old(c.writesLeft) - 2
    ensures c.sent == old(c.sent) + ScramSent(hs, user, password, nonce, old(c.incoming), old(c.writesLeft))
  {
    ExchangeByReads(hs, user, password, nonce, c.incoming);
    ScramSentCases(hs, user, password, nonce, c.incoming, c.writesLeft);
    ghost var sent, d := c.sent, DecodeMessage(c.incoming);
    var client := new Client(password, nonce);
    var first := FirstRoundTrip(c, client, user);
    if first.None? { return false; }
    var (raw, sf) := first.value;
    Assoc(sent, FirstSent(user, nonce), FinalSent(hs, user, password, nonce, d.value));
    ok := SecondRoundTrip(hs, c, client, user, raw, sf);
  }
}
