/** The PostgreSQL v3 message framing of internal/sidecar/pgwire/frame.go. */
module Frame {
  import opened Text

  const NUL: byte := '\0'
  const AUTHENTICATION: byte := 'R'
  const READY_FOR_QUERY: byte := 'Z'
  const ERROR_RESPONSE: byte := 'E'
  const PASSWORD_MESSAGE: byte := 'p'

  const PROTOCOL_VERSION_3 := 196608
  const SSL_REQUEST_CODE := 80877103

  const TWO_32 := 0x1_0000_0000

  datatype Message = Message(kind: byte, payload: bytes)

  /** Outcome of reading from a stream: what was read, and what of the stream is left. */
  datatype Read<+T> = Got(value: T, rest: bytes) | Failed(rest: bytes)

  // ---------------------------------------------------------------- 32-bit integers

  function Pow256(k: nat): (p: nat)
    ensures p >= 1
  {
    if k == 0 then 1 else 256 * Pow256(k - 1)
  }

  /** The low k bytes of n, most significant first. */
  function BigEndian(n: nat, k: nat): (r: bytes)
    ensures |r| == k
  {
    if k == 0 then [] else BigEndian(n / 256, k - 1) + [Byte(n % 256)]
  }

  function FromBigEndian(b: bytes): (n: nat)
    ensures n < Pow256(|b|)
  {
    if b == [] then 0
    else
      var k := |b| - 1;
      256 * FromBigEndian(b[..k]) + b[k] as int
  }

  /** binary.BigEndian.AppendUint32(nil, uint32(n)): the conversion keeps the low 32 bits. */
  function BigEndian32(n: nat): (r: bytes)
    ensures |r| == 4
  {
    BigEndian(n, 4)
  }

  function FromBigEndian32(b: bytes): (n: nat)
    requires |b| == 4
    ensures n < TWO_32
  {
    assert Pow256(4) == TWO_32 by { assert Pow256(2) == 65536; }
    FromBigEndian(b)
  }

  /** int32(v): values from 2^31 up become negative. */
  function Signed32(v: nat): int
    requires v < TWO_32
  {
    if v < 0x8000_0000 then v else v - TWO_32
  }

  lemma {:induction false} FromBigEndianOf(n: nat, k: nat)
    ensures FromBigEndian(BigEndian(n, k)) == n % Pow256(k)
  {
    if k > 0 {
      FromBigEndianOf(n / 256, k - 1);
      var b := BigEndian(n, k);
      assert b[..k - 1] == BigEndian(n / 256, k - 1);
      ModSplit(n, Pow256(k - 1));
    }
  }

  lemma ModSplit(n: nat, p: nat)
    requires p > 0
    ensures n % (256 * p) == 256 * (n / 256 % p) + n % 256
  {
    var q := n / 256 / p;
    var r := n / 256 % p;
    assert n / 256 == q * p + r;
    assert n == q * (256 * p) + (256 * r + n % 256);
    assert 0 <= 256 * r + n % 256 < 256 * p;
    ModUnique(n, 256 * p, q, 256 * r + n % 256);
  }

  lemma MulAwayFromZero(e: int, d: int)
    requires d > 0
    ensures e >= 1 ==> e * d >= d
    ensures e <= -1 ==> e * d <= -d
  {
  }

  lemma ModUnique(n: int, d: int, q: int, r: int)
    requires 0 <= r < d && n == q * d + r
    ensures n % d == r
  {
    var e := n / d - q;
    assert n == (n / d) * d + n % d;
    assert e * d == r - n % d;
    MulAwayFromZero(e, d);
  }

  lemma LowByte(m: nat, c: byte, k: nat)
    requires k > 0
    ensures BigEndian(256 * m + c as int, k) == BigEndian(m, k - 1) + [c]
  {
    var n := 256 * m + c as int;
    assert n / 256 == m && n % 256 == c as int;
  }

  lemma {:induction false} BigEndianOfFrom(b: bytes)
    ensures BigEndian(FromBigEndian(b), |b|) == b
  {
    if b != [] {
      var k := |b| - 1;
      BigEndianOfFrom(b[..k]);
      LowByte(FromBigEndian(b[..k]), b[k], |b|);
      InitLast(b);
    }
  }

  lemma BigEndian32Value(n: nat)
    ensures FromBigEndian32(BigEndian32(n)) == n % TWO_32
  {
    FromBigEndianOf(n, 4);
    assert Pow256(4) == TWO_32 by { assert Pow256(2) == 65536; }
  }

  lemma FromBigEndian32Value(b: bytes)
    requires |b| == 4
    ensures BigEndian32(FromBigEndian32(b)) == b
  {
    BigEndianOfFrom(b);
  }

  // ---------------------------------------------------------------- typed messages

  function EncodeMessage(m: Message): bytes
  {
    [m.kind] + BigEndian32(4 + |m.payload|) + m.payload
  }

  function EncodeAll(ms: seq<Message>): bytes
  {
    if ms == [] then [] else EncodeMessage(ms[0]) + EncodeAll(ms[1..])
  }

  function DecodeMessage(s: bytes): Read<Message>
  {
    if |s| < 5 then Failed([])
    else
      var length := FromBigEndian32(s[1..5]);
      if length < 4 then Failed(s[5..])
      else if |s| < 1 + length then Failed([])
      else Got(Message(s[0], s[5..1 + length]), s[1 + length..])
  }

  /** Reading n messages in a row. */
  function DecodeMany(s: bytes, n: nat): Read<seq<Message>>
  {
    if n == 0 then Got([], s)
    else
      match DecodeMessage(s)
      case Failed(rest) => Failed(rest)
      case Got(m, rest) =>
        match DecodeMany(rest, n - 1)
        case Failed(r) => Failed(r)
        case Got(ms, r) => Got([m] + ms, r)
  }

  predicate Fits(m: Message) { 4 + |m.payload| < TWO_32 }

  /** A written message is read back, leaving what follows it, exactly when its length fits 32 bits. */
  lemma MessageRoundTrip(m: Message, tail: bytes)
    ensures DecodeMessage(EncodeMessage(m) + tail) == Got(m, tail) <==> Fits(m)
  {
    var s := EncodeMessage(m) + tail;
    assert s[1..5] == BigEndian32(4 + |m.payload|);
    BigEndian32Value(4 + |m.payload|);
    if Fits(m) {
      assert s[5..5 + |m.payload|] == m.payload;
      assert s[5 + |m.payload|..] == tail;
    } else {
      var length := FromBigEndian32(s[1..5]);
      if 4 <= length && |s| >= 1 + length {
        assert |s[5..1 + length]| == length - 4;
      }
    }
  }

  /** Reading the concatenation of written messages yields exactly those messages and stops at the
      boundary. */
  lemma {:induction false} StreamRoundTrip(ms: seq<Message>, tail: bytes)
    requires forall m <- ms :: Fits(m)
    ensures DecodeMany(EncodeAll(ms) + tail, |ms|) == Got(ms, tail)
  {
    if ms == [] {
      assert EncodeAll(ms) + tail == tail;
    } else {
      var rest := EncodeAll(ms[1..]) + tail;
      assert EncodeAll(ms) + tail == EncodeMessage(ms[0]) + rest;
      assert ms[0] in ms;
      MessageRoundTrip(ms[0], rest);
      StreamRoundTrip(ms[1..], tail);
      assert [ms[0]] + ms[1..] == ms;
    }
  }

  /** A message cut short never decodes. */
  lemma StrictPrefixFails(m: Message, n: nat)
    requires Fits(m)
    requires n < |EncodeMessage(m)|
    ensures DecodeMessage(EncodeMessage(m)[..n]).Failed?
  {
    var s := EncodeMessage(m)[..n];
    if n >= 5 {
      assert s[1..5] == BigEndian32(4 + |m.payload|);
      BigEndian32Value(4 + |m.payload|);
    }
  }

  /** Whatever decodes was the encoding of a message that fits: framing is unambiguous. */
  lemma DecodeExact(s: bytes)
    requires DecodeMessage(s).Got?
    ensures var r := DecodeMessage(s);
            s == EncodeMessage(r.value) + r.rest && Fits(r.value) && |r.rest| + 5 <= |s|
  {
    var length := FromBigEndian32(s[1..5]);
    FromBigEndian32Value(s[1..5]);
    assert s == [s[0]] + s[1..5] + s[5..1 + length] + s[1 + length..];
  }

  /** The four bytes of a length, most significant first. */
  lemma LengthBytes(n: nat)
    ensures BigEndian32(n) == [Byte(n / 0x100_0000 % 256), Byte(n / 0x1_0000 % 256), Byte(n / 0x100 % 256), Byte(n % 256)]
  {
    var a, b, c := n / 256, n / 256 / 256, n / 256 / 256 / 256;
    assert b == n / 0x1_0000 && c == n / 0x100_0000;
    assert BigEndian(c, 1) == BigEndian(c / 256, 0) + [Byte(c % 256)] == [Byte(c % 256)];
    assert BigEndian(b, 2) == BigEndian(c, 1) + [Byte(b % 256)];
    assert BigEndian(a, 3) == BigEndian(b, 2) + [Byte(a % 256)];
    assert BigEndian(n, 4) == BigEndian(a, 3) + [Byte(n % 256)];
  }

  /** The layout of a message on the wire: its kind, four bytes of the payload's length plus four, and
      the payload. */
  lemma MessageLayout(m: Message)
    ensures var s, n := EncodeMessage(m), |m.payload| + 4;
            && |s| == n + 1 && s[0] == m.kind && s[5..] == m.payload
            && s[1..5] == [Byte(n / 0x100_0000 % 256), Byte(n / 0x1_0000 % 256), Byte(n / 0x100 % 256), Byte(n % 256)]
  {
    LengthBytes(|m.payload| + 4);
    TakeAppend([m.kind], BigEndian32(4 + |m.payload|));
  }

  // ---------------------------------------------------------------- the connection

  /** A connection: the bytes still to arrive, the bytes sent, and how many more writes succeed. */
  class Conn {
    var incoming: bytes
    var sent: bytes
    var writesLeft: nat

    constructor (incoming: bytes, writesLeft: nat)
      ensures this.incoming == incoming && this.sent == [] && this.writesLeft == writesLeft
    {
      this.incoming, this.sent, this.writesLeft := incoming, [], writesLeft;
    }

    /** io.ReadFull with a buffer of n bytes; a short stream is consumed. */
    method ReadFull(n: nat) returns (ok: bool, buf: bytes)
      modifies this`incoming
      ensures ok == (n <= |old(incoming)|)
      ensures ok ==> buf == old(incoming)[..n] && incoming == old(incoming)[n..]
      ensures !ok ==> incoming == []
    {
      if n <= |incoming| {
        ok, buf, incoming := true, incoming[..n], incoming[n..];
      } else {
        ok, buf, incoming := false, incoming, [];
      }
    }

    method Write(b: bytes) returns (ok: bool)
      modifies this`sent, this`writesLeft
      ensures ok == (old(writesLeft) > 0)
      ensures ok ==> sent == old(sent) + b && writesLeft == old(writesLeft) - 1
      ensures !ok ==> sent == old(sent) && writesLeft == 0
    {
      ok := writesLeft > 0;
      if ok {
        sent, writesLeft := sent + b, writesLeft - 1;
      }
    }
  }

  method ReadMessage(c: Conn) returns (r: Option<Message>)
    modifies c`incoming
    ensures r == match DecodeMessage(old(c.incoming)) case Got(m, _) => Some(m) case Failed(_) => None
    ensures c.incoming == DecodeMessage(old(c.incoming)).rest
  {
    var s := c.incoming;
    var ok, head := c.ReadFull(5);
    if !ok { return None; }
    assert head[1..5] == s[1..5];
    var length := FromBigEndian32(head[1..5]);
    if length < 4 { return None; }
    var payload;
    ok, payload := c.ReadFull(length - 4);
    if !ok { return None; }
    assert payload == s[5..1 + length];
    assert c.incoming == s[1 + length..];
    return Some(Message(head[0], payload));
  }

  method WriteMessage(c: Conn, kind: byte, payload: bytes) returns (ok: bool)
    modifies c`sent, c`writesLeft
    ensures ok == (old(c.writesLeft) > 0)
    ensures ok ==> c.sent == old(c.sent) + EncodeMessage(Message(kind, payload)) && c.writesLeft == old(c.writesLeft) - 1
    ensures !ok ==> c.sent == old(c.sent) && c.writesLeft == 0
  {
    var buf: bytes := [kind];
    buf := buf + BigEndian32(4 + |payload|);
    buf := buf + payload;
    ok := c.Write(buf);
  }

  /** An 'R' message split into its sub-code and the rest of its payload. */
  function ParseAuthentication(m: Message): Option<(int, bytes)>
  {
    if m.kind != AUTHENTICATION || |m.payload| < 4 then None
    else Some((Signed32(FromBigEndian32(m.payload[..4])), m.payload[4..]))
  }

  function AuthenticationMessage(subCode: nat, rest: bytes): Message
  {
    Message(AUTHENTICATION, BigEndian32(subCode) + rest)
  }

  lemma ParseAuthenticationMessage(subCode: nat, rest: bytes)
    requires subCode < 0x8000_0000
    ensures ParseAuthentication(AuthenticationMessage(subCode, rest)) == Some((subCode, rest))
  {
    var p := AuthenticationMessage(subCode, rest).payload;
    assert p[..4] == BigEndian32(subCode);
    assert p[4..] == rest;
    BigEndian32Value(subCode);
  }
}
