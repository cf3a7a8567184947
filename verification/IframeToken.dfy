/** The iframe session token, internal/gateway/iframetoken.go: a pipe-delimited claim list in
    unpadded base64, followed by a dot and its signature. */
module IframeToken {
  import opened Text
  import Base64
  import Urls

  /** Nanoseconds since the epoch, with seconds that fit 64 bits. */
  const SECOND: int := 1_000_000_000
  type Time = n: int | MIN_INT64 <= n / SECOND <= MAX_INT64 witness 0

  datatype Claims = Claims(moduleID: bytes, workspace: bytes, role: bytes, subject: bytes, expiresAt: Time,
                           isOperator: bool, preferredUsername: bytes)

  datatype Reason = Malformed | BadSignature | BadBase64 | WrongFieldCount | BadExpiry | BadUsername | Expired

  datatype Result = Ok(claims: Claims) | Refused(reason: Reason)

  function Fields(c: Claims): seq<bytes>
  {
    [c.moduleID, c.workspace, c.role, c.subject, FormatInt(c.expiresAt / SECOND), if c.isOperator then "1" else "0",
     Urls.QueryEscape(c.preferredUsername)]
  }

  function EncodeClaims(c: Claims): bytes
  {
    Base64.Encode(Join(Fields(c), '|'), Base64.RawUrl)
  }

  function FromFields(parts: seq<bytes>): Result
  {
    if |parts| != 7 then Refused(WrongFieldCount)
    else
      var expiry := ParseInt(parts[4]);
      if expiry.None? then Refused(BadExpiry)
      else
        var username := Urls.Unescape(parts[6], Urls.Query);
        if username.None? then Refused(BadUsername)
        else
          assert expiry.value * SECOND / SECOND == expiry.value;
          Ok(Claims(parts[0], parts[1], parts[2], parts[3], expiry.value * SECOND, parts[5] == "1", username.value))
  }

  function DecodeClaims(payload: bytes): Result
  {
    match Base64.Decode(payload, Base64.RawUrl)
    case None => Refused(BadBase64)
    case Some(raw) => FromFields(Split(raw, '|'))
  }

  predicate PipeFree(c: Claims)
  {
    '|' !in c.moduleID && '|' !in c.workspace && '|' !in c.role && '|' !in c.subject
  }

  /** The claims with their expiry cut to whole seconds. */
  function WholeSeconds(c: Claims): Claims
  {
    assert c.expiresAt / SECOND * SECOND / SECOND == c.expiresAt / SECOND;
    c.(expiresAt := c.expiresAt / SECOND * SECOND)
  }

  lemma FieldsPipeFree(c: Claims)
    ensures PipeFree(c) <==> forall i :: 0 <= i < |Fields(c)| ==> '|' !in Fields(c)[i]
  {
    var f := Fields(c);
    FormatIntChars(c.expiresAt / SECOND);
    Urls.QueryEscapeAlphabet(c.preferredUsername);
    assert '|' !in f[4] && '|' !in f[5] && '|' !in f[6];
    if !PipeFree(c) {
      assert '|' in f[0] || '|' in f[1] || '|' in f[2] || '|' in f[3];
    }
  }

  /** Decoding gives the claims back, with the expiry cut to whole seconds and whatever bytes the
      username holds, if and only if module, workspace, role and subject hold no '|'; otherwise it
      fails on the number of fields. */
  lemma ClaimCodec(c: Claims)
    ensures DecodeClaims(EncodeClaims(c)) == if PipeFree(c) then Ok(WholeSeconds(c)) else Refused(WrongFieldCount)
  {
    var f := Fields(c);
    var raw := Join(f, '|');
    Base64.RoundTrip(raw, Base64.RawUrl);
    FieldsPipeFree(c);
    if PipeFree(c) {
      SplitJoin(f, '|');
      ParseFormatInt(c.expiresAt / SECOND);
      Urls.QueryRoundTrip(c.preferredUsername);
    } else {
      CountJoin(f, '|');
      TotalZero(f, '|');
      SplitLength(raw, '|');
    }
  }

  /** What is signed: the seven fields in this order, the expiry in seconds, with pipes between them. */
  lemma PayloadText(c: Claims)
    ensures EncodeClaims(c) ==
            Base64.Encode(c.moduleID + "|" + (c.workspace + "|" + (c.role + "|" + (c.subject + "|"
                          + (FormatInt(c.expiresAt / 1_000_000_000) + "|" + ((if c.isOperator then "1" else "0") + "|"
                          + Urls.QueryEscape(c.preferredUsername)))))), Base64.RawUrl)
  {
    var f := Fields(c);
    assert f == [f[0]] + ([f[1]] + ([f[2]] + ([f[3]] + ([f[4]] + ([f[5]] + [f[6]])))));
    JoinHead(f[5], [f[6]]);
    JoinHead(f[4], [f[5]] + [f[6]]);
    JoinHead(f[3], [f[4]] + ([f[5]] + [f[6]]));
    JoinHead(f[2], [f[3]] + ([f[4]] + ([f[5]] + [f[6]])));
    JoinHead(f[1], [f[2]] + ([f[3]] + ([f[4]] + ([f[5]] + [f[6]]))));
    JoinHead(f[0], [f[1]] + ([f[2]] + ([f[3]] + ([f[4]] + ([f[5]] + [f[6]])))));
  }

  lemma JoinHead(head: bytes, rest: seq<bytes>)
    requires rest != []
    ensures Join([head] + rest, '|') == head + "|" + Join(rest, '|')
  {
    ConsTail(head, rest);
  }

  // ---------------------------------------------------------------- signing

  /** The keyed hash, for the issuer's secret. */
  type Mac = bytes -> bytes

  function Sign(mac: Mac, payload: bytes): bytes
  {
    Base64.Encode(mac(payload), Base64.RawUrl)
  }

  function Issue(mac: Mac, c: Claims, expiresAt: Time): bytes
  {
    var payload := EncodeClaims(c.(expiresAt := expiresAt));
    payload + ['.'] + Sign(mac, payload)
  }

  /** What becomes of a payload once its signature is found right. */
  function Current(decoded: Result, now: Time): Result
  {
    if decoded.Ok? && now > decoded.claims.expiresAt then Refused(Expired) else decoded
  }

  predicate SignatureAt(mac: Mac, token: bytes, i: nat)
    requires i < |token|
  {
    Sign(mac, token[..i]) == token[i + 1..]
  }

  /** Splitting at the first dot, checking the signature, decoding and checking the expiry. */
  function Verify(mac: Mac, token: bytes, now: Time): Result
  {
    var i := IndexOf(token, '.');
    if i == |token| then Refused(Malformed)
    else if !SignatureAt(mac, token, i) then Refused(BadSignature)
    else Current(DecodeClaims(token[..i]), now)
  }

  lemma PayloadHasNoDot(c: Claims)
    ensures '.' !in EncodeClaims(c)
  {
    Base64.EncodeAlphabet(Join(Fields(c), '|'), Base64.RawUrl);
  }

  lemma VerifySigned(mac: Mac, payload: bytes, now: Time)
    requires '.' !in payload
    ensures Verify(mac, payload + ['.'] + Sign(mac, payload), now) == Current(DecodeClaims(payload), now)
  {
    var token := payload + ['.'] + Sign(mac, payload);
    IndexOfFirst(payload, '.', Sign(mac, payload));
    assert token[..|payload|] == payload && token[|payload| + 1..] == Sign(mac, payload);
  }

  /** Verify undoes Issue up to the whole second of expiry; after it, or when a field held a '|', it
      refuses. */
  lemma VerifyInvertsIssue(mac: Mac, c: Claims, expiresAt: Time, now: Time)
    ensures Verify(mac, Issue(mac, c, expiresAt), now)
         == if !PipeFree(c) then Refused(WrongFieldCount)
            else if now > expiresAt / SECOND * SECOND then Refused(Expired)
            else Ok(WholeSeconds(c.(expiresAt := expiresAt)))
  {
    var issued := c.(expiresAt := expiresAt);
    PayloadHasNoDot(issued);
    VerifySigned(mac, EncodeClaims(issued), now);
    ClaimCodec(issued);
  }

  predicate SignedWith(mac: Mac, token: bytes, payload: bytes)
  {
    '.' !in payload && token == payload + ['.'] + Base64.Encode(mac(payload), Base64.RawUrl)
  }

  lemma SignedAt(mac: Mac, token: bytes, i: nat)
    requires i < |token| && token[i] == '.' && '.' !in token[..i] && SignatureAt(mac, token, i)
    ensures SignedWith(mac, token, token[..i])
  {
    assert token == token[..i] + [token[i]] + token[i + 1..];
  }

  /** A token is accepted exactly when it is a payload, a dot and the signature of that payload, the
      payload decodes to the claims, and they have not expired. */
  lemma AcceptedExactly(mac: Mac, token: bytes, now: Time, c: Claims)
    ensures Verify(mac, token, now) == Ok(c)
       <==> exists payload: bytes :: SignedWith(mac, token, payload) && DecodeClaims(payload) == Ok(c) && now <= c.expiresAt
  {
    var i := IndexOf(token, '.');
    if i < |token| && SignatureAt(mac, token, i) {
      SignedAt(mac, token, i);
      VerifySigned(mac, token[..i], now);
    }
    forall payload: bytes | SignedWith(mac, token, payload)
      ensures Verify(mac, token, now) == Current(DecodeClaims(payload), now)
    {
      VerifySigned(mac, payload, now);
    }
  }
}
